/**
  Time ranges of one day, measured in minutes, and the facts about lists of
  them that the meeting-slot finder relies on.

  A range is the half-open interval [start, end). The day runs from
  START_OF_DAY (minute 0) to END_OF_DAY (minute 1439, i.e. 23:59) inclusive,
  so the whole day is [0, 1440).
 */
module TimeRanges {

  const START_OF_DAY: int := 0
  const END_OF_DAY: int := 1439

  datatype TimeRange = TimeRange(start: int, end: int) {

    function Duration(): int { end - start }

    /** The minute p lies in the range. */
    predicate ContainsPoint(p: int) { start <= p < end }

    /** The other range lies within this one. */
    predicate Contains(other: TimeRange) { start <= other.start && other.end <= end }

    /** The two ranges share at least one minute; ranges that only touch do not. */
    predicate Overlaps(other: TimeRange)
    {
      (if start < other.start then other.start else start) < (if end < other.end then end else other.end)
    }
  }

  /** A range given by its first minute and either its last minute (inclusive) or the minute after it. */
  function FromStartEnd(start: int, end: int, inclusive: bool): TimeRange
  {
    if inclusive then TimeRange(start, end + 1) else TimeRange(start, end)
  }

  /** The whole day, [START_OF_DAY, END_OF_DAY] inclusive. */
  function WholeDay(): TimeRange
  {
    FromStartEnd(START_OF_DAY, END_OF_DAY, true)
  }

  /** The span of a real event: inside the day and at least one minute long. */
  predicate Proper(r: TimeRange)
  {
    START_OF_DAY <= r.start < r.end <= END_OF_DAY + 1
  }

  predicate AllProper(s: seq<TimeRange>)
  {
    forall x :: x in s ==> Proper(x)
  }

  /** Some range of s holds minute p. */
  predicate Covers(s: seq<TimeRange>, p: int)
  {
    exists x :: x in s && x.ContainsPoint(p)
  }

  /** Every minute of x lies in the day and in no range of busy. */
  ghost predicate IsFreeSlot(x: TimeRange, busy: seq<TimeRange>)
  {
    forall p :: x.ContainsPoint(p) ==> START_OF_DAY <= p <= END_OF_DAY && !Covers(busy, p)
  }

  /** Ascending by start, the order of TimeRange.ORDER_BY_START. */
  predicate SortedByStart(s: seq<TimeRange>)
  {
    forall a, b :: 0 <= a < b < |s| ==> s[a].start <= s[b].start
  }

  /** Sorted and pairwise disjoint: every range ends no later than any later range starts. */
  predicate Ordered(s: seq<TimeRange>)
  {
    forall a, b :: 0 <= a < b < |s| ==> s[a].end <= s[b].start
  }

  /** No range overlaps its successor. */
  predicate NoAdjacentOverlap(s: seq<TimeRange>)
  {
    forall k :: 0 <= k < |s| - 1 ==> !s[k].Overlaps(s[k + 1])
  }

  /** Overlaps means exactly "some minute lies in both ranges". */
  lemma OverlapsIffSharedMinute(a: TimeRange, b: TimeRange)
    ensures a.Overlaps(b) <==> exists p :: a.ContainsPoint(p) && b.ContainsPoint(p)
  {
    if a.Overlaps(b) {
      var p := if a.start < b.start then b.start else a.start;
      assert a.ContainsPoint(p) && b.ContainsPoint(p);
    }
  }

  /** For a range of at least one minute, Contains means that every minute of it lies in this one. */
  lemma ContainsIffSuperset(a: TimeRange, b: TimeRange)
    requires b.start < b.end
    ensures a.Contains(b) <==> forall p :: b.ContainsPoint(p) ==> a.ContainsPoint(p)
  {
    if !a.Contains(b) {
      if b.start < a.start {
        assert b.ContainsPoint(b.start) && !a.ContainsPoint(b.start);
      } else {
        assert b.ContainsPoint(b.end - 1) && !a.ContainsPoint(b.end - 1);
      }
    }
  }

  lemma CoversConcat(a: seq<TimeRange>, b: seq<TimeRange>, p: int)
    ensures Covers(a + b, p) <==> Covers(a, p) || Covers(b, p)
  {
    if Covers(a + b, p) {
      var x :| x in a + b && x.ContainsPoint(p);
      assert x in a || x in b;
    }
    if Covers(a, p) {
      var x :| x in a && x.ContainsPoint(p);
      assert x in a + b;
    }
    if Covers(b, p) {
      var x :| x in b && x.ContainsPoint(p);
      assert x in a + b;
    }
  }

  /** A slot inside a free slot is free. */
  lemma FreeSlotWithin(x: TimeRange, y: TimeRange, busy: seq<TimeRange>)
    requires y.Contains(x) && IsFreeSlot(y, busy)
    ensures IsFreeSlot(x, busy)
  {
    forall p | x.ContainsPoint(p)
      ensures START_OF_DAY <= p <= END_OF_DAY && !Covers(busy, p)
    {
      assert y.ContainsPoint(p);
    }
  }

  /** Freedom depends only on which minutes the busy list covers. */
  lemma FreeSlotSameCover(x: TimeRange, b: seq<TimeRange>, c: seq<TimeRange>)
    requires forall p :: Covers(b, p) <==> Covers(c, p)
    requires IsFreeSlot(x, b)
    ensures IsFreeSlot(x, c)
  {
  }

  lemma OrderedCons(x: TimeRange, s: seq<TimeRange>)
    requires Ordered(s)
    requires forall y :: y in s ==> x.end <= y.start
    ensures Ordered([x] + s)
  {
    var t := [x] + s;
    forall a, b | 0 <= a < b < |t|
      ensures t[a].end <= t[b].start
    {
      if a == 0 {
        assert t[b] == s[b - 1] && s[b - 1] in s;
      } else {
        assert t[a] == s[a - 1] && t[b] == s[b - 1];
      }
    }
  }

  lemma OrderedSnoc(s: seq<TimeRange>, x: TimeRange)
    requires Ordered(s)
    requires forall y :: y in s ==> y.end <= x.start
    ensures Ordered(s + [x])
  {
    var t := s + [x];
    forall a, b | 0 <= a < b < |t|
      ensures t[a].end <= t[b].start
    {
      assert t[a] == s[a] && s[a] in s;
      if b < |s| {
        assert t[b] == s[b];
      }
    }
  }

  lemma SortedCons(x: TimeRange, s: seq<TimeRange>)
    requires SortedByStart(s)
    requires forall y :: y in s ==> x.start <= y.start
    ensures SortedByStart([x] + s)
  {
    var t := [x] + s;
    forall a, b | 0 <= a < b < |t|
      ensures t[a].start <= t[b].start
    {
      if a == 0 {
        assert t[b] == s[b - 1] && s[b - 1] in s;
      } else {
        assert t[a] == s[a - 1] && t[b] == s[b - 1];
      }
    }
  }

  // ---------------------------------------------------------------------------
  // Collections.sort(list, TimeRange.ORDER_BY_START): a stable sort by start.
  // ---------------------------------------------------------------------------

  /** Puts x after every range of a start-sorted list that starts no later than x. */
  function InsertByStart(x: TimeRange, s: seq<TimeRange>): (r: seq<TimeRange>)
    requires SortedByStart(s)
    ensures SortedByStart(r)
    ensures multiset(r) == multiset(s) + multiset{x}
    ensures |r| == |s| + 1
  {
    if s == [] then [x]
    else if x.start < s[0].start then
      assert forall y :: y in s ==> x.start <= y.start by {
        forall y | y in s ensures x.start <= y.start {
          var k :| 0 <= k < |s| && s[k] == y;
          assert s[0].start <= s[k].start;
        }
      }
      SortedCons(x, s);
      [x] + s
    else
      var rest := InsertByStart(x, s[1..]);
      assert s == [s[0]] + s[1..];
      assert forall y :: y in rest ==> s[0].start <= y.start by {
        forall y | y in rest ensures s[0].start <= y.start {
          assert y in multiset(rest);
          if y != x {
            assert y in s[1..];
            var k :| 0 <= k < |s[1..]| && s[1..][k] == y;
            assert s[0].start <= s[k + 1].start;
          }
        }
      }
      SortedCons(s[0], rest);
      [s[0]] + rest
  }

  /** Sorts by start, keeping ranges with equal starts in their original order. */
  function SortByStart(s: seq<TimeRange>): (r: seq<TimeRange>)
    ensures SortedByStart(r)
    ensures multiset(r) == multiset(s)
    ensures |r| == |s|
  {
    if s == [] then []
    else
      assert s == s[..|s| - 1] + [s[|s| - 1]];
      InsertByStart(s[|s| - 1], SortByStart(s[..|s| - 1]))
  }

  /** Sorting changes neither which ranges there are nor, therefore, which minutes they cover. */
  lemma SortByStartSameRanges(s: seq<TimeRange>)
    ensures forall x :: x in SortByStart(s) <==> x in s
    ensures AllProper(s) ==> AllProper(SortByStart(s))
    ensures forall p :: Covers(SortByStart(s), p) <==> Covers(s, p)
  {
    var r := SortByStart(s);
    assert forall x :: x in r <==> x in multiset(r);
    assert forall x :: x in s <==> x in multiset(s);
  }
}
