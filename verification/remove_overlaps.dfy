/**
  Collapsing overlapping busy ranges (removeOverlaps).

  The scan compares each range with its successor. When they overlap the
  successor is dropped and, unless the current range already contains it, the
  current range becomes [current.start, successor.end). That is the union only
  when the list is sorted by start; the code does not check that.
 */
module Normalize {
  import opened TimeRanges

  /** What the scan makes of a range and an overlapping successor. */
  function Absorb(cur: TimeRange, next: TimeRange): TimeRange
  {
    if cur.Contains(next) then cur else FromStartEnd(cur.start, next.end, false)
  }

  /** The list removeOverlaps leaves behind. */
  function Collapse(s: seq<TimeRange>): (r: seq<TimeRange>)
    ensures |r| <= |s|
    ensures r == [] <==> s == []
    decreases |s|
  {
    if |s| <= 1 then s
    else if s[0].Overlaps(s[1]) then Collapse([Absorb(s[0], s[1])] + s[2..])
    else [s[0]] + Collapse(s[1..])
  }

  /**
    Merges overlapping neighbours in place. Each step either removes an element
    or moves the index on, so the scan ends.
   */
  method RemoveOverlaps(times: seq<TimeRange>) returns (times': seq<TimeRange>)
    ensures times' == Collapse(times)
  {
    times' := times;
    var i := 0;
    while i < |times'| - 1
      invariant 0 <= i <= |times'|
      invariant times'[..i] + Collapse(times'[i..]) == Collapse(times)
      decreases |times'| - i
    {
      ghost var t := times';
      if times'[i].Overlaps(times'[i + 1]) {
        if !times'[i].Contains(times'[i + 1]) {
          times' := times'[i := FromStartEnd(times'[i].start, times'[i + 1].end, false)];
        }
        assert times' == t[i := Absorb(t[i], t[i + 1])];
        times' := times'[..i + 1] + times'[i + 2..];
        MergeStep(t, i);
      } else {
        SkipStep(t, i);
        i := i + 1;
      }
    }
    assert times'[..i] + times'[i..] == times';
  }

  /** The list after removeOverlaps has replaced t[i] and removed t[i + 1]. */
  lemma MergeStep(t: seq<TimeRange>, i: nat)
    requires i + 1 < |t| && t[i].Overlaps(t[i + 1])
    ensures var u := t[i := Absorb(t[i], t[i + 1])];
      var v := u[..i + 1] + u[i + 2..];
      v[..i] + Collapse(v[i..]) == t[..i] + Collapse(t[i..])
  {
    var m := Absorb(t[i], t[i + 1]);
    var u := t[i := m];
    var v := u[..i + 1] + u[i + 2..];
    var rest := t[i..];
    assert rest[0] == t[i] && rest[1] == t[i + 1];
    assert v[..i] == t[..i];
    assert v[i..] == [m] + rest[2..];
  }

  /** The list after removeOverlaps has moved past t[i]. */
  lemma SkipStep(t: seq<TimeRange>, i: nat)
    requires i + 1 < |t| && !t[i].Overlaps(t[i + 1])
    ensures t[..i + 1] + Collapse(t[i + 1..]) == t[..i] + Collapse(t[i..])
  {
    var rest := t[i..];
    assert rest[0] == t[i] && rest[1] == t[i + 1];
    assert t[..i + 1] == t[..i] + [rest[0]];
    assert t[i + 1..] == rest[1..];
  }

  /** A list in which no neighbours overlap is left as it is. */
  lemma {:induction false} CollapseUnchanged(s: seq<TimeRange>)
    requires NoAdjacentOverlap(s)
    ensures Collapse(s) == s
    decreases |s|
  {
    if |s| > 1 {
      assert !s[0].Overlaps(s[1]);
      CollapseUnchanged(s[1..]);
      assert s == [s[0]] + s[1..];
    }
  }

  /** Collapsing never moves a start: every start of the result is at least any bound all input starts respect. */
  lemma {:induction false} CollapseStartsFrom(s: seq<TimeRange>, lo: int)
    requires forall x :: x in s ==> lo <= x.start
    ensures forall x :: x in Collapse(s) ==> lo <= x.start
    decreases |s|
  {
    if |s| > 1 {
      if s[0].Overlaps(s[1]) {
        var t := [Absorb(s[0], s[1])] + s[2..];
        assert forall x :: x in t ==> x == t[0] || x in s[2..];
        CollapseStartsFrom(t, lo);
      } else {
        CollapseStartsFrom(s[1..], lo);
      }
    }
  }

  /** On sorted input, absorbing a successor keeps the start sorted with the rest. */
  lemma AbsorbSorted(s: seq<TimeRange>)
    requires |s| > 1 && SortedByStart(s) && s[0].Overlaps(s[1])
    ensures SortedByStart([Absorb(s[0], s[1])] + s[2..])
    ensures Absorb(s[0], s[1]).start == s[0].start
    ensures s[0].end <= Absorb(s[0], s[1]).end
    ensures forall p :: Absorb(s[0], s[1]).ContainsPoint(p) <==> s[0].ContainsPoint(p) || s[1].ContainsPoint(p)
  {
    var t := [Absorb(s[0], s[1])] + s[2..];
    forall a, b | 0 <= a < b < |t|
      ensures t[a].start <= t[b].start
    {
      assert t[b] == s[b + 1];
      if a > 0 {
        assert t[a] == s[a + 1];
      }
    }
  }

  /** On sorted input the first range of the result starts with, and reaches at least as far as, the first input range. */
  lemma {:induction false} CollapseHead(s: seq<TimeRange>)
    requires |s| > 0 && SortedByStart(s)
    ensures |Collapse(s)| > 0 && Collapse(s)[0].start == s[0].start && s[0].end <= Collapse(s)[0].end
    ensures s[0].end <= s[0].start ==> Collapse(s)[0] == s[0]
    decreases |s|
  {
    if |s| > 1 && s[0].Overlaps(s[1]) {
      AbsorbSorted(s);
      CollapseHead([Absorb(s[0], s[1])] + s[2..]);
    }
  }

  /** On start-sorted input the result is start-sorted and no two neighbours overlap. */
  lemma {:induction false} CollapseSorted(s: seq<TimeRange>)
    requires SortedByStart(s)
    ensures SortedByStart(Collapse(s)) && NoAdjacentOverlap(Collapse(s))
    decreases |s|
  {
    if |s| > 1 {
      if s[0].Overlaps(s[1]) {
        AbsorbSorted(s);
        CollapseSorted([Absorb(s[0], s[1])] + s[2..]);
      } else {
        var tail := s[1..];
        CollapseSorted(tail);
        CollapseHead(tail);
        CollapseStartsFrom(tail, s[0].start);
        SortedCons(s[0], Collapse(tail));
        var r := [s[0]] + Collapse(tail);
        assert !r[0].Overlaps(r[1]);
        forall k | 0 <= k < |r| - 1
          ensures !r[k].Overlaps(r[k + 1])
        {
          if k > 0 {
            assert r[k] == Collapse(tail)[k - 1] && r[k + 1] == Collapse(tail)[k];
          }
        }
      }
    }
  }

  /** Collapsing a start-sorted list twice gives what collapsing it once gives. */
  lemma CollapseIdempotent(s: seq<TimeRange>)
    requires SortedByStart(s)
    ensures Collapse(Collapse(s)) == Collapse(s)
  {
    CollapseSorted(s);
    CollapseUnchanged(Collapse(s));
  }

  /** On start-sorted input the result covers exactly the minutes the input covers. */
  lemma {:induction false} CollapseCovers(s: seq<TimeRange>)
    requires SortedByStart(s)
    ensures forall p :: Covers(Collapse(s), p) <==> Covers(s, p)
    decreases |s|
  {
    if |s| > 1 {
      forall p ensures Covers(s, p) <==> Covers([s[0]], p) || Covers([s[1]], p) || Covers(s[2..], p) {
        assert s == [s[0]] + [s[1]] + s[2..];
        CoversConcat([s[0]] + [s[1]], s[2..], p);
        CoversConcat([s[0]], [s[1]], p);
      }
      if s[0].Overlaps(s[1]) {
        var m := Absorb(s[0], s[1]);
        AbsorbSorted(s);
        CollapseCovers([m] + s[2..]);
        forall p ensures Covers([m] + s[2..], p) <==> Covers(s, p) {
          CoversConcat([m], s[2..], p);
          assert Covers([m], p) <==> m.ContainsPoint(p);
        }
      } else {
        CollapseCovers(s[1..]);
        forall p ensures Covers([s[0]] + Collapse(s[1..]), p) <==> Covers(s, p) {
          CoversConcat([s[0]], Collapse(s[1..]), p);
          CoversConcat([s[0]], s[1..], p);
          assert s == [s[0]] + s[1..];
        }
      }
    }
  }

  /**
    On start-sorted event spans (inside the day, at least a minute long) the
    result is again made of such spans, sorted and pairwise disjoint.
   */
  lemma {:induction false} CollapseOrdered(s: seq<TimeRange>)
    requires SortedByStart(s) && AllProper(s)
    ensures Ordered(Collapse(s)) && AllProper(Collapse(s))
    decreases |s|
  {
    if |s| > 1 {
      assert s[0] in s && s[1] in s;
      if s[0].Overlaps(s[1]) {
        var t := [Absorb(s[0], s[1])] + s[2..];
        AbsorbSorted(s);
        assert forall x :: x in t ==> x == t[0] || x in s[2..];
        CollapseOrdered(t);
      } else {
        var tail := s[1..];
        CollapseOrdered(tail);
        assert forall x :: x in tail ==> s[1].start <= x.start by {
          forall x | x in tail ensures s[1].start <= x.start {
            var k :| 0 <= k < |tail| && tail[k] == x;
            assert x == s[k + 1];
          }
        }
        CollapseStartsFrom(tail, s[1].start);
        assert s[0].end <= s[1].start;
        OrderedCons(s[0], Collapse(tail));
      }
    }
  }

  /**
    On unsorted input the merged range is not the union: [10,20) followed by
    the overlapping [5,12) becomes [10,12), losing minutes 5 to 9 and 12 to 19.
   */
  lemma UnsortedMergeLosesMinutes()
    ensures Collapse([TimeRange(10, 20), TimeRange(5, 12)]) == [TimeRange(10, 12)]
    ensures Covers([TimeRange(10, 20), TimeRange(5, 12)], 15) && !Covers(Collapse([TimeRange(10, 20), TimeRange(5, 12)]), 15)
  {
    var s := [TimeRange(10, 20), TimeRange(5, 12)];
    assert s[0].Overlaps(s[1]) && !s[0].Contains(s[1]);
    assert [Absorb(s[0], s[1])] + s[2..] == [TimeRange(10, 12)];
    assert s[0] in s && s[0].ContainsPoint(15);
  }

  /**
    On unsorted input a second pass can change the result: [50,60), [10,20),
    [15,70) collapses to [50,60), [10,70), which collapses further to [50,70).
   */
  lemma UnsortedCollapseNotIdempotent()
    ensures Collapse([TimeRange(50, 60), TimeRange(10, 20), TimeRange(15, 70)]) == [TimeRange(50, 60), TimeRange(10, 70)]
    ensures Collapse([TimeRange(50, 60), TimeRange(10, 70)]) == [TimeRange(50, 70)]
  {
    var s := [TimeRange(50, 60), TimeRange(10, 20), TimeRange(15, 70)];
    assert !s[0].Overlaps(s[1]) && s[1..] == [TimeRange(10, 20), TimeRange(15, 70)];
    var t := s[1..];
    assert t[0].Overlaps(t[1]) && !t[0].Contains(t[1]);
    assert [Absorb(t[0], t[1])] + t[2..] == [TimeRange(10, 70)];
    var u := [TimeRange(50, 60), TimeRange(10, 70)];
    assert u[0].Overlaps(u[1]) && !u[0].Contains(u[1]);
    assert [Absorb(u[0], u[1])] + u[2..] == [TimeRange(50, 70)];
  }

  /** Some range of s holds both minute b - 1 and minute b, so no range boundary of the collapsed list can fall at b. */
  predicate Straddles(s: seq<TimeRange>, b: int)
  {
    exists x :: x in s && x.start < b < x.end
  }

  lemma StraddlesCons(x: TimeRange, t: seq<TimeRange>, b: int)
    ensures Straddles([x] + t, b) <==> (x.start < b < x.end) || Straddles(t, b)
  {
    assert forall y :: y in [x] + t <==> y == x || y in t;
  }

  /** On start-sorted input the result straddles exactly the boundaries the input straddles. */
  lemma {:induction false} CollapseStraddles(s: seq<TimeRange>)
    requires SortedByStart(s)
    ensures forall b :: Straddles(Collapse(s), b) <==> Straddles(s, b)
    decreases |s|
  {
    if |s| > 1 {
      if s[0].Overlaps(s[1]) {
        var m := Absorb(s[0], s[1]);
        AbsorbSorted(s);
        CollapseStraddles([m] + s[2..]);
        forall b ensures Straddles([m] + s[2..], b) <==> Straddles(s, b) {
          assert s == [s[0], s[1]] + s[2..];
          assert forall x :: x in [m] + s[2..] <==> x == m || x in s[2..];
          assert forall x :: x in s <==> x == s[0] || x == s[1] || x in s[2..];
        }
      } else {
        CollapseStraddles(s[1..]);
        forall b ensures Straddles([s[0]] + Collapse(s[1..]), b) <==> Straddles(s, b) {
          assert s == [s[0]] + s[1..];
          StraddlesCons(s[0], Collapse(s[1..]), b);
          StraddlesCons(s[0], s[1..], b);
        }
      }
    }
  }

  /** The first range of an ordered list starts at its earliest covered minute. */
  lemma FirstStartLeast(l1: seq<TimeRange>, l2: seq<TimeRange>)
    requires |l1| > 0 && |l2| > 0 && Ordered(l2) && AllProper(l1) && AllProper(l2)
    requires forall p :: Covers(l1, p) <==> Covers(l2, p)
    ensures l2[0].start <= l1[0].start
  {
    assert l1[0] in l1 && l1[0].ContainsPoint(l1[0].start);
    assert Covers(l1, l1[0].start);
    var x :| x in l2 && x.ContainsPoint(l1[0].start);
    var k :| 0 <= k < |l2| && l2[k] == x;
    assert l2[0] in l2;
  }

  /** With the same start, the first range of an ordered list ends at the first boundary it does not straddle. */
  lemma FirstEndGreatest(l1: seq<TimeRange>, l2: seq<TimeRange>)
    requires |l1| > 0 && |l2| > 0 && Ordered(l1) && AllProper(l1) && l1[0].start == l2[0].start
    requires forall b :: Straddles(l1, b) <==> Straddles(l2, b)
    ensures l2[0].end <= l1[0].end
  {
    assert !Straddles(l1, l1[0].end) by {
      forall x | x in l1 ensures !(x.start < l1[0].end < x.end) {
        var k :| 0 <= k < |l1| && l1[k] == x;
      }
    }
    assert l1[0] in l1 && l2[0] in l2;
    assert !Straddles(l2, l1[0].end);
  }

  /** The tail of an ordered list covers and straddles what the list does from the end of its first range on. */
  lemma OrderedTail(l: seq<TimeRange>)
    requires |l| > 0 && Ordered(l)
    ensures Ordered(l[1..])
    ensures forall p :: Covers(l[1..], p) <==> Covers(l, p) && l[0].end <= p
    ensures forall b :: Straddles(l[1..], b) <==> Straddles(l, b) && l[0].end <= b
  {
    assert forall x :: x in l[1..] ==> l[0].end <= x.start by {
      forall x | x in l[1..] ensures l[0].end <= x.start {
        var k :| 0 <= k < |l[1..]| && l[1..][k] == x;
        assert x == l[k + 1];
      }
    }
    assert forall x :: x in l ==> x == l[0] || x in l[1..] by {
      assert l == [l[0]] + l[1..];
    }
  }

  /**
    Ordered lists of ranges of at least a minute that cover the same minutes
    and straddle the same boundaries are equal.
   */
  lemma {:induction false} OrderedCanonical(l1: seq<TimeRange>, l2: seq<TimeRange>)
    requires Ordered(l1) && Ordered(l2) && AllProper(l1) && AllProper(l2)
    requires forall p :: Covers(l1, p) <==> Covers(l2, p)
    requires forall b :: Straddles(l1, b) <==> Straddles(l2, b)
    ensures l1 == l2
    decreases |l1|
  {
    if l1 != [] {
      assert l1[0] in l1 && l1[0].ContainsPoint(l1[0].start);
      assert Covers(l2, l1[0].start);
    }
    if l2 != [] {
      assert l2[0] in l2 && l2[0].ContainsPoint(l2[0].start);
      assert Covers(l1, l2[0].start);
    }
    if l1 != [] {
      assert l1[0] == l2[0] by {
        FirstStartLeast(l1, l2);
        FirstStartLeast(l2, l1);
        FirstEndGreatest(l1, l2);
        FirstEndGreatest(l2, l1);
      }
      TailsAgree(l1, l2);
      OrderedCanonical(l1[1..], l2[1..]);
      assert l1 == [l1[0]] + l1[1..] && l2 == [l2[0]] + l2[1..];
    }
  }

  /** Ordered lists with the same first range that agree on minutes and boundaries agree on their tails too. */
  lemma TailsAgree(l1: seq<TimeRange>, l2: seq<TimeRange>)
    requires |l1| > 0 && |l2| > 0 && l1[0] == l2[0]
    requires Ordered(l1) && Ordered(l2) && AllProper(l1) && AllProper(l2)
    requires forall p :: Covers(l1, p) <==> Covers(l2, p)
    requires forall b :: Straddles(l1, b) <==> Straddles(l2, b)
    ensures Ordered(l1[1..]) && Ordered(l2[1..]) && AllProper(l1[1..]) && AllProper(l2[1..])
    ensures forall p :: Covers(l1[1..], p) <==> Covers(l2[1..], p)
    ensures forall b :: Straddles(l1[1..], b) <==> Straddles(l2[1..], b)
  {
    OrderedTail(l1);
    OrderedTail(l2);
    assert forall x :: x in l1[1..] ==> x in l1;
    assert forall x :: x in l2[1..] ==> x in l2;
  }

  /**
    Sorting and collapsing depends only on which ranges are busy: neither the
    order in which they are listed nor repetitions change the normalized list.
   */
  lemma SameRangesSameNormal(s: seq<TimeRange>, t: seq<TimeRange>)
    requires AllProper(s)
    requires forall x :: x in s <==> x in t
    ensures Collapse(SortByStart(s)) == Collapse(SortByStart(t))
  {
    assert AllProper(t);
    SortByStartSameRanges(s);
    SortByStartSameRanges(t);
    var u := SortByStart(s);
    var v := SortByStart(t);
    CollapseOrdered(u);
    CollapseOrdered(v);
    CollapseCovers(u);
    CollapseCovers(v);
    CollapseStraddles(u);
    CollapseStraddles(v);
    assert forall p :: Covers(s, p) <==> Covers(t, p);
    assert forall b :: Straddles(u, b) <==> Straddles(v, b) by {
      assert forall x :: x in u <==> x in v;
    }
    OrderedCanonical(Collapse(u), Collapse(v));
  }

  /** Normalizing a busy list joined with itself gives what normalizing it once gives. */
  lemma NormalizeSelfUnion(s: seq<TimeRange>)
    requires AllProper(s)
    ensures Collapse(SortByStart(s + s)) == Collapse(SortByStart(s))
  {
    SameRangesSameNormal(s, s + s);
  }

  /**
    Zero-length ranges overlap nothing, so they are never merged: [500,700)
    with [600,600) inside it stays as it is and is not Ordered.
   */
  lemma ZeroLengthRangesUnmerged()
    ensures Collapse([TimeRange(500, 700), TimeRange(600, 600)]) == [TimeRange(500, 700), TimeRange(600, 600)]
    ensures !Ordered([TimeRange(500, 700), TimeRange(600, 600)])
  {
    assert !TimeRange(500, 700).Overlaps(TimeRange(600, 600));
  }

  /** A zero-length range listed twice normalizes to two copies, listed once to one. */
  lemma ZeroLengthDuplicateSurvives(z: TimeRange)
    requires z.start == z.end
    ensures Collapse(SortByStart([z] + [z])) == [z, z]
    ensures Collapse(SortByStart([z])) == [z]
  {
    assert SortByStart([z]) == [z];
    assert SortByStart([z] + [z]) == [z, z] by {
      var r := SortByStart([z] + [z]);
      assert multiset(r) == multiset{z, z} && |r| == 2;
      assert r[0] in multiset(r) && r[1] in multiset(r);
    }
    assert !z.Overlaps(z);
  }
}
