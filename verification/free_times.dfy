/**
  Turning a busy list into the free gaps of the day (findFreeTimes), keeping
  only the gaps long enough for the meeting (addTimeRange).
 */
module FreeTimes {
  import opened TimeRanges

  /** Appends the range when it lasts at least `duration` minutes; a shorter range is skipped silently. */
  method AddTimeRange(range: TimeRange, times: seq<TimeRange>, duration: int) returns (times': seq<TimeRange>)
    ensures range.Duration() >= duration ==> times' == times + [range]
    ensures range.Duration() < duration ==> times' == times
  {
    times' := times;
    if range.Duration() >= duration {
      times' := times' + [range];
    }
  }

  /** The ranges of s that last at least `duration` minutes, in order. */
  function Keep(s: seq<TimeRange>, duration: int): seq<TimeRange>
  {
    if s == [] then []
    else
      var last := s[|s| - 1];
      Keep(s[..|s| - 1], duration) + (if last.Duration() >= duration then [last] else [])
  }

  /** The gap between each busy range and the next one. */
  function InnerGaps(busy: seq<TimeRange>): seq<TimeRange>
  {
    if |busy| < 2 then []
    else [FromStartEnd(busy[0].end, busy[1].start, false)] + InnerGaps(busy[1..])
  }

  /** The gap before the first busy range, unless that range holds START_OF_DAY. */
  function LeadingGap(busy: seq<TimeRange>): seq<TimeRange>
    requires |busy| > 0
  {
    if busy[0].ContainsPoint(START_OF_DAY) then []
    else [FromStartEnd(START_OF_DAY, busy[0].start, false)]
  }

  /** The gap after the last busy range up to END_OF_DAY inclusive, unless that range holds END_OF_DAY. */
  function TrailingGap(busy: seq<TimeRange>): seq<TimeRange>
    requires |busy| > 0
  {
    var last := busy[|busy| - 1];
    if last.ContainsPoint(END_OF_DAY) then []
    else [FromStartEnd(last.end, END_OF_DAY, true)]
  }

  /** Every candidate gap findFreeTimes looks at, in the order it looks at them. */
  function Gaps(busy: seq<TimeRange>): seq<TimeRange>
    requires |busy| > 0
  {
    LeadingGap(busy) + InnerGaps(busy) + TrailingGap(busy)
  }

  /** The free slots findFreeTimes appends: the candidate gaps long enough for the meeting. */
  function FreeSlots(busy: seq<TimeRange>, meetingDuration: int): seq<TimeRange>
    requires |busy| > 0
  {
    Keep(Gaps(busy), meetingDuration)
  }

  /**
    Appends to freeTimes the gaps of the day around busyTimes that last at least
    meetingDuration minutes. The source reads busyTimes[0] unguarded, so the
    busy list must not be empty.
   */
  method FindFreeTimes(busyTimes: seq<TimeRange>, freeTimes: seq<TimeRange>, meetingDuration: int)
    returns (freeTimes': seq<TimeRange>)
    requires |busyTimes| > 0
    ensures freeTimes' == freeTimes + FreeSlots(busyTimes, meetingDuration)
  {
    var numBusyTimes := |busyTimes|;
    ghost var inner := InnerGaps(busyTimes);
    ghost var added: seq<TimeRange> := [];
    freeTimes' := freeTimes;
    if !busyTimes[0].ContainsPoint(START_OF_DAY) {
      var first := FromStartEnd(START_OF_DAY, busyTimes[0].start, false);
      freeTimes' := AddTimeRange(first, freeTimes', meetingDuration);
      added := if first.Duration() >= meetingDuration then [first] else [];
    }
    assert added == Keep(LeadingGap(busyTimes), meetingDuration) by {
      KeepOne(LeadingGap(busyTimes), meetingDuration);
    }
    ghost var lead := added;

    assert |inner| == numBusyTimes - 1 by {
      InnerGapsAt(busyTimes);
    }
    assert Keep(inner[..0], meetingDuration) == [] by {
      assert inner[..0] == [];
    }
    for i := 0 to numBusyTimes - 1
      invariant freeTimes' == freeTimes + added
      invariant added == lead + Keep(inner[..i], meetingDuration)
    {
      var range := FromStartEnd(busyTimes[i].end, busyTimes[i + 1].start, false);
      freeTimes' := AddTimeRange(range, freeTimes', meetingDuration);
      ghost var step := if range.Duration() >= meetingDuration then [range] else [];
      assert freeTimes' == freeTimes + (added + step) by {
        AppendAssoc(freeTimes, added, step);
      }
      assert added + step == lead + Keep(inner[..i + 1], meetingDuration) by {
        assert range == inner[i] by {
          InnerGapsAt(busyTimes);
        }
        KeepSnoc(inner, i, meetingDuration);
        AppendAssoc(lead, Keep(inner[..i], meetingDuration), step);
      }
      added := added + step;
    }
    assert inner[..numBusyTimes - 1] == inner;
    ghost var middle := added;

    if !busyTimes[numBusyTimes - 1].ContainsPoint(END_OF_DAY) {
      var last := FromStartEnd(busyTimes[numBusyTimes - 1].end, END_OF_DAY, true);
      freeTimes' := AddTimeRange(last, freeTimes', meetingDuration);
      if last.Duration() >= meetingDuration {
        added := added + [last];
        AppendAssoc(freeTimes, middle, [last]);
      }
    }
    assert added == middle + Keep(TrailingGap(busyTimes), meetingDuration) by {
      KeepOne(TrailingGap(busyTimes), meetingDuration);
    }
    assert added == FreeSlots(busyTimes, meetingDuration) by {
      FreeSlotsSplit(busyTimes, meetingDuration);
    }
  }

  /** The free slots are the kept leading gap, then the kept inner gaps, then the kept trailing gap. */
  lemma FreeSlotsSplit(busy: seq<TimeRange>, duration: int)
    requires |busy| > 0
    ensures FreeSlots(busy, duration) ==
      Keep(LeadingGap(busy), duration) + Keep(InnerGaps(busy), duration) + Keep(TrailingGap(busy), duration)
  {
    KeepConcat(LeadingGap(busy), InnerGaps(busy), duration);
    KeepConcat(LeadingGap(busy) + InnerGaps(busy), TrailingGap(busy), duration);
  }

  lemma AppendAssoc(a: seq<TimeRange>, b: seq<TimeRange>, c: seq<TimeRange>)
    ensures (a + b) + c == a + (b + c)
  {
  }

  /** Extending the inspected prefix by one gap adds that gap when it is long enough. */
  lemma KeepSnoc(s: seq<TimeRange>, i: nat, duration: int)
    requires i < |s|
    ensures Keep(s[..i + 1], duration) == Keep(s[..i], duration) + (if s[i].Duration() >= duration then [s[i]] else [])
  {
    assert s[..i + 1][..i] == s[..i];
  }

  lemma KeepOne(s: seq<TimeRange>, duration: int)
    requires |s| <= 1
    ensures Keep(s, duration) == if s != [] && s[0].Duration() >= duration then s else []
  {
    if s != [] {
      assert s[..0] == [];
    }
  }

  /** Keeping distributes over concatenation, so the order of the input is kept. */
  lemma {:induction false} KeepConcat(a: seq<TimeRange>, b: seq<TimeRange>, duration: int)
    ensures Keep(a + b, duration) == Keep(a, duration) + Keep(b, duration)
    decreases |b|
  {
    if b == [] {
      assert a + b == a;
    } else {
      KeepConcat(a, b[..|b| - 1], duration);
      assert (a + b)[..|a + b| - 1] == a + b[..|b| - 1];
    }
  }

  /** A range is kept exactly when it is in the input and long enough; nothing is added. */
  lemma {:induction false} KeepMembers(s: seq<TimeRange>, duration: int)
    ensures forall x :: x in Keep(s, duration) <==> x in s && x.Duration() >= duration
    ensures |Keep(s, duration)| <= |s|
  {
    if s != [] {
      KeepMembers(s[..|s| - 1], duration);
      assert s == s[..|s| - 1] + [s[|s| - 1]];
    }
  }

  /** Dropping ranges keeps a sorted, disjoint list sorted and disjoint. */
  lemma {:induction false} KeepOrdered(s: seq<TimeRange>, duration: int)
    requires Ordered(s)
    ensures Ordered(Keep(s, duration))
  {
    if s != [] {
      var init := s[..|s| - 1];
      var last := s[|s| - 1];
      KeepOrdered(init, duration);
      KeepMembers(init, duration);
      forall y | y in Keep(init, duration)
        ensures y.end <= last.start
      {
        var k :| 0 <= k < |init| && init[k] == y;
        assert s[k] == y;
      }
      OrderedSnoc(Keep(init, duration), last);
    }
  }

  lemma {:induction false} InnerGapsAt(busy: seq<TimeRange>)
    requires |busy| > 0
    ensures |InnerGaps(busy)| == |busy| - 1
    ensures forall k :: 0 <= k < |busy| - 1 ==> InnerGaps(busy)[k] == FromStartEnd(busy[k].end, busy[k + 1].start, false)
  {
    if |busy| >= 2 {
      InnerGapsAt(busy[1..]);
      forall k | 0 < k < |busy| - 1
        ensures InnerGaps(busy)[k] == FromStartEnd(busy[k].end, busy[k + 1].start, false)
      {
        assert InnerGaps(busy)[k] == InnerGaps(busy[1..])[k - 1];
      }
    }
  }

  // ---------------------------------------------------------------------------
  // The gaps are exactly the free part of the day.
  // ---------------------------------------------------------------------------

  /** A normalised busy list: non-empty, sorted, pairwise disjoint event spans. */
  predicate Normal(busy: seq<TimeRange>)
  {
    |busy| > 0 && Ordered(busy) && AllProper(busy)
  }

  /** All gaps from minute lo on: before each busy range, and from the last one to the end of the day. */
  function GapsFrom(lo: int, busy: seq<TimeRange>): seq<TimeRange>
    decreases |busy|
  {
    if busy == [] then [TimeRange(lo, END_OF_DAY + 1)]
    else [TimeRange(lo, busy[0].start)] + GapsFrom(busy[0].end, busy[1..])
  }

  lemma {:induction false} GapsFromShape(lo: int, busy: seq<TimeRange>)
    requires |busy| > 0
    ensures GapsFrom(lo, busy) ==
      [TimeRange(lo, busy[0].start)] + InnerGaps(busy) + [TimeRange(busy[|busy| - 1].end, END_OF_DAY + 1)]
    decreases |busy|
  {
    if |busy| > 1 {
      GapsFromShape(busy[0].end, busy[1..]);
    }
  }

  lemma {:induction false} GapsFromComplement(lo: int, busy: seq<TimeRange>)
    requires Ordered(busy) && AllProper(busy)
    requires forall x :: x in busy ==> lo <= x.start
    ensures forall p :: Covers(GapsFrom(lo, busy), p) <==> lo <= p <= END_OF_DAY && !Covers(busy, p)
    ensures Ordered(GapsFrom(lo, busy))
    ensures forall x :: x in GapsFrom(lo, busy) ==> lo <= x.start
    decreases |busy|
  {
    if busy != [] {
      var b := busy[0];
      var rest := busy[1..];
      assert b in busy;
      assert busy == [b] + rest;
      assert forall x :: x in rest ==> b.end <= x.start by {
        forall x | x in rest ensures b.end <= x.start {
          var k :| 0 <= k < |rest| && rest[k] == x;
          assert busy[k + 1] == x;
        }
      }
      GapsFromComplement(b.end, rest);
      var g := TimeRange(lo, b.start);
      forall p
        ensures Covers(GapsFrom(lo, busy), p) <==> lo <= p <= END_OF_DAY && !Covers(busy, p)
      {
        CoversConcat([g], GapsFrom(b.end, rest), p);
        CoversConcat([b], rest, p);
        assert Covers([g], p) <==> g.ContainsPoint(p);
        assert Covers([b], p) <==> b.ContainsPoint(p);
        if g.ContainsPoint(p) {
          assert !Covers(rest, p);
        }
      }
      OrderedCons(g, GapsFrom(b.end, rest));
    } else {
      var g := TimeRange(lo, END_OF_DAY + 1);
      forall p
        ensures Covers(GapsFrom(lo, busy), p) <==> lo <= p <= END_OF_DAY && !Covers(busy, p)
      {
        assert Covers([g], p) <==> g.ContainsPoint(p);
      }
    }
  }

  /** The candidate gaps are all the gaps from START_OF_DAY on, less the leading or trailing one when it is left out. */
  lemma GapsSlice(busy: seq<TimeRange>)
    requires |busy| > 0
    ensures var all := GapsFrom(START_OF_DAY, busy);
      |all| == |busy| + 1 &&
      Gaps(busy) == all[(if LeadingGap(busy) == [] then 1 else 0)..(if TrailingGap(busy) == [] then |all| - 1 else |all|)]
  {
    GapsFromShape(START_OF_DAY, busy);
    InnerGapsAt(busy);
  }

  /** A leading or trailing gap that findFreeTimes leaves out holds no minute. */
  lemma OmittedGapsEmpty(busy: seq<TimeRange>)
    requires Normal(busy)
    ensures var all := GapsFrom(START_OF_DAY, busy);
      forall p :: Covers(Gaps(busy), p) <==> Covers(all, p)
  {
    var n := |busy|;
    assert busy[0] in busy && busy[n - 1] in busy;
    GapsFromShape(START_OF_DAY, busy);
    var inner := InnerGaps(busy);
    var lead := TimeRange(START_OF_DAY, busy[0].start);
    var trail := TimeRange(busy[n - 1].end, END_OF_DAY + 1);
    forall p
      ensures Covers(Gaps(busy), p) <==> Covers(GapsFrom(START_OF_DAY, busy), p)
    {
      CoversConcat([lead], inner, p);
      CoversConcat([lead] + inner, [trail], p);
      CoversConcat(LeadingGap(busy), inner, p);
      CoversConcat(LeadingGap(busy) + inner, TrailingGap(busy), p);
      assert Covers([lead], p) <==> lead.ContainsPoint(p);
      assert Covers([trail], p) <==> trail.ContainsPoint(p);
    }
  }

  /**
    For a normalised busy list the candidate gaps are sorted and pairwise
    disjoint, at most one more than the busy ranges, and cover exactly the
    minutes of the day that no busy range covers.
   */
  lemma GapsComplement(busy: seq<TimeRange>)
    requires Normal(busy)
    ensures |Gaps(busy)| <= |busy| + 1
    ensures Ordered(Gaps(busy))
    ensures forall p :: Covers(Gaps(busy), p) <==> START_OF_DAY <= p <= END_OF_DAY && !Covers(busy, p)
  {
    assert forall x :: x in busy ==> START_OF_DAY <= x.start;
    GapsFromComplement(START_OF_DAY, busy);
    GapsSlice(busy);
    OmittedGapsEmpty(busy);
  }

  /** The leading gap is a candidate exactly when the first busy range does not hold START_OF_DAY. */
  lemma LeadingGapIff(busy: seq<TimeRange>)
    requires Normal(busy)
    ensures FromStartEnd(START_OF_DAY, busy[0].start, false) in Gaps(busy) <==> !busy[0].ContainsPoint(START_OF_DAY)
  {
    var lead := FromStartEnd(START_OF_DAY, busy[0].start, false);
    InnerGapsAt(busy);
    assert busy[0] in busy;
    if busy[0].ContainsPoint(START_OF_DAY) {
      forall x | x in InnerGaps(busy) + TrailingGap(busy)
        ensures x.start > START_OF_DAY
      {
        if x in InnerGaps(busy) {
          var k :| 0 <= k < |InnerGaps(busy)| && InnerGaps(busy)[k] == x;
          assert k < |busy| - 1;
          assert x == FromStartEnd(busy[k].end, busy[k + 1].start, false);
          assert busy[k] in busy;
        } else {
          assert busy[|busy| - 1] in busy;
          assert x == TrailingGap(busy)[0];
          assert x.start == busy[|busy| - 1].end;
        }
      }
      assert Gaps(busy) == InnerGaps(busy) + TrailingGap(busy);
    }
  }

  /** The trailing gap is a candidate exactly when the last busy range does not hold END_OF_DAY. */
  lemma TrailingGapIff(busy: seq<TimeRange>)
    requires Normal(busy)
    ensures FromStartEnd(busy[|busy| - 1].end, END_OF_DAY, true) in Gaps(busy) <==> !busy[|busy| - 1].ContainsPoint(END_OF_DAY)
  {
    var n := |busy|;
    InnerGapsAt(busy);
    assert busy[n - 1] in busy;
    if busy[n - 1].ContainsPoint(END_OF_DAY) {
      forall x | x in LeadingGap(busy) + InnerGaps(busy)
        ensures x.start < END_OF_DAY + 1
      {
        if x in InnerGaps(busy) {
          var k :| 0 <= k < |InnerGaps(busy)| && InnerGaps(busy)[k] == x;
          assert busy[k + 1] in busy;
          assert busy[k].end <= busy[k + 1].start;
        }
      }
      assert Gaps(busy) == LeadingGap(busy) + InnerGaps(busy);
    }
  }

  /**
    What findFreeTimes promises for a normalised busy list: at most one slot
    more than there are busy ranges, sorted and pairwise disjoint, every slot at
    least meetingDuration long and free of every busy range inside the day, and
    no free stretch of the day that is long enough is missed.
   */
  lemma FreeSlotsSound(busy: seq<TimeRange>, meetingDuration: int)
    requires Normal(busy)
    ensures |FreeSlots(busy, meetingDuration)| <= |busy| + 1
    ensures Ordered(FreeSlots(busy, meetingDuration))
    ensures forall x :: x in FreeSlots(busy, meetingDuration) ==>
      x.Duration() >= meetingDuration && IsFreeSlot(x, busy)
    ensures forall x :: x in Gaps(busy) && x.Duration() >= meetingDuration ==> x in FreeSlots(busy, meetingDuration)
  {
    GapsComplement(busy);
    KeepMembers(Gaps(busy), meetingDuration);
    KeepOrdered(Gaps(busy), meetingDuration);
    forall x | x in FreeSlots(busy, meetingDuration)
      ensures IsFreeSlot(x, busy)
    {
      forall p | x.ContainsPoint(p)
        ensures START_OF_DAY <= p <= END_OF_DAY && !Covers(busy, p)
      {
        assert Covers(Gaps(busy), p);
      }
    }
  }

  /** Every gap ends where a busy range starts, or at the end of the day. */
  lemma {:induction false} GapsFromEnds(lo: int, busy: seq<TimeRange>)
    ensures forall g :: g in GapsFrom(lo, busy) ==>
      g.end == END_OF_DAY + 1 || exists b :: b in busy && b.start == g.end
    decreases |busy|
  {
    if busy != [] {
      GapsFromEnds(busy[0].end, busy[1..]);
      assert busy[0] in busy;
      assert forall b :: b in busy[1..] ==> b in busy;
    }
  }

  /** A free window of at least one minute lies inside one candidate gap. */
  lemma WindowInGap(busy: seq<TimeRange>, y: TimeRange) returns (g: TimeRange)
    requires Normal(busy)
    requires y.start < y.end && IsFreeSlot(y, busy)
    ensures g in Gaps(busy) && g.Contains(y)
  {
    assert y.ContainsPoint(y.start);
    assert Covers(Gaps(busy), y.start) by {
      GapsComplement(busy);
    }
    g :| g in Gaps(busy) && g.ContainsPoint(y.start);
    assert g in GapsFrom(START_OF_DAY, busy) by {
      GapsSlice(busy);
    }
    if g.end < y.end {
      assert y.ContainsPoint(g.end);
      GapsFromEnds(START_OF_DAY, busy);
      assert false;
    }
  }

  /**
    No window is missed: for a normalised busy list, every window of at least
    one minute and at least meetingDuration long that is free lies inside one of
    the free slots.
   */
  lemma FreeSlotsComplete(busy: seq<TimeRange>, meetingDuration: int)
    requires Normal(busy)
    ensures forall y: TimeRange :: y.start < y.end && y.Duration() >= meetingDuration && IsFreeSlot(y, busy) ==>
      exists x :: x in FreeSlots(busy, meetingDuration) && x.Contains(y)
  {
    KeepMembers(Gaps(busy), meetingDuration);
    forall y: TimeRange | y.start < y.end && y.Duration() >= meetingDuration && IsFreeSlot(y, busy)
      ensures exists x :: x in FreeSlots(busy, meetingDuration) && x.Contains(y)
    {
      var g := WindowInGap(busy, y);
      assert g in FreeSlots(busy, meetingDuration);
    }
  }
}
