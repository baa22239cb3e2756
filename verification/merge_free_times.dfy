/**
  Intersecting the mandatory and the optional free slots (mergeFreeTimes).

  The walk keeps one index into each list. When the current optional slot
  overlaps the current mandatory slot it emits their intersection (if long
  enough) and moves the optional index on; otherwise it moves the mandatory
  index on. This is not the usual interval intersection: a later optional slot
  that overlaps an earlier mandatory slot can be missed.
 */
module Reconcile {
  import opened TimeRanges
  import opened FreeTimes

  /** [later start, earlier end) of two ranges, as mergeFreeTimes computes it. */
  function Intersection(optionalTime: TimeRange, freeTime: TimeRange): TimeRange
  {
    var start := if optionalTime.start > freeTime.start then optionalTime.start else freeTime.start;
    var end := if optionalTime.end < freeTime.end then optionalTime.end else freeTime.end;
    FromStartEnd(start, end, false)
  }

  /** What the walk emits from index pair (i, j) on. */
  function Walk(free: seq<TimeRange>, optional: seq<TimeRange>, i: nat, j: nat, meetingDuration: int): seq<TimeRange>
    requires i <= |free| && j <= |optional|
    decreases |free| - i + |optional| - j
  {
    if i == |free| || j == |optional| then []
    else if optional[j].Overlaps(free[i]) then
      var range := Intersection(optional[j], free[i]);
      (if range.Duration() >= meetingDuration then [range] else []) + Walk(free, optional, i, j + 1, meetingDuration)
    else Walk(free, optional, i + 1, j, meetingDuration)
  }

  /** The slots that suit both the mandatory and the optional attendees, as the walk finds them. */
  function Merged(free: seq<TimeRange>, optional: seq<TimeRange>, meetingDuration: int): seq<TimeRange>
  {
    Walk(free, optional, 0, 0, meetingDuration)
  }

  /**
    The two-index walk. Each step moves one index on, so freeIndex + optionalIndex
    grows and the loop ends.
   */
  method MergeFreeTimes(freeTimes: seq<TimeRange>, optionalFreeTimes: seq<TimeRange>, meetingDuration: int)
    returns (mergedFreeTimes: seq<TimeRange>)
    ensures mergedFreeTimes == Merged(freeTimes, optionalFreeTimes, meetingDuration)
  {
    mergedFreeTimes := [];
    var freeIndex := 0;
    var optionalIndex := 0;
    var sizeFree := |freeTimes|;
    var sizeOptional := |optionalFreeTimes|;

    while freeIndex < sizeFree && optionalIndex < sizeOptional
      invariant freeIndex <= sizeFree && optionalIndex <= sizeOptional
      invariant mergedFreeTimes + Walk(freeTimes, optionalFreeTimes, freeIndex, optionalIndex, meetingDuration)
        == Merged(freeTimes, optionalFreeTimes, meetingDuration)
      decreases sizeFree + sizeOptional - (freeIndex + optionalIndex)
    {
      var optionalTime := optionalFreeTimes[optionalIndex];
      var freeTime := freeTimes[freeIndex];
      if optionalTime.Overlaps(freeTime) {
        var start := if optionalTime.start > freeTime.start then optionalTime.start else freeTime.start;
        var end := if optionalTime.end < freeTime.end then optionalTime.end else freeTime.end;
        var range := FromStartEnd(start, end, false);
        ghost var before := mergedFreeTimes;
        mergedFreeTimes := AddTimeRange(range, mergedFreeTimes, meetingDuration);
        optionalIndex := optionalIndex + 1;
        ghost var emitted := if range.Duration() >= meetingDuration then [range] else [];
        assert mergedFreeTimes == before + emitted;
        assert before + emitted + Walk(freeTimes, optionalFreeTimes, freeIndex, optionalIndex, meetingDuration)
          == before + (emitted + Walk(freeTimes, optionalFreeTimes, freeIndex, optionalIndex, meetingDuration));
      } else {
        freeIndex := freeIndex + 1;
      }
    }
  }

  /** For overlapping ranges the intersection holds exactly the minutes common to both, and lies inside both. */
  lemma IntersectionCommon(optionalTime: TimeRange, freeTime: TimeRange)
    requires optionalTime.Overlaps(freeTime)
    ensures var r := Intersection(optionalTime, freeTime);
      r.Duration() > 0 && optionalTime.Contains(r) && freeTime.Contains(r) &&
      forall p :: r.ContainsPoint(p) <==> optionalTime.ContainsPoint(p) && freeTime.ContainsPoint(p)
  {
  }

  /**
    Every emitted slot is the intersection of one overlapping pair of a
    mandatory slot and an optional slot at or after the current indices, lasts
    at least meetingDuration, and there is at most one per optional slot.
   */
  lemma {:induction false} WalkElements(free: seq<TimeRange>, optional: seq<TimeRange>, i: nat, j: nat, meetingDuration: int)
    requires i <= |free| && j <= |optional|
    ensures |Walk(free, optional, i, j, meetingDuration)| <= |optional| - j
    ensures forall x :: x in Walk(free, optional, i, j, meetingDuration) ==>
      x.Duration() >= meetingDuration &&
      exists a, b :: i <= a < |free| && j <= b < |optional| &&
        optional[b].Overlaps(free[a]) && x == Intersection(optional[b], free[a])
    decreases |free| - i + |optional| - j
  {
    if i < |free| && j < |optional| {
      if optional[j].Overlaps(free[i]) {
        WalkElements(free, optional, i, j + 1, meetingDuration);
      } else {
        WalkElements(free, optional, i + 1, j, meetingDuration);
      }
    }
  }

  /** x is cut from optional slot b and some overlapping mandatory slot at index i or later. */
  predicate CutFrom(free: seq<TimeRange>, optional: seq<TimeRange>, i: nat, x: TimeRange, b: nat)
  {
    b < |optional| &&
    exists a :: i <= a < |free| && optional[b].Overlaps(free[a]) && x == Intersection(optional[b], free[a])
  }

  /**
    Each emitted slot comes from its own optional slot: idx[k] is the optional
    slot the k-th emitted slot was cut from, and the indices strictly increase,
    so no optional slot yields two emitted slots.
   */
  lemma {:induction false} WalkSources(free: seq<TimeRange>, optional: seq<TimeRange>, i: nat, j: nat, meetingDuration: int)
    returns (idx: seq<nat>)
    requires i <= |free| && j <= |optional|
    ensures |idx| == |Walk(free, optional, i, j, meetingDuration)|
    ensures forall k :: 0 <= k < |idx| ==> j <= idx[k]
    ensures forall k, l :: 0 <= k < l < |idx| ==> idx[k] < idx[l]
    ensures forall k :: 0 <= k < |idx| ==> CutFrom(free, optional, i, Walk(free, optional, i, j, meetingDuration)[k], idx[k])
    decreases |free| - i + |optional| - j
  {
    if i == |free| || j == |optional| {
      idx := [];
    } else if optional[j].Overlaps(free[i]) {
      var rest := WalkSources(free, optional, i, j + 1, meetingDuration);
      idx := SourcesEmit(free, optional, i, j, meetingDuration, rest);
    } else {
      var rest := WalkSources(free, optional, i + 1, j, meetingDuration);
      idx := rest;
      forall k | 0 <= k < |idx|
        ensures CutFrom(free, optional, i, Walk(free, optional, i, j, meetingDuration)[k], idx[k])
      {
        assert CutFrom(free, optional, i + 1, Walk(free, optional, i + 1, j, meetingDuration)[k], idx[k]);
      }
    }
  }

  /** The step of WalkSources at an overlapping pair (i, j). */
  lemma SourcesEmit(free: seq<TimeRange>, optional: seq<TimeRange>, i: nat, j: nat, meetingDuration: int, rest: seq<nat>)
    returns (idx: seq<nat>)
    requires i < |free| && j < |optional| && optional[j].Overlaps(free[i])
    requires |rest| == |Walk(free, optional, i, j + 1, meetingDuration)|
    requires forall k :: 0 <= k < |rest| ==> j + 1 <= rest[k]
    requires forall k, l :: 0 <= k < l < |rest| ==> rest[k] < rest[l]
    requires forall k :: 0 <= k < |rest| ==> CutFrom(free, optional, i, Walk(free, optional, i, j + 1, meetingDuration)[k], rest[k])
    ensures |idx| == |Walk(free, optional, i, j, meetingDuration)|
    ensures forall k :: 0 <= k < |idx| ==> j <= idx[k]
    ensures forall k, l :: 0 <= k < l < |idx| ==> idx[k] < idx[l]
    ensures forall k :: 0 <= k < |idx| ==> CutFrom(free, optional, i, Walk(free, optional, i, j, meetingDuration)[k], idx[k])
  {
    var range := Intersection(optional[j], free[i]);
    var tail := Walk(free, optional, i, j + 1, meetingDuration);
    var w := Walk(free, optional, i, j, meetingDuration);
    if range.Duration() >= meetingDuration {
      idx := [j] + rest;
      assert w == [range] + tail;
      assert CutFrom(free, optional, i, w[0], idx[0]);
      forall k | 1 <= k < |idx|
        ensures CutFrom(free, optional, i, w[k], idx[k])
      {
        assert idx[k] == rest[k - 1] && w[k] == tail[k - 1];
      }
    } else {
      idx := rest;
      assert w == tail;
    }
  }

  /** Every emitted slot lies inside a mandatory slot and inside an optional slot. */
  lemma WalkWithin(free: seq<TimeRange>, optional: seq<TimeRange>, meetingDuration: int)
    ensures forall x :: x in Merged(free, optional, meetingDuration) ==>
      x.Duration() >= meetingDuration &&
      (exists a :: 0 <= a < |free| && free[a].Contains(x)) &&
      (exists b :: 0 <= b < |optional| && optional[b].Contains(x))
    ensures |Merged(free, optional, meetingDuration)| <= |optional|
  {
    WalkElements(free, optional, 0, 0, meetingDuration);
    forall x | x in Merged(free, optional, meetingDuration)
      ensures (exists a :: 0 <= a < |free| && free[a].Contains(x)) &&
        (exists b :: 0 <= b < |optional| && optional[b].Contains(x))
    {
      var a, b :| 0 <= a < |free| && 0 <= b < |optional| &&
        optional[b].Overlaps(free[a]) && x == Intersection(optional[b], free[a]);
      IntersectionCommon(optional[b], free[a]);
    }
  }

  /** When the optional slots are sorted and disjoint, so is the output. */
  lemma {:induction false} WalkOrdered(free: seq<TimeRange>, optional: seq<TimeRange>, i: nat, j: nat, meetingDuration: int)
    requires i <= |free| && j <= |optional|
    requires Ordered(optional)
    ensures Ordered(Walk(free, optional, i, j, meetingDuration))
    decreases |free| - i + |optional| - j
  {
    if i < |free| && j < |optional| {
      if optional[j].Overlaps(free[i]) {
        var range := Intersection(optional[j], free[i]);
        var rest := Walk(free, optional, i, j + 1, meetingDuration);
        WalkOrdered(free, optional, i, j + 1, meetingDuration);
        if range.Duration() >= meetingDuration {
          WalkElements(free, optional, i, j + 1, meetingDuration);
          forall y | y in rest
            ensures range.end <= y.start
          {
            var a, b :| i <= a < |free| && j + 1 <= b < |optional| &&
              optional[b].Overlaps(free[a]) && y == Intersection(optional[b], free[a]);
            assert optional[j].end <= optional[b].start;
          }
          OrderedCons(range, rest);
        }
      } else {
        WalkOrdered(free, optional, i + 1, j, meetingDuration);
      }
    }
  }

  /**
    The walk can miss a common slot: with mandatory slots [[200,300)] and
    optional slots [[0,50), [250,280)] the first pair does not overlap, the
    mandatory index moves past its only slot, and [250,280) is never found.
   */
  lemma WalkMissesLaterOverlap()
    ensures var free := [TimeRange(200, 300)];
      var optional := [TimeRange(0, 50), TimeRange(250, 280)];
      optional[1].Overlaps(free[0]) && Merged(free, optional, 30) == []
  {
    var free := [TimeRange(200, 300)];
    var optional := [TimeRange(0, 50), TimeRange(250, 280)];
    assert Walk(free, optional, 1, 0, 30) == [];
    assert Walk(free, optional, 0, 0, 30) == Walk(free, optional, 1, 0, 30);
  }

  /**
    An optional slot meets at most one mandatory slot: [550,750) overlaps both
    [0,600) and [700,1440), but after emitting [550,600) the walk moves past
    the optional slot and [700,750) is not found.
   */
  lemma WalkOneSlotPerOptional()
    ensures var free := [TimeRange(0, 600), TimeRange(700, 1440)];
      var optional := [TimeRange(550, 750)];
      optional[0].Overlaps(free[1]) && Merged(free, optional, 30) == [TimeRange(550, 600)]
    ensures Merged([TimeRange(0, 600), TimeRange(700, 1440)], [TimeRange(550, 750)], 60) == []
  {
    var free := [TimeRange(0, 600), TimeRange(700, 1440)];
    var optional := [TimeRange(550, 750)];
    assert Walk(free, optional, 0, 1, 30) == [];
    assert Walk(free, optional, 0, 1, 60) == [];
  }
}
