/**
  The meeting-slot query (FindMeetingQuery.query).

  The query collects the busy ranges of the mandatory and of the optional
  attendees, then picks one of four cases:
    A. nobody is busy: the whole day, if the meeting fits in a day;
    B. only optional attendees are busy: the free slots around their ranges;
    C. only mandatory attendees are busy: the free slots around their ranges,
       collapsed WITHOUT sorting first;
    D. both are busy: the walk over both free-slot lists, or the mandatory
       free slots when the walk finds nothing.
 */
module FindMeetingQuery {
  import opened TimeRanges
  import opened Meetings
  import opened BusyTimes
  import opened Normalize
  import opened FreeTimes
  import opened Reconcile

  /** Sort by start, collapse overlaps, take the long-enough gaps. */
  function Pipeline(ranges: seq<TimeRange>, meetingDuration: int): seq<TimeRange>
    requires |ranges| > 0
  {
    FreeSlots(Collapse(SortByStart(ranges)), meetingDuration)
  }

  /** The answer of the query, case by case. */
  function QueryResult(events: seq<Event>, request: MeetingRequest): seq<TimeRange>
  {
    var busy := BusyRanges(events, request.attendees);
    var optionalBusy := BusyRanges(events, request.optionalAttendees);
    var d := request.duration;
    if busy == [] && optionalBusy == [] then
      (if WholeDay().Duration() >= d then [WholeDay()] else [])
    else if busy == [] then
      Pipeline(optionalBusy, d)
    else if optionalBusy != [] then
      var merged := Merged(Pipeline(busy, d), Pipeline(optionalBusy, d), d);
      if merged != [] then merged else Pipeline(busy, d)
    else
      FreeSlots(Collapse(busy), d)
  }

  /** Both groups have events and the walk over their free slots found nothing, so only the mandatory slots are returned. */
  predicate FallsBack(events: seq<Event>, request: MeetingRequest)
  {
    var busy := BusyRanges(events, request.attendees);
    var optionalBusy := BusyRanges(events, request.optionalAttendees);
    busy != [] && optionalBusy != [] &&
    Merged(Pipeline(busy, request.duration), Pipeline(optionalBusy, request.duration), request.duration) == []
  }

  /** A meeting in x fits in the day and overlaps no event of any of the attendees. */
  ghost predicate FreeFor(x: TimeRange, events: seq<Event>, attendees: set<string>)
  {
    (forall p :: x.ContainsPoint(p) ==> START_OF_DAY <= p <= END_OF_DAY) &&
    (forall e :: e in events && Involves(e, attendees) ==> !x.Overlaps(e.when))
  }

  /** Every window of at least one minute and meetingDuration long that suits the attendees lies inside a slot of result. */
  ghost predicate CoversWindows(result: seq<TimeRange>, events: seq<Event>, attendees: set<string>, meetingDuration: int)
  {
    forall y: TimeRange :: y.start < y.end && y.Duration() >= meetingDuration && FreeFor(y, events, attendees) ==>
      exists x :: x in result && x.Contains(y)
  }

  /**
    The query: four lists start empty, the busy lists are filled from the
    events, and the case split decides which lists are sorted, collapsed,
    turned into free slots and returned.
   */
  method Query(events: seq<Event>, request: MeetingRequest) returns (result: seq<TimeRange>)
    ensures result == QueryResult(events, request)
  {
    var freeTimes: seq<TimeRange> := [];
    var optionalFreeTimes: seq<TimeRange> := [];
    var busyTimes: seq<TimeRange> := [];
    var optionalBusyTimes: seq<TimeRange> := [];
    ghost var busy := BusyRanges(events, request.attendees);
    ghost var optionalBusy := BusyRanges(events, request.optionalAttendees);

    busyTimes := GetBusyTimeRanges(busyTimes, events, request.attendees);
    optionalBusyTimes := GetBusyTimeRanges(optionalBusyTimes, events, request.optionalAttendees);
    assert busyTimes == busy && optionalBusyTimes == optionalBusy;

    if |busyTimes| == 0 && |optionalBusyTimes| == 0 {
      var wholeDay := FromStartEnd(START_OF_DAY, END_OF_DAY, true);
      if wholeDay.Duration() >= request.duration {
        freeTimes := freeTimes + [wholeDay];
      }
      return freeTimes;
    } else if |busyTimes| == 0 {
      optionalBusyTimes := SortByStart(optionalBusyTimes);
      optionalBusyTimes := RemoveOverlaps(optionalBusyTimes);
      optionalFreeTimes := FindFreeTimes(optionalBusyTimes, optionalFreeTimes, request.duration);
      assert optionalFreeTimes == Pipeline(optionalBusy, request.duration);
      return optionalFreeTimes;
    } else if |optionalBusyTimes| != 0 {
      busyTimes := SortByStart(busyTimes);
      optionalBusyTimes := SortByStart(optionalBusyTimes);
      busyTimes := RemoveOverlaps(busyTimes);
      optionalBusyTimes := RemoveOverlaps(optionalBusyTimes);
      freeTimes := FindFreeTimes(busyTimes, freeTimes, request.duration);
      optionalFreeTimes := FindFreeTimes(optionalBusyTimes, optionalFreeTimes, request.duration);
      assert freeTimes == Pipeline(busy, request.duration);
      assert optionalFreeTimes == Pipeline(optionalBusy, request.duration);
      var mergedFreeTimes := MergeFreeTimes(freeTimes, optionalFreeTimes, request.duration);
      if |mergedFreeTimes| > 0 {
        return mergedFreeTimes;
      } else {
        return freeTimes;
      }
    } else {
      busyTimes := RemoveOverlaps(busyTimes);
      freeTimes := FindFreeTimes(busyTimes, freeTimes, request.duration);
      assert freeTimes == FreeSlots(Collapse(busy), request.duration);
      return freeTimes;
    }
  }

  // ---------------------------------------------------------------------------
  // Bridging facts: attendee freedom and the busy lists.
  // ---------------------------------------------------------------------------

  /** Suiting the attendees is the same as being free of their busy ranges. */
  lemma FreeForBusy(x: TimeRange, events: seq<Event>, attendees: set<string>)
    ensures FreeFor(x, events, attendees) <==> IsFreeSlot(x, BusyRanges(events, attendees))
  {
    var busy := BusyRanges(events, attendees);
    forall p
      ensures Covers(busy, p) <==> exists e :: e in events && Involves(e, attendees) && e.when.ContainsPoint(p)
    {
      BusyRangesCover(events, attendees, p);
    }
    forall e | e in events && Involves(e, attendees)
      ensures x.Overlaps(e.when) <==> exists p :: x.ContainsPoint(p) && e.when.ContainsPoint(p)
    {
      OverlapsIffSharedMinute(x, e.when);
    }
  }

  /** Nobody of the attendees has an event exactly when their busy list is empty. */
  lemma BusyRangesEmpty(events: seq<Event>, attendees: set<string>)
    ensures BusyRanges(events, attendees) == [] <==> forall e :: e in events ==> !Involves(e, attendees)
  {
    BusyRangesMembers(events, attendees);
    if BusyRanges(events, attendees) != [] {
      assert BusyRanges(events, attendees)[0] in BusyRanges(events, attendees);
    }
  }

  /** The free slots of a start-sorted list of event spans are sorted, pairwise disjoint, long enough and free. */
  lemma SortedSlotsSound(sorted: seq<TimeRange>, meetingDuration: int)
    requires |sorted| > 0 && SortedByStart(sorted) && AllProper(sorted)
    ensures var slots := FreeSlots(Collapse(sorted), meetingDuration);
      Ordered(slots) && forall x :: x in slots ==> x.Duration() >= meetingDuration && IsFreeSlot(x, sorted)
  {
    var busy := Collapse(sorted);
    CollapseOrdered(sorted);
    CollapseCovers(sorted);
    FreeSlotsSound(busy, meetingDuration);
    forall x | x in FreeSlots(busy, meetingDuration)
      ensures IsFreeSlot(x, sorted)
    {
      FreeSlotSameCover(x, busy, sorted);
    }
  }

  /** The free slots of a start-sorted list of event spans miss no long-enough free window. */
  lemma SortedSlotsComplete(sorted: seq<TimeRange>, meetingDuration: int)
    requires |sorted| > 0 && SortedByStart(sorted) && AllProper(sorted)
    ensures forall y: TimeRange :: y.start < y.end && y.Duration() >= meetingDuration && IsFreeSlot(y, sorted) ==>
      exists x :: x in FreeSlots(Collapse(sorted), meetingDuration) && x.Contains(y)
  {
    var busy := Collapse(sorted);
    CollapseOrdered(sorted);
    CollapseCovers(sorted);
    FreeSlotsComplete(busy, meetingDuration);
    forall y: TimeRange | y.start < y.end && y.Duration() >= meetingDuration && IsFreeSlot(y, sorted)
      ensures exists x :: x in FreeSlots(busy, meetingDuration) && x.Contains(y)
    {
      FreeSlotSameCover(y, sorted, busy);
    }
  }

  /** The sort-collapse-gaps pipeline yields sorted, pairwise disjoint, long-enough slots free of its (unsorted) input. */
  lemma PipelineSound(ranges: seq<TimeRange>, meetingDuration: int)
    requires |ranges| > 0 && AllProper(ranges)
    ensures var slots := Pipeline(ranges, meetingDuration);
      Ordered(slots) && forall x :: x in slots ==> x.Duration() >= meetingDuration && IsFreeSlot(x, ranges)
  {
    var sorted := SortByStart(ranges);
    SortByStartSameRanges(ranges);
    SortedSlotsSound(sorted, meetingDuration);
    forall x | x in Pipeline(ranges, meetingDuration)
      ensures IsFreeSlot(x, ranges)
    {
      FreeSlotSameCover(x, sorted, ranges);
    }
  }

  /** The sort-collapse-gaps pipeline misses no long-enough window free of its input. */
  lemma PipelineComplete(ranges: seq<TimeRange>, meetingDuration: int)
    requires |ranges| > 0 && AllProper(ranges)
    ensures forall y: TimeRange :: y.start < y.end && y.Duration() >= meetingDuration && IsFreeSlot(y, ranges) ==>
      exists x :: x in Pipeline(ranges, meetingDuration) && x.Contains(y)
  {
    var sorted := SortByStart(ranges);
    SortByStartSameRanges(ranges);
    SortedSlotsComplete(sorted, meetingDuration);
    forall y: TimeRange | y.start < y.end && y.Duration() >= meetingDuration && IsFreeSlot(y, ranges)
      ensures exists x :: x in Pipeline(ranges, meetingDuration) && x.Contains(y)
    {
      FreeSlotSameCover(y, ranges, sorted);
    }
  }

  /** Slots free of the attendees' busy ranges suit the attendees. */
  lemma SlotsFreeFor(slots: seq<TimeRange>, events: seq<Event>, attendees: set<string>)
    requires forall x :: x in slots ==> IsFreeSlot(x, BusyRanges(events, attendees))
    ensures forall x :: x in slots ==> FreeFor(x, events, attendees)
  {
    forall x | x in slots
      ensures FreeFor(x, events, attendees)
    {
      FreeForBusy(x, events, attendees);
    }
  }

  /** A list holding every long-enough window free of the attendees' busy ranges holds every window that suits them. */
  lemma CoversFreeWindows(result: seq<TimeRange>, events: seq<Event>, attendees: set<string>, meetingDuration: int)
    requires forall y: TimeRange ::
      (y.start < y.end && y.Duration() >= meetingDuration && IsFreeSlot(y, BusyRanges(events, attendees))) ==>
        exists x :: x in result && x.Contains(y)
    ensures CoversWindows(result, events, attendees, meetingDuration)
  {
    forall y: TimeRange | y.start < y.end && y.Duration() >= meetingDuration && FreeFor(y, events, attendees)
      ensures exists x :: x in result && x.Contains(y)
    {
      FreeForBusy(y, events, attendees);
    }
  }

  /**
    Case D on busy lists: the slots the walk finds are sorted, pairwise
    disjoint, long enough, and free of both the mandatory and the optional
    busy ranges.
   */
  lemma MergedSound(busy: seq<TimeRange>, optionalBusy: seq<TimeRange>, meetingDuration: int)
    requires |busy| > 0 && |optionalBusy| > 0 && AllProper(busy) && AllProper(optionalBusy)
    ensures var merged := Merged(Pipeline(busy, meetingDuration), Pipeline(optionalBusy, meetingDuration), meetingDuration);
      Ordered(merged) &&
      forall x :: x in merged ==> x.Duration() >= meetingDuration && IsFreeSlot(x, busy) && IsFreeSlot(x, optionalBusy)
  {
    var free := Pipeline(busy, meetingDuration);
    var optionalFree := Pipeline(optionalBusy, meetingDuration);
    assert forall x :: x in free ==> IsFreeSlot(x, busy) by {
      PipelineSound(busy, meetingDuration);
    }
    assert Ordered(optionalFree) && forall x :: x in optionalFree ==> IsFreeSlot(x, optionalBusy) by {
      PipelineSound(optionalBusy, meetingDuration);
    }
    WalkOrdered(free, optionalFree, 0, 0, meetingDuration);
    WalkWithin(free, optionalFree, meetingDuration);
    forall x | x in Merged(free, optionalFree, meetingDuration)
      ensures IsFreeSlot(x, busy) && IsFreeSlot(x, optionalBusy)
    {
      var a :| 0 <= a < |free| && free[a].Contains(x);
      FreeSlotWithin(x, free[a], busy);
      var b :| 0 <= b < |optionalFree| && optionalFree[b].Contains(x);
      FreeSlotWithin(x, optionalFree[b], optionalBusy);
    }
  }

  // ---------------------------------------------------------------------------
  // What the query promises.
  // ---------------------------------------------------------------------------

  /** Every returned slot is at least as long as the requested meeting. */
  lemma QueryLongEnough(events: seq<Event>, request: MeetingRequest)
    ensures forall x :: x in QueryResult(events, request) ==> x.Duration() >= request.duration
  {
    var busy := BusyRanges(events, request.attendees);
    var optionalBusy := BusyRanges(events, request.optionalAttendees);
    var d := request.duration;
    if busy != [] {
      KeepMembers(Gaps(Collapse(SortByStart(busy))), d);
      KeepMembers(Gaps(Collapse(busy)), d);
    }
    if optionalBusy != [] {
      KeepMembers(Gaps(Collapse(SortByStart(optionalBusy))), d);
    }
    if busy != [] && optionalBusy != [] {
      WalkWithin(Pipeline(busy, d), Pipeline(optionalBusy, d), d);
    }
  }

  /** When no event involves any attendee (in particular with no events or no attendees), the answer is the whole day if the meeting fits in it. */
  lemma QueryNobodyBusy(events: seq<Event>, request: MeetingRequest)
    requires forall e :: e in events ==> !Involves(e, request.attendees) && !Involves(e, request.optionalAttendees)
    ensures QueryResult(events, request) == if request.duration <= 1440 then [TimeRange(0, 1440)] else []
  {
    BusyRangesEmpty(events, request.attendees);
    BusyRangesEmpty(events, request.optionalAttendees);
  }

  /**
    Every returned slot suits the mandatory attendees, and the slots are sorted
    and pairwise disjoint. Case C collapses the busy list without sorting it,
    so there the mandatory busy ranges must already come in start order.
   */
  lemma QueryMandatoryFree(events: seq<Event>, request: MeetingRequest)
    requires ProperEvents(events)
    requires BusyRanges(events, request.optionalAttendees) == [] ==> SortedByStart(BusyRanges(events, request.attendees))
    ensures Ordered(QueryResult(events, request))
    ensures forall x :: x in QueryResult(events, request) ==> FreeFor(x, events, request.attendees)
  {
    var busy := BusyRanges(events, request.attendees);
    var optionalBusy := BusyRanges(events, request.optionalAttendees);
    var d := request.duration;
    var result := QueryResult(events, request);
    BusyRangesProper(events, request.attendees);
    BusyRangesProper(events, request.optionalAttendees);
    if busy == [] {
      if optionalBusy != [] {
        PipelineSound(optionalBusy, d);
      }
      forall x | x in result
        ensures IsFreeSlot(x, busy)
      {
        forall p | x.ContainsPoint(p)
          ensures START_OF_DAY <= p <= END_OF_DAY
        {
          if optionalBusy != [] {
            assert IsFreeSlot(x, optionalBusy);
          }
        }
      }
    } else if optionalBusy == [] {
      SortedSlotsSound(busy, d);
    } else {
      MergedSound(busy, optionalBusy, d);
      PipelineSound(busy, d);
    }
    SlotsFreeFor(result, events, request.attendees);
  }

  /**
    The optional attendees are accommodated whenever possible in the query's
    sense: either every returned slot suits them too, or both groups have
    events, the walk found no common slot, and the answer is the mandatory
    attendees' free slots.
   */
  lemma QueryPrefersOptional(events: seq<Event>, request: MeetingRequest)
    requires ProperEvents(events)
    requires BusyRanges(events, request.optionalAttendees) == [] ==> SortedByStart(BusyRanges(events, request.attendees))
    ensures (forall x :: x in QueryResult(events, request) ==> FreeFor(x, events, request.optionalAttendees)) ||
      (FallsBack(events, request) &&
       QueryResult(events, request) == Pipeline(BusyRanges(events, request.attendees), request.duration))
  {
    var busy := BusyRanges(events, request.attendees);
    var optionalBusy := BusyRanges(events, request.optionalAttendees);
    var d := request.duration;
    var result := QueryResult(events, request);
    BusyRangesProper(events, request.optionalAttendees);
    if optionalBusy == [] {
      BusyRangesEmpty(events, request.optionalAttendees);
      QueryMandatoryFree(events, request);
    } else if busy == [] {
      PipelineSound(optionalBusy, d);
      SlotsFreeFor(result, events, request.optionalAttendees);
    } else if !FallsBack(events, request) {
      BusyRangesProper(events, request.attendees);
      MergedSound(busy, optionalBusy, d);
      SlotsFreeFor(result, events, request.optionalAttendees);
    }
  }

  /**
    No window is missed when only the mandatory attendees' events decide the
    answer: when the optional attendees have no events (in case C the busy
    ranges must come in start order), or when the query falls back, every
    long-enough window that suits the mandatory attendees lies inside a
    returned slot.
   */
  lemma QueryCompleteMandatory(events: seq<Event>, request: MeetingRequest)
    requires ProperEvents(events)
    requires BusyRanges(events, request.optionalAttendees) == [] ==> SortedByStart(BusyRanges(events, request.attendees))
    requires BusyRanges(events, request.optionalAttendees) == [] || FallsBack(events, request)
    ensures CoversWindows(QueryResult(events, request), events, request.attendees, request.duration)
  {
    var busy := BusyRanges(events, request.attendees);
    var d := request.duration;
    var result := QueryResult(events, request);
    BusyRangesProper(events, request.attendees);
    if busy == [] {
      WholeDayCoversWindows(events, request, request.attendees);
    } else if FallsBack(events, request) {
      PipelineComplete(busy, d);
      CoversFreeWindows(result, events, request.attendees, d);
    } else {
      MandatoryOnlyCase(events, request);
      SortedSlotsComplete(busy, d);
      CoversFreeWindows(result, events, request.attendees, d);
    }
  }

  /**
    When the mandatory attendees have no events, every long-enough window that
    suits the optional attendees lies inside a returned slot.
   */
  lemma QueryCompleteOptional(events: seq<Event>, request: MeetingRequest)
    requires ProperEvents(events)
    requires BusyRanges(events, request.attendees) == []
    ensures CoversWindows(QueryResult(events, request), events, request.optionalAttendees, request.duration)
  {
    var optionalBusy := BusyRanges(events, request.optionalAttendees);
    var d := request.duration;
    var result := QueryResult(events, request);
    if optionalBusy == [] {
      WholeDayCoversWindows(events, request, request.optionalAttendees);
    } else {
      BusyRangesProper(events, request.optionalAttendees);
      OptionalOnlyCase(events, request);
      PipelineComplete(optionalBusy, d);
      CoversFreeWindows(result, events, request.optionalAttendees, d);
    }
  }

  /** In case A every window inside the day and long enough lies inside the one returned slot. */
  lemma WholeDayCoversWindows(events: seq<Event>, request: MeetingRequest, attendees: set<string>)
    requires BusyRanges(events, request.attendees) == [] && BusyRanges(events, request.optionalAttendees) == []
    ensures CoversWindows(QueryResult(events, request), events, attendees, request.duration)
  {
    var result := QueryResult(events, request);
    forall y: TimeRange | y.start < y.end && y.Duration() >= request.duration && FreeFor(y, events, attendees)
      ensures exists x :: x in result && x.Contains(y)
    {
      assert y.ContainsPoint(y.start) && y.ContainsPoint(y.end - 1);
      assert WholeDay() in result && WholeDay().Contains(y);
    }
  }

  // ---------------------------------------------------------------------------
  // Worked cases.
  // ---------------------------------------------------------------------------

  /** Case C: only the mandatory attendees have events. */
  lemma MandatoryOnlyCase(events: seq<Event>, request: MeetingRequest)
    requires BusyRanges(events, request.attendees) != [] && BusyRanges(events, request.optionalAttendees) == []
    ensures QueryResult(events, request) == FreeSlots(Collapse(BusyRanges(events, request.attendees)), request.duration)
  {
  }

  /** Case B: only the optional attendees have events. */
  lemma OptionalOnlyCase(events: seq<Event>, request: MeetingRequest)
    requires BusyRanges(events, request.attendees) == [] && BusyRanges(events, request.optionalAttendees) != []
    ensures QueryResult(events, request) == Pipeline(BusyRanges(events, request.optionalAttendees), request.duration)
  {
  }

  /** Case D: both groups have events; the walk's slots, or the mandatory slots when it finds none. */
  lemma BothBusyCase(events: seq<Event>, request: MeetingRequest)
    requires BusyRanges(events, request.attendees) != [] && BusyRanges(events, request.optionalAttendees) != []
    ensures var free := Pipeline(BusyRanges(events, request.attendees), request.duration);
      var merged := Merged(free, Pipeline(BusyRanges(events, request.optionalAttendees), request.duration), request.duration);
      QueryResult(events, request) == if merged != [] then merged else free
  {
  }

  /** One event [600,630) of a mandatory attendee and a 30-minute meeting: the slots before and after it. */
  lemma OneEventSplitsDay(e: Event, request: MeetingRequest)
    requires e.when == TimeRange(600, 630) && request.duration == 30
    requires Involves(e, request.attendees) && !Involves(e, request.optionalAttendees)
    ensures QueryResult([e], request) == [TimeRange(0, 600), TimeRange(630, 1440)]
  {
    var events := [e];
    assert events[..0] == [];
    MandatoryOnlyCase(events, request);
    OneEventSlots();
  }

  lemma OneEventSlots()
    ensures FreeSlots(Collapse([TimeRange(600, 630)]), 30) == [TimeRange(0, 600), TimeRange(630, 1440)]
  {
    var busy := [TimeRange(600, 630)];
    var gaps := [TimeRange(0, 600), TimeRange(630, 1440)];
    assert Gaps(busy) == gaps;
    assert Keep(gaps, 30) == gaps by {
      assert gaps[..1] == [gaps[0]] && gaps[..1][..0] == [];
    }
  }

  /**
    Case B has no fallback: the mandatory attendees are free all day, but an
    optional attendee's all-day event leaves no slot, and none is returned.
   */
  lemma OptionalOnlyNoFallback(allDay: Event, request: MeetingRequest)
    requires allDay.when == WholeDay() && request.duration == 30
    requires !Involves(allDay, request.attendees) && Involves(allDay, request.optionalAttendees)
    ensures FreeFor(WholeDay(), [allDay], request.attendees) && QueryResult([allDay], request) == []
  {
    var events := [allDay];
    assert events[..0] == [];
    OptionalOnlyCase(events, request);
    WholeDaySlots();
  }

  lemma WholeDaySlots()
    ensures Pipeline([WholeDay()], 30) == []
  {
    var busy := [WholeDay()];
    assert SortByStart(busy) == busy by {
      assert busy[..0] == [];
    }
    assert Gaps(busy) == [];
  }

  /**
    Case C does not sort before collapsing. With the later event [600,700)
    listed before the earlier one [0,100), the gap before the first listed
    event, [0,600), is returned although the event [0,100) lies in it.
   */
  lemma UnsortedMandatorySlotIsBusy(late: Event, early: Event, request: MeetingRequest)
    requires late.when == TimeRange(600, 700) && early.when == TimeRange(0, 100) && request.duration == 30
    requires Involves(late, request.attendees) && Involves(early, request.attendees)
    requires !Involves(late, request.optionalAttendees) && !Involves(early, request.optionalAttendees)
    ensures TimeRange(0, 600) in QueryResult([late, early], request)
    ensures !FreeFor(TimeRange(0, 600), [late, early], request.attendees)
  {
    var events := [late, early];
    assert events[..1] == [late] && events[..1][..0] == [];
    assert BusyRanges([late], request.attendees) == [late.when];
    assert BusyRanges([late], request.optionalAttendees) == [];
    assert BusyRanges(events, request.attendees) == [TimeRange(600, 700), TimeRange(0, 100)];
    assert BusyRanges(events, request.optionalAttendees) == [];
    MandatoryOnlyCase(events, request);
    UnsortedSlots();
    assert early in events && TimeRange(0, 600).Overlaps(early.when);
  }

  lemma UnsortedSlots()
    ensures FreeSlots(Collapse([TimeRange(600, 700), TimeRange(0, 100)]), 30) == [TimeRange(0, 600), TimeRange(100, 1440)]
  {
    var busy := [TimeRange(600, 700), TimeRange(0, 100)];
    var gaps := [TimeRange(0, 600), TimeRange(700, 0), TimeRange(100, 1440)];
    assert Collapse(busy) == busy;
    assert Gaps(busy) == gaps by {
      assert InnerGaps(busy) == [TimeRange(700, 0)];
    }
    assert Keep(gaps, 30) == [TimeRange(0, 600), TimeRange(100, 1440)] by {
      var first := [gaps[0]];
      assert first[..0] == [];
      assert Keep(first, 30) == first;
      assert gaps[..2] == [gaps[0], gaps[1]] && gaps[..2][..1] == first;
      assert Keep(gaps[..2], 30) == first;
    }
  }

  /**
    A zero-length event shares no minute with anything, so removeOverlaps keeps
    it beside the event it lies in: events [500,700) then [600,600), in start
    order, leave the trailing gap [600,1440), which overlaps the event [500,700).
    Only the at-least-one-minute half of ProperEvents rules this input out of
    QueryMandatoryFree.
   */
  lemma ZeroLengthEventSlotIsBusy(long: Event, empty: Event, request: MeetingRequest)
    requires long.when == TimeRange(500, 700) && empty.when == TimeRange(600, 600) && request.duration == 30
    requires Involves(long, request.attendees) && Involves(empty, request.attendees)
    requires !Involves(long, request.optionalAttendees) && !Involves(empty, request.optionalAttendees)
    ensures SortedByStart(BusyRanges([long, empty], request.attendees))
    ensures TimeRange(600, 1440) in QueryResult([long, empty], request)
    ensures !FreeFor(TimeRange(600, 1440), [long, empty], request.attendees)
  {
    var events := [long, empty];
    assert events[..1] == [long] && events[..1][..0] == [];
    assert BusyRanges([long], request.attendees) == [long.when];
    assert BusyRanges([long], request.optionalAttendees) == [];
    assert BusyRanges(events, request.attendees) == [TimeRange(500, 700), TimeRange(600, 600)];
    assert BusyRanges(events, request.optionalAttendees) == [];
    MandatoryOnlyCase(events, request);
    ZeroLengthSlots();
    assert long in events && TimeRange(600, 1440).Overlaps(long.when);
  }

  lemma ZeroLengthSlots()
    ensures FreeSlots(Collapse([TimeRange(500, 700), TimeRange(600, 600)]), 30) == [TimeRange(0, 500), TimeRange(600, 1440)]
  {
    var busy := [TimeRange(500, 700), TimeRange(600, 600)];
    var gaps := [TimeRange(0, 500), TimeRange(700, 600), TimeRange(600, 1440)];
    assert Collapse(busy) == busy;
    assert Gaps(busy) == gaps by {
      assert InnerGaps(busy) == [TimeRange(700, 600)];
    }
    assert Keep(gaps, 30) == [TimeRange(0, 500), TimeRange(600, 1440)] by {
      var first := [gaps[0]];
      assert first[..0] == [];
      assert Keep(first, 30) == first;
      assert gaps[..2] == [gaps[0], gaps[1]] && gaps[..2][..1] == first;
      assert Keep(gaps[..2], 30) == first;
    }
  }
}
