/**
  Collecting the busy ranges of a set of attendees (getBusyTimeRanges).
 */
module BusyTimes {
  import opened TimeRanges
  import opened Meetings

  /** The event's attendees and the given ones are not disjoint. */
  predicate Involves(e: Event, attendees: set<string>)
  {
    !(e.attendees !! attendees)
  }

  /** The spans of the events that involve one of the attendees, in the order of the events. */
  function BusyRanges(events: seq<Event>, attendees: set<string>): seq<TimeRange>
  {
    if events == [] then []
    else
      var last := events[|events| - 1];
      BusyRanges(events[..|events| - 1], attendees) + (if Involves(last, attendees) then [last.when] else [])
  }

  /**
    Appends to busyTimes the span of every event that shares an attendee with
    `attendees`, in event order; what busyTimes held already stays in front.
   */
  method GetBusyTimeRanges(busyTimes: seq<TimeRange>, events: seq<Event>, attendees: set<string>)
    returns (busyTimes': seq<TimeRange>)
    ensures busyTimes' == busyTimes + BusyRanges(events, attendees)
  {
    busyTimes' := busyTimes;
    for i := 0 to |events|
      invariant busyTimes' == busyTimes + BusyRanges(events[..i], attendees)
    {
      assert events[..i + 1][..i] == events[..i];
      if !(events[i].attendees !! attendees) {
        busyTimes' := busyTimes' + [events[i].when];
      }
    }
    assert events[..|events|] == events;
  }

  /** A range is busy exactly when it is the span of an event involving one of the attendees. */
  lemma {:induction false} BusyRangesMembers(events: seq<Event>, attendees: set<string>)
    ensures forall x :: x in BusyRanges(events, attendees) <==>
      exists e :: e in events && Involves(e, attendees) && e.when == x
    ensures |BusyRanges(events, attendees)| <= |events|
  {
    if events != [] {
      var init := events[..|events| - 1];
      BusyRangesMembers(init, attendees);
      assert events == init + [events[|events| - 1]];
    }
  }

  /** Collecting keeps the order of the events: the busy ranges of a concatenation are concatenated. */
  lemma {:induction false} BusyRangesConcat(first: seq<Event>, second: seq<Event>, attendees: set<string>)
    ensures BusyRanges(first + second, attendees) == BusyRanges(first, attendees) + BusyRanges(second, attendees)
    decreases |second|
  {
    if second == [] {
      assert first + second == first;
    } else {
      var init := second[..|second| - 1];
      BusyRangesConcat(first, init, attendees);
      assert (first + second)[..|first + second| - 1] == first + init;
    }
  }

  /** Nobody to look for: nothing is busy. */
  lemma {:induction false} BusyRangesNoAttendees(events: seq<Event>)
    ensures BusyRanges(events, {}) == []
  {
    if events != [] {
      BusyRangesNoAttendees(events[..|events| - 1]);
    }
  }

  /** The busy ranges cover a minute exactly when an event involving one of the attendees does. */
  lemma BusyRangesCover(events: seq<Event>, attendees: set<string>, p: int)
    ensures Covers(BusyRanges(events, attendees), p) <==>
      exists e :: e in events && Involves(e, attendees) && e.when.ContainsPoint(p)
  {
    BusyRangesMembers(events, attendees);
    if Covers(BusyRanges(events, attendees), p) {
      var x :| x in BusyRanges(events, attendees) && x.ContainsPoint(p);
      var e :| e in events && Involves(e, attendees) && e.when == x;
    }
    if exists e :: e in events && Involves(e, attendees) && e.when.ContainsPoint(p) {
      var e :| e in events && Involves(e, attendees) && e.when.ContainsPoint(p);
      assert e.when in BusyRanges(events, attendees);
    }
  }

  /** Busy ranges of proper events are proper. */
  lemma BusyRangesProper(events: seq<Event>, attendees: set<string>)
    requires ProperEvents(events)
    ensures AllProper(BusyRanges(events, attendees))
  {
    BusyRangesMembers(events, attendees);
  }
}
