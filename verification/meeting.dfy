/**
  The inputs of a query: the day's events and the meeting request. Both are
  immutable values handed in by the caller.
 */
module Meetings {
  import opened TimeRanges

  /** An event of the day: its title, when it happens and who attends it. */
  datatype Event = Event(title: string, when: TimeRange, attendees: set<string>)

  /**
    A request for a meeting of `duration` minutes that every mandatory attendee
    must be able to attend and that the optional attendees should attend if possible.
   */
  datatype MeetingRequest = MeetingRequest(attendees: set<string>, optionalAttendees: set<string>, duration: int)

  /** Every event lies inside the day and lasts at least one minute. */
  predicate ProperEvents(events: seq<Event>)
  {
    forall e :: e in events ==> Proper(e.when)
  }
}
