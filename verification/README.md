# Meeting-slot finder, modelled in Dafny

This project models `FindMeetingQuery`, the meeting-slot finder of the week-5
walkthrough. Given the events of one day (each with a time range and a set of
attendees) and a meeting request (mandatory attendees, optional attendees, a
duration in minutes), `query` returns the time ranges of the day in which the
meeting can be held, preferring ranges that also suit the optional attendees.

The Java code works in four steps, and the model keeps them as imperative
methods with the same loops, each proved against a recursive specification
function:

- `getBusyTimeRanges` is `BusyTimes.GetBusyTimeRanges`, specified by `BusyRanges` (busy_times.dfy);
- `removeOverlaps` is `Normalize.RemoveOverlaps`, specified by `Collapse` (remove_overlaps.dfy);
- `addTimeRange` and `findFreeTimes` are `FreeTimes.AddTimeRange` and `FreeTimes.FindFreeTimes`, specified by `Keep`, `Gaps` and `FreeSlots` (free_times.dfy);
- `mergeFreeTimes` is `Reconcile.MergeFreeTimes`, specified by `Walk` and `Merged` (merge_free_times.dfy);
- `query` is `FindMeetingQuery.Query`, specified by `QueryResult` (find_meeting_query.dfy).

The lemmas then state what the code promises about those functions: every
slot is long enough, the slots are sorted and pairwise disjoint, every slot
suits the mandatory attendees, the optional attendees are suited unless the
query falls back, and no long-enough free window is missed.

## Assumptions

`TimeRange`, `Event` and `MeetingRequest` (TimeRange.java, Event.java,
MeetingRequest.java) are not part of this model. They are modelled abstractly
in time_range.dfy and meeting.dfy with these semantics:

- A `TimeRange` is the half-open interval `[start, end)` of minutes, with
  `duration = end - start`. `fromStartEnd(s, e, inclusive)` is `[s, e + 1)` when
  `inclusive` holds, otherwise `[s, e)`.
- `contains(point)` is `start <= p < end`; `contains(range)` is bounds
  containment, which is the superset relation for ranges of at least one minute
  (`TimeRanges.ContainsIffSuperset`).
- `overlaps` means the two ranges share a minute; ranges that only touch do not
  overlap (`TimeRanges.OverlapsIffSharedMinute`).
- `START_OF_DAY` is 0 and `END_OF_DAY` is 1439 (23:59), so the whole day is
  `[0, 1440)`.
- `ORDER_BY_START` compares starts. `Collections.sort` is stable, so its result is
  the unique stable sort by start, which `TimeRanges.SortByStart` computes by
  insertion.
- Event time ranges used by the soundness lemmas lie inside the day and last at
  least one minute (`Meetings.ProperEvents`).

The four lists of `query` are local and never aliased. They are changed by the
helpers, by `Collections.sort` and by the direct `add` of the whole day; the
model passes each list to a method or function and takes the new list back
(`busyTimes` in, `busyTimes'` out).

Behaviour the model reproduces as written:

- `removeOverlaps` builds the merged range as `[current.start, next.end)`, the
  union only on start-sorted input (`Normalize.UnsortedMergeLosesMinutes`).
- On unsorted input a second `removeOverlaps` pass can change the list again
  (`Normalize.UnsortedCollapseNotIdempotent`); on start-sorted input it cannot
  (`Normalize.CollapseIdempotent`).
- A zero-length event shares no minute with anything, so `removeOverlaps` keeps
  it next to a longer event that contains it, and the gap computed from its end
  overlaps the longer event (`FindMeetingQuery.ZeroLengthEventSlotIsBusy`). This
  follows from the assumed `overlaps` semantics above.
- The case with only mandatory events calls `removeOverlaps` without sorting, so
  on events listed out of order a returned slot can overlap an event
  (`FindMeetingQuery.UnsortedMandatorySlotIsBusy`).
- The two-index walk moves the optional index on every overlap and the mandatory
  index otherwise, so it can miss common slots (`Reconcile.WalkMissesLaterOverlap`,
  `Reconcile.WalkOneSlotPerOptional`).
- The case with only optional events has no fallback: it returns the optional
  free slots even when there are none (`FindMeetingQuery.OptionalOnlyNoFallback`).

## Model

| member | source | states |
|---|---|---|
| BusyTimes.GetBusyTimeRanges | walkthroughs/week-5-tdd/project/src/main/java/com/google/sps/FindMeetingQuery.java:113-119 | the list afterwards is the list before followed by the busy ranges of the events for these attendees, in event order |
| BusyTimes.BusyRangesMembers | walkthroughs/week-5-tdd/project/src/main/java/com/google/sps/FindMeetingQuery.java:114-118 | a range is collected exactly when it is the span of an event sharing an attendee; at most one range per event |
| BusyTimes.BusyRangesConcat | walkthroughs/week-5-tdd/project/src/main/java/com/google/sps/FindMeetingQuery.java:114-118 | collection follows event order: the ranges of a concatenation of event lists are the concatenation of their ranges |
| BusyTimes.BusyRangesNoAttendees | walkthroughs/week-5-tdd/project/src/main/java/com/google/sps/FindMeetingQuery.java:115-117 | an empty attendee set collects nothing |
| BusyTimes.BusyRangesCover | walkthroughs/week-5-tdd/project/src/main/java/com/google/sps/FindMeetingQuery.java:113-119 | the collected ranges cover a minute exactly when an event sharing an attendee does |
| BusyTimes.BusyRangesProper | walkthroughs/week-5-tdd/project/src/main/java/com/google/sps/FindMeetingQuery.java:116 | the collected spans of in-day events are in-day spans |
| TimeRanges.OverlapsIffSharedMinute | walkthroughs/week-5-tdd/project/src/main/java/com/google/sps/FindMeetingQuery.java:129 | two ranges overlap exactly when some minute lies in both |
| TimeRanges.ContainsIffSuperset | walkthroughs/week-5-tdd/project/src/main/java/com/google/sps/FindMeetingQuery.java:130 | containment of a range of at least one minute is the superset relation on minutes |
| TimeRanges.SortByStart | walkthroughs/week-5-tdd/project/src/main/java/com/google/sps/FindMeetingQuery.java:64-65 | the result is sorted by start and a permutation of the input |
| TimeRanges.SortByStartSameRanges | walkthroughs/week-5-tdd/project/src/main/java/com/google/sps/FindMeetingQuery.java:59 | sorting keeps the same ranges and so the same busy minutes |
| Normalize.RemoveOverlaps | walkthroughs/week-5-tdd/project/src/main/java/com/google/sps/FindMeetingQuery.java:126-138 | the in-place scan leaves exactly Collapse of the input; the loop ends because each step removes an element or advances the index |
| Normalize.Collapse | walkthroughs/week-5-tdd/project/src/main/java/com/google/sps/FindMeetingQuery.java:126-138 | the list never gets longer, and is empty exactly when the input is |
| Normalize.CollapseUnchanged | walkthroughs/week-5-tdd/project/src/main/java/com/google/sps/FindMeetingQuery.java:128-136 | a list with fewer than two ranges or without overlapping neighbours is left unchanged |
| Normalize.CollapseSorted | walkthroughs/week-5-tdd/project/src/main/java/com/google/sps/FindMeetingQuery.java:121-126 | on start-sorted input the result is start-sorted and no two neighbours overlap |
| Normalize.CollapseIdempotent | walkthroughs/week-5-tdd/project/src/main/java/com/google/sps/FindMeetingQuery.java:126-138 | on start-sorted input removing overlaps a second time changes nothing |
| Normalize.CollapseCovers | walkthroughs/week-5-tdd/project/src/main/java/com/google/sps/FindMeetingQuery.java:121-126 | on start-sorted input the result covers exactly the minutes the input covers |
| Normalize.CollapseOrdered | walkthroughs/week-5-tdd/project/src/main/java/com/google/sps/FindMeetingQuery.java:121-126 | on start-sorted in-day spans of at least one minute the result is pairwise disjoint in-day spans |
| Normalize.UnsortedMergeLosesMinutes | walkthroughs/week-5-tdd/project/src/main/java/com/google/sps/FindMeetingQuery.java:130-131 | on unsorted input [10,20),[5,12) collapses to [10,12), dropping busy minute 15 |
| Normalize.UnsortedCollapseNotIdempotent | walkthroughs/week-5-tdd/project/src/main/java/com/google/sps/FindMeetingQuery.java:126-138 | on unsorted input [50,60),[10,20),[15,70) collapses to [50,60),[10,70), and a second pass gives [50,70), so idempotence needs start order |
| Normalize.ZeroLengthRangesUnmerged | walkthroughs/week-5-tdd/project/src/main/java/com/google/sps/FindMeetingQuery.java:128-136 | a zero-length range inside a longer one is never merged: [500,700),[600,600) stays as it is and is not disjoint |
| Normalize.ZeroLengthDuplicateSurvives | walkthroughs/week-5-tdd/project/src/main/java/com/google/sps/FindMeetingQuery.java:59-60 | a zero-length range listed twice normalizes to two copies, listed once to one |
| Normalize.CollapseStraddles | walkthroughs/week-5-tdd/project/src/main/java/com/google/sps/FindMeetingQuery.java:128-136 | on start-sorted input a boundary falls strictly inside some result range exactly when it falls strictly inside some input range |
| Normalize.SameRangesSameNormal | walkthroughs/week-5-tdd/project/src/main/java/com/google/sps/FindMeetingQuery.java:59-60 | for in-day ranges of at least one minute, sorting then removing overlaps depends only on which ranges are busy, not on their listing order or repetitions |
| Normalize.NormalizeSelfUnion | walkthroughs/week-5-tdd/project/src/main/java/com/google/sps/FindMeetingQuery.java:59-60 | for in-day ranges of at least one minute, normalizing a busy list joined with itself gives the same list as normalizing it once |
| FreeTimes.AddTimeRange | walkthroughs/week-5-tdd/project/src/main/java/com/google/sps/FindMeetingQuery.java:99-103 | appends the range if it lasts at least the duration, otherwise leaves the list unchanged |
| FreeTimes.FindFreeTimes | walkthroughs/week-5-tdd/project/src/main/java/com/google/sps/FindMeetingQuery.java:147-163 | the list afterwards is the list before followed by the long-enough leading, inner and trailing gaps, in that order |
| FreeTimes.KeepMembers | walkthroughs/week-5-tdd/project/src/main/java/com/google/sps/FindMeetingQuery.java:99-103 | a range is kept exactly when it is a candidate and long enough; nothing is added |
| FreeTimes.KeepConcat | walkthroughs/week-5-tdd/project/src/main/java/com/google/sps/FindMeetingQuery.java:99-103 | keeping long-enough ranges preserves their order |
| FreeTimes.KeepOrdered | walkthroughs/week-5-tdd/project/src/main/java/com/google/sps/FindMeetingQuery.java:99-103 | dropping short ranges keeps a sorted, disjoint list sorted and disjoint |
| FreeTimes.InnerGapsAt | walkthroughs/week-5-tdd/project/src/main/java/com/google/sps/FindMeetingQuery.java:154-157 | there is one inner gap per adjacent pair, from the first range's end to the second's start |
| FreeTimes.GapsComplement | walkthroughs/week-5-tdd/project/src/main/java/com/google/sps/FindMeetingQuery.java:140-147 | for a sorted, disjoint busy list the gaps number at most n+1, are sorted and disjoint, and cover exactly the free minutes of the day |
| FreeTimes.LeadingGapIff | walkthroughs/week-5-tdd/project/src/main/java/com/google/sps/FindMeetingQuery.java:149-152 | the leading gap is a candidate exactly when the first busy range does not hold START_OF_DAY |
| FreeTimes.TrailingGapIff | walkthroughs/week-5-tdd/project/src/main/java/com/google/sps/FindMeetingQuery.java:159-162 | the trailing gap is a candidate exactly when the last busy range does not hold END_OF_DAY |
| FreeTimes.FreeSlotsSound | walkthroughs/week-5-tdd/project/src/main/java/com/google/sps/FindMeetingQuery.java:140-163 | at most n+1 slots, sorted and disjoint, each long enough, inside the day and free of every busy range; every long-enough gap is kept |
| FreeTimes.FreeSlotsComplete | walkthroughs/week-5-tdd/project/src/main/java/com/google/sps/FindMeetingQuery.java:140-163 | every free window of at least the duration lies inside one returned slot |
| Reconcile.MergeFreeTimes | walkthroughs/week-5-tdd/project/src/main/java/com/google/sps/FindMeetingQuery.java:174-196 | the two-index loop returns exactly the walk's output; it ends because freeIndex + optionalIndex grows |
| Reconcile.IntersectionCommon | walkthroughs/week-5-tdd/project/src/main/java/com/google/sps/FindMeetingQuery.java:185-187 | the intersection of overlapping slots holds exactly the minutes of both and lies inside both |
| Reconcile.WalkElements | walkthroughs/week-5-tdd/project/src/main/java/com/google/sps/FindMeetingQuery.java:181-193 | each emitted slot is the intersection of one overlapping mandatory/optional pair and long enough; no more slots than optional slots remain from the current index |
| Reconcile.WalkSources | walkthroughs/week-5-tdd/project/src/main/java/com/google/sps/FindMeetingQuery.java:184-189 | each emitted slot is cut from its own optional slot and an overlapping mandatory slot; the optional slots used strictly increase, so no optional slot yields two emitted slots |
| Reconcile.WalkWithin | walkthroughs/week-5-tdd/project/src/main/java/com/google/sps/FindMeetingQuery.java:165-172 | each emitted slot lies inside a mandatory slot and an optional slot; no more slots than optional slots |
| Reconcile.WalkOrdered | walkthroughs/week-5-tdd/project/src/main/java/com/google/sps/FindMeetingQuery.java:169-172 | with sorted, disjoint optional slots the output is sorted and disjoint |
| Reconcile.WalkMissesLaterOverlap | walkthroughs/week-5-tdd/project/src/main/java/com/google/sps/FindMeetingQuery.java:184-192 | with mandatory [200,300) and optional [0,50),[250,280) the walk returns nothing although [250,280) is common |
| Reconcile.WalkOneSlotPerOptional | walkthroughs/week-5-tdd/project/src/main/java/com/google/sps/FindMeetingQuery.java:184-189 | optional [550,750) meets both mandatory [0,600) and [700,1440) but only [550,600) is emitted; with a 60-minute meeting nothing is emitted, so the query falls back |
| FindMeetingQuery.Query | walkthroughs/week-5-tdd/project/src/main/java/com/google/sps/FindMeetingQuery.java:35-89 | the method returns QueryResult: the four-way case split on which busy lists are empty |
| FindMeetingQuery.FreeForBusy | walkthroughs/week-5-tdd/project/src/main/java/com/google/sps/FindMeetingQuery.java:42-48 | a range suits a group exactly when it is inside the day and free of the group's collected busy ranges |
| FindMeetingQuery.BusyRangesEmpty | walkthroughs/week-5-tdd/project/src/main/java/com/google/sps/FindMeetingQuery.java:52 | a busy list is empty exactly when no event involves the group |
| FindMeetingQuery.SortedSlotsSound | walkthroughs/week-5-tdd/project/src/main/java/com/google/sps/FindMeetingQuery.java:85-86 | for start-sorted in-day spans the free slots are sorted, disjoint, long enough and free of them |
| FindMeetingQuery.SortedSlotsComplete | walkthroughs/week-5-tdd/project/src/main/java/com/google/sps/FindMeetingQuery.java:85-86 | for start-sorted in-day spans every long-enough free window lies inside a free slot |
| FindMeetingQuery.PipelineSound | walkthroughs/week-5-tdd/project/src/main/java/com/google/sps/FindMeetingQuery.java:59-61 | sort, remove overlaps and find gaps yields sorted, disjoint, long-enough slots free of the unsorted busy list |
| FindMeetingQuery.PipelineComplete | walkthroughs/week-5-tdd/project/src/main/java/com/google/sps/FindMeetingQuery.java:59-61 | the same pipeline misses no long-enough window free of the busy list |
| FindMeetingQuery.MergedSound | walkthroughs/week-5-tdd/project/src/main/java/com/google/sps/FindMeetingQuery.java:63-78 | in the case with both groups busy, the walk's slots are sorted, disjoint, long enough and free for both groups |
| FindMeetingQuery.BothBusyCase | walkthroughs/week-5-tdd/project/src/main/java/com/google/sps/FindMeetingQuery.java:63-83 | with both groups busy the answer is the slots common to both groups as the walk finds them, or the mandatory slots when the walk finds none |
| FindMeetingQuery.QueryLongEnough | walkthroughs/week-5-tdd/project/src/main/java/com/google/sps/FindMeetingQuery.java:25-28 | every returned slot lasts at least the requested duration |
| FindMeetingQuery.QueryNobodyBusy | walkthroughs/week-5-tdd/project/src/main/java/com/google/sps/FindMeetingQuery.java:50-57 | with no event involving any attendee the answer is [0,1440) if the duration is at most 1440, else nothing |
| FindMeetingQuery.QueryMandatoryFree | walkthroughs/week-5-tdd/project/src/main/java/com/google/sps/FindMeetingQuery.java:25-34 | the answer is sorted and disjoint and every slot suits all mandatory attendees |
| FindMeetingQuery.QueryPrefersOptional | walkthroughs/week-5-tdd/project/src/main/java/com/google/sps/FindMeetingQuery.java:75-83 | every slot suits the optional attendees too, or both groups are busy, the walk found nothing and the mandatory slots are returned |
| FindMeetingQuery.QueryCompleteMandatory | walkthroughs/week-5-tdd/project/src/main/java/com/google/sps/FindMeetingQuery.java:84-88 | when the optional attendees have no events or the query falls back, every long-enough window suiting the mandatory attendees lies inside a returned slot |
| FindMeetingQuery.QueryCompleteOptional | walkthroughs/week-5-tdd/project/src/main/java/com/google/sps/FindMeetingQuery.java:58-62 | with no mandatory events every long-enough window suiting the optional attendees lies inside a returned slot |
| FindMeetingQuery.WholeDayCoversWindows | walkthroughs/week-5-tdd/project/src/main/java/com/google/sps/FindMeetingQuery.java:52-57 | with nobody busy every long-enough in-day window lies inside the returned whole day |
| FindMeetingQuery.OneEventSplitsDay | walkthroughs/week-5-tdd/project/src/main/java/com/google/sps/FindMeetingQuery.java:84-88 | one event [600,630) and a 30-minute meeting give [0,600) and [630,1440) |
| FindMeetingQuery.OptionalOnlyNoFallback | walkthroughs/week-5-tdd/project/src/main/java/com/google/sps/FindMeetingQuery.java:58-62 | an optional all-day event gives no slot although the mandatory attendees are free all day |
| FindMeetingQuery.UnsortedMandatorySlotIsBusy | walkthroughs/week-5-tdd/project/src/main/java/com/google/sps/FindMeetingQuery.java:84-86 | events [600,700) then [0,100) yield the slot [0,600), which overlaps the event [0,100) |
| FindMeetingQuery.ZeroLengthEventSlotIsBusy | walkthroughs/week-5-tdd/project/src/main/java/com/google/sps/FindMeetingQuery.java:84-86 | start-ordered events [500,700) then [600,600) yield the slot [600,1440), which overlaps the event [500,700) |

## Left out

- TimeRange.java, Event.java and MeetingRequest.java are not part of this model; the semantics above are assumed, not derived from their code, and their argument checks are not modelled.
- Aliasing and in-place update of the `ArrayList`s: each list is a value passed to a method and returned, which loses nothing because the lists are local to `query` and never shared.
- Java's `int` and `long` widths: all arithmetic stays within a day of minutes, so unbounded integers are used.
- `Collections.sort` is library code; it is modelled by the function `TimeRanges.SortByStart`, not by a loop of its own.
- FindMeetingQuery.QueryMandatoryFree: in the case with only mandatory events the busy ranges must be listed in start order, because the code does not sort there and the promise fails otherwise (`UnsortedMandatorySlotIsBusy`).
- FindMeetingQuery.QueryPrefersOptional: requires the same start order in the case with only mandatory events, for the same reason.
- FindMeetingQuery.QueryCompleteMandatory: requires the same start order in the case with only mandatory events, for the same reason; when the walk finds some slots, completeness is not claimed, since the walk can miss common windows.
- FreeTimes.FreeSlotsSound, FreeTimes.FreeSlotsComplete and the lemmas built on them (the soundness and completeness lemmas of `FindMeetingQuery`) assume event spans inside the day and at least one minute long. The promises fail for a zero-length event that lies inside a longer one: it overlaps nothing, survives `removeOverlaps`, and the gap after it is reported free (`FindMeetingQuery.ZeroLengthEventSlotIsBusy`). That is a consequence of the assumed `overlaps` semantics, since TimeRange.java is not part of this model.
- Normalize.CollapseOrdered, Normalize.SameRangesSameNormal, Normalize.NormalizeSelfUnion: assume in-day ranges of at least one minute. Zero-length ranges overlap nothing and are never merged, so the result need not be disjoint and a repeated zero-length range survives twice (`Normalize.ZeroLengthRangesUnmerged`, `Normalize.ZeroLengthDuplicateSurvives`).
- The servlets, comment storage, user lookup, sentiment analysis and browser scripts of the portfolio are outside the modelled component.
