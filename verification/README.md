# Verified model of the booking service

The service books appointments for workspaces with staff. Its hard logic is interval arithmetic, a
search, and small transactional state machines over groups, events and participants. This project models
that logic in Dafny and proves what the code promises about it.

A booking is a *group* with a time window, one or more *events* (one per service) and *participants*.

- **Free time and staff** (`Windows`, `Assign`, `DayGrid`, `Availability`, `TimeSlots`). Busy time is
  subtracted from shifts and the pieces are merged; starts are laid out on a grid, for one service with
  its group bookings, or for a chain that a backtracking search gives to members of staff.
- **The booking store** (`TimeSegments`, `BookingModel`, `BookingProofs`, `BookingRuns`, `BookingStore`,
  `ClientActions`, `MixedRuns`, `UserLimits`). An update edits an event in place or moves it out of its
  group and divides what is left where time leaves a gap; a deletion collects emptied groups; clients
  cancel and confirm behind a cache of results; a guard limits what one client may book.
- **Local time** (`ZoneConversion`). A wall-clock time becomes an instant by a guess and one correction.
- **Schedules** (`HourFormat`, `Schedule`, `ScheduleEffects`, `ScheduleDays`, `ScheduleCache`,
  `ScheduleRuns`, `ScheduleService`, `WorkerHours`, `TemporaryBlocks`). A pipeline rewrites, cleans up and
  checks each write; readers get a cached fold of the rows; temporary blocks mirror each row into an event
  and a group.
- **Requests and lists** (`Filters`, `FilterMeaning`, `FilterExactness`, `JsonFilters`, `JsonGrouping`,
  `Canonical`, `ClickGuard`, `ClientBookings`). Filters become a `where` tree, JSON becomes a canonical form
  that identifies repeated clicks, and events become booking rows cut into pages.

`Wrappers`, `FiniteSets`, `Sorting`, `Texts`, `Statuses` and `Runs` are shared. `Runs` holds the
inductions over runs that all state machines use.

Each transaction or request is one step over maps of rows, so all claims about runs are about requests
that do not interleave. Rows that the database returns in no given order are listed in an arbitrary
order. New ids come from a counter that stands for a generator that never repeats. Times are integers, in
milliseconds unless a module says otherwise. Where a source class changes its fields the model is a class
(`BookingStore.Store`, `ClientActions.Service`, `UserLimits.Guard`, `ScheduleService.Service`,
`TemporaryBlocks.Service`, `ClickGuard.Guard`, `Assign.SearchState`) whose methods are proved against
functions of the old state; the theorems about runs are about those functions. What these functions do is
also stated without naming them, row by row (`ClientActions.CancelExact`, `BookingRuns.UpdateWritesGiven`,
`ScheduleEffects`, `TimeSlots.RoomExact`, `FilterMeaning` and others).

## What the code does not do

Where a property one might expect is false of the code, the code is modelled as it is, an input that
breaks the property is given, and the exact condition under which it holds is proved.

- Pieces are cut by comparison with the last event, not with the largest end so far, so a long event over
  a short one is cut apart (`TimeSegments.LongEventIsCut`, `TimeSegments.SplitExact`).
- The zone offset is measured from a time printed without milliseconds, so a naive time is converted
  rightly only at 0 ms, or at 500 ms with no jump in the way (`ZoneConversion.ConversionExact`).
- A client with two active rows in one group can be told twice that a cancel or a confirm changed
  something, and of a confirm after a cancel (`ClientActions.TwoRowsCancelTwice`,
  `ClientActions.TwoAcceptedRows`); so it is exactly if the group has an event open for several people
  (`ClientActions.ChangesTwiceExact`). Nothing in the schema forbids two rows.
- A booking past midnight is not counted for the second day when it is made
  (`UserLimits.MidnightBreaksDayLimit`); the day limit holds exactly while the other days that bookings
  reach into have room (`UserLimits.BookDayLimitExact`, `UserLimits.RunDayLimitExact`).
- "HH:mm" text order is time order only while no minute part makes up for an hour: "10:75" is before
  "11:05" (`HourFormat.TextOrderIsTimeOrder`). The format check accepts such texts.
- An add of opening hours that is neither closed nor has both times skips every check
  (`ScheduleDays.AddWellFormedExact`, `ScheduleDays.AddMixesExact`), overlapping drafts are accepted when
  a schedule is generated (`ScheduleDays.OverlappingDrafts`, `ScheduleDays.GenerateWellFormedExact`), and
  an update without the closed flag can move a closed row to an open day (`ScheduleDays.ClosedRowMoved`,
  `ScheduleDays.ClosedRowToMove`, `ScheduleDays.UpdateWellFormedExact`).
- The pipeline takes a body without a user to be about business hours, on the worker routes too, so a
  closing update sent there deletes business rows behind a cached view (`ScheduleCache.WorkerRouteStale`,
  `ScheduleCache.WorkerUpdateCacheExact`).
- What the pipeline deleted stays deleted if the write then fails, as it does for an add without a
  company (`ScheduleCache.AddWithoutCompanyStale`, `ScheduleCache.AddCacheExact`) and for an update that
  closes its row's own weekday (`ScheduleCache.CloseOwnDayFails`, `ScheduleCache.FailedCloseCacheExact`);
  the cache entry stays too. An update drops only the entry of the workspace it names
  (`ScheduleCache.MovedWorkspaceStale`, `ScheduleCache.RowToGiveAway`,
  `ScheduleCache.OmittedWorkspaceExact`). Exactly when views stay true is
  `ScheduleCache.UpdateCacheExact`, and over runs `ScheduleRuns.RunCacheExact`.
- A deletion leaves the window of a group as it was, so it is exact only while the events at its ends
  remain (`BookingRuns.DeleteWindowsExact`, `BookingRuns.RunWindowsExact`).
- A window that begins only at the last start of the day is skipped for a chain
  (`Availability.LastStartMissed`, `Availability.CandidatesExact`), and a group service is offered across
  its own bookings (`TimeSlots.OfferedAcross`); exactly what is offered is `TimeSlots.AvailableStarts`.
- The fold of worker hours depends on the row order on a day that mixes closed and open rows
  (`WorkerHours.OrderFreeIffUnmixed`).
- Moving a temporary block to another worker leaves the cache entry of the first
  (`TemporaryBlocks.UpdateCacheExact`).
- Related min_ and max_ filters become one equality (`Filters.RelatedRangeLost`,
  `FilterExactness.RangeExact`), and filters of one to-many relation with "some" must be met by a single
  record (`Filters.SomeNeedsOneRecord`). What the tree asks of any row is `Filters.TreeExact`; when that
  is the conjunction of the filters is `FilterExactness.ConjunctionExact`.
- JSON paths of two columns, or with dots, can be taken for one another (`JsonFilters.ColumnsShareText`,
  `JsonFilters.SharedTexts`); over rows made of documents it matters exactly as
  `JsonGrouping.GroupingExact` says.
- A field named `__proto__` is not part of the canonical form (`Canonical.ProtoIsLost`).
- Past bookings beyond page 999 cannot be reached (`ClientBookings.PastPagesExact`).
- A window test ignores seconds, so a slot may overrun a window inside the minute in which it ends
  (`Windows.AcceptedOverrun`, `Windows.WindowContainsExact`).

## Model

| member | source | states |
|---|---|---|
| Windows.SubtractBusyFromShift | src/services/@database/event/availability-special.service.ts:207-230 | The sweep returns exactly the points of the shift that lie in no busy interval, as non-empty, sorted windows with a gap between any two, for every shift and every busy list. |
| Windows.CanonicalUnique | src/services/@database/event/availability-special.service.ts:207-250 | Two such window lists with the same points are the same list, so the two contracts above and below have one answer each. |
| Windows.SubtractIgnoresPresentation | src/services/@database/event/availability-special.service.ts:212-218 | Busy lists that cover the same points of the shift, however they cut, repeat or overlap that time, leave the same free windows. |
| Windows.FreePlusBusyIsShift | src/services/@database/event/availability-special.service.ts:207-230 | The length of the free windows plus the number of busy instants inside the shift is the length of the shift. |
| Windows.MergeTouchingWindows | src/services/@database/event/availability-special.service.ts:232-250 | For any input the result is strictly separated, and a strictly separated input comes back unchanged (so merging is idempotent); windows that do not end before they start keep exactly their points. |
| Windows.WindowContainsExact | src/services/@database/event/availability-special.service.ts:253-263 | A window accepts a slot iff each end is inside it or, outside, in the same minute as the end it passes; so the test is right iff no end overruns inside its own minute, and no accepted slot overruns by a minute. |
| Windows.AcceptedOverrun | src/services/@database/event/availability-special.service.ts:253-263 | A slot that overruns its window inside the last minute and is accepted. |
| Windows.FreeWindows | src/services/@database/event/event-times.service.ts:765-785 | The loop of one user (clamp each shift to now, subtract, merge) returns the canonical windows of exactly the points that are in some clamped shift and in no busy interval. |
| Windows.FreeWindowsAligned | src/services/@database/event/event-times.service.ts:768-785 | Minute-aligned shifts, busy intervals and clamp give minute-aligned windows. |
| Windows.SlotTestExact | src/services/@database/event/availability-special.service.ts:253-263 | For minute-aligned data some free window accepts the slot from a to b iff every instant of it is in the union of the shifts and in no busy interval: testing windows one at a time loses no slot and admits no clash. |
| Assign.SegmentsConsecutive | src/services/@database/event/availability-special.service.ts:281-285 | The first service of a chain starts at the start asked for, each is as long as its service takes, and each starts where the one before it ends. |
| Assign.AssignSequentially | src/services/@database/event/availability-special.service.ts:277-323 | True iff some choice of eligible, free, non-clashing users exists for all remaining services; then the appended entries are such a choice, the first in trial order, one per service; on false both shared arrays are as on entry. |
| Assign.QuietNeverConflicts | src/services/@database/event/availability-special.service.ts:302-310 | With non-negative durations, and every used entry over by the start of the segment, the conflict test does not fire, and the entry then pushed keeps it so for the next depth. |
| Assign.BacktrackingIsGreedy | src/services/@database/event/availability-special.service.ts:277-323 | From such a state the search succeeds iff every service has a fitting user on its own, and its answer is the first fitting user of each: nothing is ever undone. |
| Availability.SearchExact | src/services/@database/event/availability-special.service.ts:277-323 | For minute-aligned shifts, events and start the search succeeds iff every service has an eligible user who is at work and not busy at every instant of its segment: windows, merging and clashes never cost a slot. |
| Availability.ServedExact | src/services/@database/event/availability-special.service.ts:277-323 | A service of a chain is served iff somebody who may perform it is at work and not busy at every instant of its time, which begins the minutes of the earlier services after the start. |
| Availability.ServedHasWindow | src/services/@database/event/event-times.service.ts:787-797 | A service that can be served at some start has a window the quick test looks for, so that test ends no search that would find a start. |
| DayGrid.CollectPoints | src/services/@database/event/event-times.service.ts:900-925 | The loops over the windows collect, each once, exactly the grid points from the start of a window, or of the day, to its end or the last start, of every window that begins before the last start. |
| DayGrid.CeilIsFirst | src/services/@database/event/availability-special.service.ts:426-440 | From a whole minute of the day on, the aligned time is the first point of the grid. |
| Availability.CandidatesExact | src/services/@database/event/event-times.service.ts:906-925 | Of the starts at which every service is served exactly those on the grid up to the last start are candidates, but the last start itself only if someone for the first service is also free just before it. |
| Availability.ChainStarts | src/services/@database/event/event-times.service.ts:787-970 | The candidates of a chain are laid out, sorted, held against the booking window and searched: the starts returned are exactly those grid points at which the chain fits the day and every service is so served (the exception at the last start included), ascending and each once. |
| Availability.LastStartMissed | src/services/@database/event/event-times.service.ts:911-916 | A start that is served and not offered: its window begins only at the last start of the day. |
| TimeSlots.SingleStarts | src/services/@database/event/event-times.service.ts:799-898 | The starts of a single service are exactly the grid points of the day inside the booking window that some user serves, as said next, ascending and each once. |
| TimeSlots.ServesExact | src/services/@database/event/event-times.service.ts:799-880 | A user serves a start iff eligible, open for the whole service (at work and not busy, or in a booking of the group service itself) and, if the service is for several people, the slot is not full. |
| TimeSlots.RoomExact | src/services/@database/event/event-times.service.ts:868-874 | Full means: of the listed bookings with the user and the minutes of the slot, the last has no place left or holds the client already. A service for one person always has room. |
| TimeSlots.FullNotOffered | src/services/@database/event/event-times.service.ts:868-874 | A start at which everybody who may perform the service is not open throughout, or has the slot full, is not offered. |
| TimeSlots.AvailableStarts | src/services/@database/event/event-times.service.ts:787-970 | The starts returned are exactly those offered to the request, be it none, one service or a chain, ascending and each once. |
| TimeSlots.OfferedAcross | src/services/@database/event/event-times.service.ts:844-880 | A group service booked at ten is offered at half past nine, across the first half of that booking. |
| TimeSlots.SingleNeverAcross | src/services/@database/event/event-times.service.ts:844-880 | A service for one person is served only where its user is free throughout. |
| TimeSegments.SplitByTimeContinuity | src/services/@database/event/update-event-by-id.service.ts:93-115 | The loop computes the specified pieces of the events sorted by start. |
| TimeSegments.SegmentsPartition | src/services/@database/event/update-event-by-id.service.ts:93-115 | Laid end to end the pieces are the sorted events, none is empty, and none has a gap inside. |
| TimeSegments.SplitExact | src/services/@database/event/update-event-by-id.service.ts:102-112 | The pieces are the maximal gap-free runs, every later one starting strictly after every earlier end, iff at each gap seen after the previous event all earlier events have ended too. |
| TimeSegments.EndsAscendSplit | src/services/@database/event/update-event-by-id.service.ts:93-115 | If ends never decrease in start order the pieces are always those runs. |
| TimeSegments.LongEventIsCut | src/services/@database/event/update-event-by-id.service.ts:102-105 | A long event over a short one: the comparison with the last event cuts what the long one joins. |
| TimeSegments.ComponentsUnique | src/services/@database/event/update-event-by-id.service.ts:93-115 | At most one division of a sequence consists of its maximal gap-free runs. |
| TimeSegments.GetSegmentBounds | src/services/@database/event/update-event-by-id.service.ts:117-124 | The first start and the largest end of a piece. |
| BookingStore.Store.CloneGroupWithParticipants | src/services/@database/event/update-event-by-id.service.ts:126-160 | One new group with the given window and details, one new row per live participant, and nothing else changed. |
| BookingProofs.CloneCounts | src/services/@database/event/update-event-by-id.service.ts:142-157 | A clone holds each person exactly as often as the list, and every other group keeps its people. |
| BookingModel.HeadCountExact | src/services/@database/event/update-event-by-id.service.ts:142-157 | How often a group holds a person is the number of its rows that name the person and are not deleted. |
| BookingStore.Store.SyncGroupWindow | src/services/@database/event/update-event-by-id.service.ts:162-182 | The window becomes the least start and largest end of the active events, each of which it covers and two of which attain it; without active events nothing changes and the answer says so. |
| BookingStore.Store.EditEvent | src/services/@database/event/update-event-by-id.service.ts:244-262 | A single edit writes the given fields of the target and gives its group the exact window. |
| BookingStore.Store.MoveRows | src/services/@database/event/update-event-by-id.service.ts:264-330 | The moving part of the transaction leaves exactly the specified tables, whatever order the store lists rows in. |
| BookingStore.Store.Divide | src/services/@database/event/update-event-by-id.service.ts:290-330 | The first piece keeps the old group and gives it its window; each further piece goes to a clone of its own. |
| BookingProofs.MoveCorrect | src/services/@database/event/update-event-by-id.service.ts:264-330 | A move loses and makes no event, changes only the group of the others and only if they shared the target's group, puts each piece alone in its group, gives every group involved its exact window and copies the live participants to every new group. |
| BookingStore.Store.MoveEvent | src/services/@database/event/update-event-by-id.service.ts:264-351 | The same stated of the stateful method, with the report it returns: exactly the old group and the new ones count as affected. |
| BookingStore.Store.UpdateEventById | src/services/@database/event/update-event-by-id.service.ts:184-356 | Every error leaves the tables untouched. Success is an edit or move step of the runs below: every given attribute and time is the event's afterwards, every other one is as before, and no other appears. The report tells how many services the old group had, whether it was split and into which new groups, whether the moved event was its last, where the event is now, and which groups are affected. |
| BookingModel.RefusalExact | src/services/@database/event/update-event-by-id.service.ts:184-270 | Which update is refused with which error: the first reason that applies, reason by reason in terms of the request and the tables. |
| BookingRuns.UpdateWritesGiven | src/services/@database/event/update-event-by-id.service.ts:67-89 | In every edit or move of a run that is not refused the given fields are written into the event named, its other fields, rule and deletion mark stay, and it is in its old group after an edit and in the new one after a move. |
| BookingStore.Store.DeleteEvent | src/features/event-platform/services/event-platform.command.service.ts:122-178 | A deletion is a step of the runs below: exactly the listed events go, exactly the groups they empty with their participants, exactly the rules nothing uses any more, and nothing that stays is changed. |
| BookingRuns.DeleteExact | src/features/event-platform/services/event-platform.command.service.ts:145-173 | A group goes iff it held a deleted event and holds none afterwards, a participant iff its group goes, a rule iff a deleted event used it and no remaining one does; all else stays as it was. |
| BookingRuns.MoveLeavesOthers | src/services/@database/event/update-event-by-id.service.ts:264-351 | A move changes nothing about the active events of any other group. |
| BookingRuns.MovePeopleFollow | src/services/@database/event/update-event-by-id.service.ts:126-160 | Wherever a move puts an event, the same people are with it as before. |
| BookingRuns.StepKeeps | src/services/@database/event/update-event-by-id.service.ts:201-351 | Any step keeps all references resolved and all windows right, changes the fields of the addressed event only, and keeps the people of every surviving event. |
| BookingRuns.RunSafe | src/features/event-platform/services/event-platform.command.service.ts:122-178 | Over any run of edits, moves and deletions no event or participant points at a missing group, no event at a missing rule, every window covers its active events, and exactly the events named by a deletion are gone. |
| BookingRuns.UpdateRunExact | src/services/@database/event/update-event-by-id.service.ts:184-356 | Over any run of updates alone every group with active events keeps exactly the window from their least start to their largest end, and no event is lost or made. |
| BookingRuns.DeleteWindowsExact | src/features/event-platform/services/event-platform.command.service.ts:122-178 | A deletion keeps the exact windows iff in every group that keeps an active event some event that stays still starts with the window and some still ends with it. |
| BookingRuns.RunWindowsExact | src/features/event-platform/services/event-platform.command.service.ts:122-178 | Over any run of edits, moves and deletions windows are exact all along iff every deletion leaves the ends of the windows still used. |
| ClientActions.Service.CancelEventFromWeb | src/features/event-client/services/event-client.command.service.ts:200-374 | A cancel answers from the cache if it can, fails without change if the event is not the client's, and otherwise changes exactly the specified row, group or removed booking and remembers its answer. |
| ClientActions.Service.ConfirmEventFromWeb | src/features/event-client/services/event-client.command.service.ts:379-535 | The same for a confirm; an answer is remembered only for a booking that is confirmed. |
| ClientActions.RequestExact | src/features/event-client/services/event-client.command.service.ts:213-300 | A request is answered from the cache and changes nothing, or fails and changes nothing if the event is not reachable for the client, or works on a live row. |
| ClientActions.WorkExact | src/features/event-client/services/event-client.command.service.ts:200-535 | That row is one of the client's in the group of the event; of the cache at most the entry of the request changes, and it does if something else did. |
| ClientActions.CancelExact | src/features/event-client/services/event-client.command.service.ts:302-374 | A cancel changes something iff neither group nor row is cancelled. Through an event for one person it cancels row and group; through one for several the group with all its events and rows goes iff every other live row of the group, of whatever client, is cancelled by its client, and otherwise the acting row alone changes. |
| ClientActions.ConfirmExact | src/features/event-client/services/event-client.command.service.ts:379-535 | A confirm changes something iff group and row are both accepted; it confirms the row, and the group too for one person, and an unchanged answer is remembered iff what it speaks of is confirmed already. |
| ClientActions.RunForward | src/features/event-client/services/event-client.command.service.ts:200-535 | Over any run, entries expiring at any moment, rows stay where they are, no status goes back, and cancelled participants and groups never become un-cancelled. |
| ClientActions.RunCacheTrue | src/features/event-client/services/event-client.command.service.ts:213-223 | In every run every live cancel entry refers to a cancelled participant of the client, a cancelled group or a removed event. |
| ClientActions.ChangesOncePerRow | src/features/event-client/services/event-client.command.service.ts:200-535 | Two uncached changed answers about one participant row can only be a confirm and later a cancel. |
| ClientActions.ChangesOncePerClient | src/features/event-client/services/event-client.command.service.ts:200-535 | The same per client and group, whichever events of the group are named, unless the client starts with two active rows in the group and one of its events is open for several people. |
| ClientActions.TwoAcceptedRows | src/features/event-client/services/event-client.command.service.ts:379-535 | With two accepted rows in such a group a client is told of a change by a second confirm, be the first change a confirm or a cancel. |
| ClientActions.ChangesTwiceExact | src/features/event-client/services/event-client.command.service.ts:200-535 | Some run tells a client of two changes in a group other than a confirm and then a cancel iff the client has two active rows there and one of its events is open for several people. |
| MixedRuns.MixedRunSafe | src/features/event-client/services/event-client.command.service.ts:200-535 | Over any run that mixes cancels, confirms and expiries with edits, moves and deletions no reference dangles, every window covers its active events and every remembered cancellation is still visible wherever its event was moved; no event appears, and one is lost iff a deletion names it or a changed cancel through an event for several people comes after everybody else in its booking has cancelled. |
| MixedRuns.MixedWindowsExact | src/features/event-platform/services/event-platform.command.service.ts:122-178 | In such runs windows are exact all along iff every deletion leaves the ends of the windows still used: clients never break one. |
| UserLimits.Guard.CountBookings | src/middlewares/booiking-guard/booking-guard.middleware.ts:1726-1788 | The number of distinct active groups of the client that meet the time, however many rows they have. |
| UserLimits.Guard.EnforceUserLimits | src/middlewares/booiking-guard/booking-guard.middleware.ts:1604-1877 | The decision of the guard, check by check in their order. |
| UserLimits.DecideExact | src/middlewares/booiking-guard/booking-guard.middleware.ts:1604-1877 | Too many services are refused first; without a client or a time the request goes on; otherwise it goes on iff no limit is reached, and the answer names every limit that is, with count and limit, the daily one first. |
| UserLimits.BookingsExact | src/middlewares/booiking-guard/booking-guard.middleware.ts:1726-1788 | What is counted: a group that is neither deleted nor cancelled, meets the time and has a live row of the client. |
| UserLimits.PassesIff | src/middlewares/booiking-guard/booking-guard.middleware.ts:1636-1854 | A booking passes iff its services, the day's bookings and the overlapping bookings are each within their limit, a limit of zero or none being no limit. |
| UserLimits.BookDayLimitExact | src/middlewares/booiking-guard/booking-guard.middleware.ts:1726-1788 | A booking that the guard lets pass keeps the day limit iff every other day it reaches into still has room. |
| UserLimits.RunDayLimitExact | src/middlewares/booiking-guard/booking-guard.middleware.ts:1726-1788 | Over any run of guarded bookings, cancellations and removals the day limit holds all along iff every booking that passes leaves room on the other days it reaches into. |
| UserLimits.RunDayLimit | src/middlewares/booiking-guard/booking-guard.middleware.ts:1726-1788 | So no client ever has more than the limit on a day if bookings end by midnight, however many services or rows they have. |
| UserLimits.RunConcurrentLimit | src/middlewares/booiking-guard/booking-guard.middleware.ts:1791-1854 | Over any such run, across midnight or not, no client ever has more than the limit under way at one instant. |
| UserLimits.MidnightBreaksDayLimit | src/middlewares/booiking-guard/booking-guard.middleware.ts:1726-1788 | On any day of any calendar with days of at least twenty hours two bookings, one past midnight, pass the guard and put two on a day limited to one. |
| ZoneConversion.ZonedNaiveToUtc | src/models/notification/util/simple-build.ts:178-236 | The two passes compute the specified instant. |
| ZoneConversion.WholeSecondConversion | src/models/notification/util/simple-build.ts:178-236 | For whole-second times and a zone with at most one jump nearby, the result shows the local time iff that time exists; a skipped time is missed by exactly the width of the jump. |
| ZoneConversion.RepeatedHourChoice | src/models/notification/util/simple-build.ts:225-235 | Which of the two instants of a repeated hour is returned. |
| ZoneConversion.FirstPassDrift | src/models/notification/util/simple-build.ts:200-224 | The offset is measured from a printed time without milliseconds, so the first pass lands off by the milliseconds and the second by twice their number, modulo a second. |
| ZoneConversion.MillisecondsNeverRight | src/models/notification/util/simple-build.ts:178-236 | A time whose milliseconds are neither 0 nor 500 is never converted correctly, in any zone. |
| ZoneConversion.HalfSecondConversion | src/models/notification/util/simple-build.ts:178-236 | At 500 ms the conversion is right iff the local time exists and no jump of the harmful direction lies in the half second overshot. |
| ZoneConversion.ConversionExact | src/models/notification/util/simple-build.ts:178-236 | For every millisecond, exactly when the conversion is right. |
| HourFormat.NormalForm | src/features/business-hour/services/business-hour.service.ts:278-289 | The conversion yields two digits, a colon, two digits, leaves such a text alone, and is idempotent. |
| HourFormat.ReadExact | src/features/business-hour/services/business-hour.service.ts:278-289 | A text is read as a time iff, between blanks, it spells that time: one or two digits, a colon, two digits, and seconds or not. |
| HourFormat.IsoExact | src/middlewares/business-hour/business-hour.middleware.ts:187-204 | A text is taken for an ISO text iff it is four digits, two and two with hyphens between, a T, and anything. |
| HourFormat.OtherSpellings | src/features/worker-business-hour/services/worker-business-hour.service.ts:263-274 | A one-digit hour is padded, seconds are dropped, and spaces around the text do not matter. |
| HourFormat.ReadTimeNormal | src/middlewares/business-hour/business-hour.middleware.ts:187-204 | What requests give as a time is read as its normal form; an ISO text that names an instant is read as its minute of the UTC day, and one that names none is refused. |
| HourFormat.TextOrderIsTimeOrder | src/features/business-hour/services/business-hour.service.ts:299-309 | The database's text order on normal forms is time order iff no surplus of minutes makes up for the hours between; with minutes below 60 it always is, and a pair is named where it is not. |
| ScheduleService.Service.ConvertTimes | src/middlewares/business-hour/business-hour.middleware.ts:219-265 | A closed body loses both times, given times become what they are read as, owner, weekday and flag stay, and the request ends with the format error iff a given time cannot be read. |
| ScheduleEffects.PipelineEffect | src/middlewares/business-hour/business-hour.middleware.ts:219-383 | What the pipeline does, row by row: an unreadable body changes nothing, otherwise exactly the rows of the owner and weekday go that the body is about (all if it closes, the closed ones if it gives both times), in its own table, and only then does an overlap end the request; one that goes on carries the times as read. |
| ScheduleService.Service.PreventOverlapping | src/middlewares/business-hour/business-hour.middleware.ts:323-383 | Third part: refuses iff some other open row of the day, in the table that the body is about, overlaps the range. |
| ScheduleService.Service.AddBusinessHour | src/features/business-hour/controllers/business-hour.controller.ts:32-48 | An add, with what a refused one, or one whose write fails, has already deleted. |
| ScheduleService.Service.AddWorkerBusinessHour | src/features/worker-business-hour/services/worker-business-hour.service.ts:17-29 | The same for worker hours, which touches no workspace entry. |
| ScheduleEffects.AddEffect | src/features/business-hour/controllers/business-hour.controller.ts:32-48 | An add on either route is done iff it is not refused, the body has what a row needs and the id is free once the rows it takes are gone; then one row more is there, with what was given, and otherwise only those rows are gone. |
| ScheduleService.Service.UpdateBusinessHour | src/features/business-hour/controllers/business-hour.controller.ts:92-111 | An update of one business row: the body decides what is cleaned up and checked, the route what is written. |
| ScheduleService.Service.UpdateWorkerBusinessHour | src/features/worker-business-hour/services/worker-business-hour.service.ts:112-162 | The same for a worker row, or a new row if none matches the user and weekday that the body names. |
| ScheduleEffects.UpdateEffect | src/features/business-hour/controllers/business-hour.controller.ts:92-111 | An update on either route is done iff it is not refused and its row outlives the clean-up, or a new worker row can be made; then that row has the given fields and its other ones as before, and nothing else is written. |
| ScheduleService.Service.DeleteBusinessHour | src/features/business-hour/services/business-hour.service.ts:186-213 | The pipeline on whatever else the body holds, then the rows and the cache entry of every workspace that still had one go, as said of deletions below. |
| ScheduleService.Service.DeleteWorkerBusinessHour | src/features/worker-business-hour/services/worker-business-hour.service.ts:166-179 | The same for worker rows, without the cache. |
| ScheduleEffects.DeleteEffect | src/features/business-hour/services/business-hour.service.ts:186-213 | After a deletion on either route a row of either table is there iff it was, the clean-up for the body leaves it, and it is not a listed row of the route's own table; rows that stay are unchanged, the entries of exactly the workspaces that lose a listed row go, and a refused deletion removes no row for being listed. |
| ScheduleService.Service.GenerateWorkspaceBusinessHours | src/features/business-hour/services/business-hour.service.ts:359-445 | Creates the given or the default schedule iff the workspace has no rows, all of it or nothing, and drops the cache entry. |
| ScheduleEffects.GenerateEffect | src/features/business-hour/services/business-hour.service.ts:359-445 | Generating is done iff company and workspace are given and the workspace has rows already or every draft can become a row and no day is mixed; if it is not done, or the workspace has rows, no row changes. |
| ScheduleEffects.GeneratedRows | src/features/business-hour/services/business-hour.service.ts:414-439 | The rows added are one for each draft, under new ids, each with what its draft gives; the rows that were there stay as they are. |
| ScheduleEffects.GenerateDefault | src/features/business-hour/services/business-hour.service.ts:394-412 | Without drafts twelve rows: MONDAY to FRIDAY 09:00-13:00 and 15:00-20:00, SATURDAY 10:00-14:00, SUNDAY closed. |
| ScheduleService.Service.GetBusinessHours | src/features/business-hour/services/business-hour.service.ts:322-356 | A cached view unchanged, or the fold over the rows in any order, which is then cached. |
| ScheduleDays.NormalizeSound | src/features/business-hour/services/business-hour.service.ts:15-103 | Accepted drafts become one row each, in order, with normal increasing times unless closed. |
| ScheduleDays.DefaultApart | src/features/business-hour/services/business-hour.service.ts:394-412 | The default schedule has proper times, mixes no day and keeps its ranges apart. |
| ScheduleDays.GenerateWellFormedExact | src/features/business-hour/services/business-hour.service.ts:359-445 | Generating keeps a well-formed schedule well formed iff the workspace already has rows, the drafts are refused, or no two open drafts of one day overlap. |
| ScheduleDays.TwoDraftsAccepted | src/features/business-hour/services/business-hour.service.ts:15-103 | Two accepted open drafts are accepted together wherever their ranges lie, and break the schedule if they overlap. |
| ScheduleDays.OverlappingDrafts | src/features/business-hour/services/business-hour.service.ts:15-103 | Such a pair: MONDAY 09:00-12:00 and 10:00-13:00. |
| ScheduleDays.UpdateWellFormedExact | src/middlewares/business-hour/business-hour.middleware.ts:219-383 | On either route and for any body an update keeps every day well formed (no mixture of closed and open rows, no overlap) iff it is not written; or the pipeline has cleaned up and checked the table written and the body closes the day, or gives both times and does not leave the row closed beside another open one; or nothing was checked and the row with the given fields fits its stored day. The condition speaks of the request and the stored rows only. |
| ScheduleDays.ClearUpdateKeepsDays | src/middlewares/business-hour/business-hour.middleware.ts:219-383 | So an update for the table it is sent to that closes the day, or gives both times and says that it is open, never breaks a day, whatever else it leaves out. |
| ScheduleDays.ClosedRowMoved | src/middlewares/business-hour/business-hour.middleware.ts:219-383 | An update that gives a closed row the times of another day with an open row, without the flag, is done and leaves that day mixed. |
| ScheduleDays.ClosedRowToMove | src/middlewares/business-hour/business-hour.middleware.ts:219-383 | Such a request: a worker closed on MONDAY with TUESDAY 09:00-10:00, and the MONDAY row given TUESDAY 11:00-12:00. |
| ScheduleDays.RangesDisjoint | src/features/business-hour/services/business-hour.service.ts:292-317 | In a well-formed schedule whose times have minutes below 60 no minute of a day lies in two open ranges. |
| ScheduleDays.AddWellFormedExact | src/middlewares/business-hour/business-hour.middleware.ts:219-383 | On either route an add keeps every day well formed iff it closes the day or gives both times, or the database refuses the row: a missing column, a field the table has not, a time longer than its column, or a taken id. |
| ScheduleDays.AddMixesExact | src/middlewares/business-hour/business-hour.middleware.ts:270-316 | It leaves a day mixed iff it is written unchecked on a closed day. |
| ScheduleRuns.RunWellFormed | src/middlewares/business-hour/business-hour.middleware.ts:219-383 | Over any run of adds, updates and deletions on both routes, generations, reads and expiries every day of every workspace and worker is well formed all along iff each add, update and generation meets its condition above on the rows it finds. |
| ScheduleCache.FoldShows | src/features/business-hour/services/business-hour.service.ts:336-349 | Whatever the row order, the fold shows the open rows of the workspace, each range as often as it is stored, under its weekday. |
| ScheduleCache.ShowsUnique | src/features/business-hour/services/business-hour.service.ts:336-349 | Two views that show the same rows are equal up to the order of the ranges of a day. |
| ScheduleCache.AddCacheExact | src/features/business-hour/controllers/business-hour.controller.ts:32-48 | An add keeps every cached view in agreement with the rows iff it is written or closes no day of which a cached view shows a range: the failing write of a closing add is the only harm. |
| ScheduleCache.AddWithoutCompanyStale | src/features/business-hour/controllers/business-hour.controller.ts:32-48 | Such an add: a workspace closes a weekday and names no company; the clean-up deletes the rows, the create fails, and the entry stays. |
| ScheduleCache.UpdateCacheExact | src/features/business-hour/controllers/business-hour.controller.ts:92-111 | On either route and for any body the cache agrees after an update iff each view whose entry is not dropped is left as it is: the body closes none of the open rows it shows, and the row written shows its readers the same before and after. Told from the request and the stored rows. |
| ScheduleCache.UpdateKeepsCache | src/features/business-hour/controllers/business-hour.controller.ts:92-111 | So updates that carry their row's workspace keep it in agreement, unless they fail after closing the day. |
| ScheduleCache.OmittedWorkspaceExact | src/features/business-hour/controllers/business-hour.controller.ts:92-111 | An update that is written, closes nothing and leaves the workspace out keeps the cache true iff the workspace of its row is not cached or the row with the given fields shows its readers the same. |
| ScheduleCache.MovedWorkspaceStale | src/features/business-hour/controllers/business-hour.controller.ts:92-111 | An update that hands an open row to another workspace leaves a stale view of the first. |
| ScheduleCache.RowToGiveAway | src/features/business-hour/controllers/business-hour.controller.ts:92-111 | Such a request, with the view just read. |
| ScheduleCache.WorkerUpdateCacheExact | src/middlewares/business-hour/business-hour.middleware.ts:270-316 | A worker update leaves every workspace view true iff it closes no business row that one shows; with a user in the body it never does. |
| ScheduleCache.WorkerRouteStale | src/middlewares/business-hour/business-hour.middleware.ts:283-287 | A closing body without a user, sent to the worker route, deletes the open business rows of the workspace that day and leaves its view. |
| ScheduleCache.DeleteCacheExact | src/features/business-hour/controllers/business-hour.controller.ts:113-126 | A deletion keeps the cache true iff each cached workspace that its body closes also has a listed row that the clean-up left. |
| ScheduleCache.CloseOwnDayFails | src/middlewares/business-hour/business-hour.middleware.ts:270-316 | Closing a business row's own weekday by update always fails: the pipeline has deleted the row by then. |
| ScheduleCache.FailedCloseCacheExact | src/middlewares/business-hour/business-hour.middleware.ts:270-316 | After a closing update that is not written, on either route, the cache still agrees iff it closed nothing that a cached view shows. |
| ScheduleRuns.RunCacheExact | src/features/business-hour/controllers/business-hour.controller.ts:32-126 | Over any run of adds, updates and deletions on both routes, refused and failing ones included, generations, reads and expiries every cached view agrees all along iff each add, update and deletion meets its condition above on the rows it finds. |
| ScheduleRuns.AgreesIsFreshFold | src/features/business-hour/services/business-hour.service.ts:322-356 | A view that agrees equals, up to the order of ranges, what a fresh fold over the rows in any order builds. |
| WorkerHours.GetWorkerHours | src/features/worker-business-hour/services/worker-business-hour.service.ts:304-347 | The fold of a worker's rows on a cache miss. |
| WorkerHours.UnmixedDay | src/features/worker-business-hour/services/worker-business-hour.service.ts:325-341 | On a day that does not mix, the view is closed, or all open ranges in row order, or absent, as the rows say. |
| WorkerHours.MixedDay | src/features/worker-business-hour/services/worker-business-hour.service.ts:325-341 | On any day, mixed or not, what stands is the open ranges after the last closed row, in row order, and the day is closed if there are none. |
| WorkerHours.LastRowDecides | src/features/worker-business-hour/services/worker-business-hour.service.ts:325-341 | On any day the last row alone decides whether the view is closed. |
| WorkerHours.OrderFreeIffUnmixed | src/features/worker-business-hour/services/worker-business-hour.service.ts:304-347 | The view of a day is independent of the row order iff the day does not mix closed and open rows. |
| TemporaryBlocks.RangeProper | src/features/temporary-business-hour/services/temporary-business-hour.service.ts:48-72 | A block starts before it ends; it is the whole local day iff it is closed, lacks a readable time or has them out of order, and the two times otherwise. |
| TemporaryBlocks.TimeNamed | src/features/temporary-business-hour/services/temporary-business-hour.service.ts:18-46 | Which instant a text names: none if missing or blank, an ISO text what it says, a time of day up to 23:59 or 24:00 that minute of the local day, and no other text any. |
| TemporaryBlocks.Service.AddTemporaryBusinessHour | src/features/temporary-business-hour/services/temporary-business-hour.service.ts:203-224 | An add, all of it or nothing, and the cache entry of its worker gone. |
| TemporaryBlocks.AddEffect | src/features/temporary-business-hour/services/temporary-business-hour.service.ts:74-224 | An add is done iff company and workspace are given and both times fit; the row is stored as given with a new event that shows it in a new group, and all else is as before. |
| TemporaryBlocks.Service.UpdateTemporaryBusinessHour | src/features/temporary-business-hour/services/temporary-business-hour.service.ts:367-427 | An update changes a row with the named event, that event and its group, or fails and changes nothing. |
| TemporaryBlocks.PatchEffect | src/features/temporary-business-hour/services/temporary-business-hour.service.ts:226-427 | The row keeps its owner and event and takes each field given, null included; its event and group come to show it, and all else is as before. |
| TemporaryBlocks.UpdateEffect | src/features/temporary-business-hour/services/temporary-business-hour.service.ts:367-427 | An update that is done so changes a row with the named event, and one that names none fails. |
| TemporaryBlocks.Service.RowsForDeletion | src/features/temporary-business-hour/services/temporary-business-hour.service.ts:777-822 | All rows that share user, workspace and local day with a listed row of the workspace. |
| TemporaryBlocks.Service.DeleteTemporaryBusinessHour | src/features/temporary-business-hour/services/temporary-business-hour.service.ts:825-855 | Cache entries, rows, events and groups, in that order, leave exactly the specified state. |
| TemporaryBlocks.RunMirrored | src/features/temporary-business-hour/services/temporary-business-hour.service.ts:203-427 | In every state of every run of adds, updates and deletes each row has an event of its own, alone in its group, with exactly the range, title and user of the row, in a group with exactly that window, never empty. |
| TemporaryBlocks.DeleteExact | src/features/temporary-business-hour/services/temporary-business-hour.service.ts:777-855 | A delete removes the listed rows and their classes, classes whole or not at all, with exactly their events and groups; every other row, event and group is as before. |
| TemporaryBlocks.PairExact | src/features/temporary-business-hour/services/temporary-business-hour.service.ts:830-837 | A user and workspace joined by two underscores come apart into themselves iff neither contains that separator and the user does not end in an underscore. |
| TemporaryBlocks.DeleteClearsCache | src/features/temporary-business-hour/services/temporary-business-hour.service.ts:830-837 | With such ids a delete drops the entries of exactly the workers and workspaces that lose a row. |
| TemporaryBlocks.UpdateCacheExact | src/features/temporary-business-hour/controllers/temporary-business-hour.controller.ts:163-184 | An update drops the entry of the worker and workspace the row then has; the entry of those it had, moved to another worker or to none, goes iff they are the same. |
| Filters.MergeDeep | src/utils/get-genetic/getGenetic.ts:208-226 | The loop over the source's keys computes the specified merged object, nothing and falsy values giving way to an object. |
| Filters.MergeChain | src/utils/get-genetic/getGenetic.ts:208-226 | Merging a chain of single-key objects sets the one value at the end of its path and nothing else. |
| Filters.MergeExact | src/utils/get-genetic/getGenetic.ts:208-226 | Key by key: what the merged object holds is the source's value, or an object merged into the target's, where nothing and falsy values count as empty; keys of the target alone keep theirs. |
| Filters.MergeableExact | src/utils/get-genetic/getGenetic.ts:208-226 | Two objects can be merged iff at no path the source has an object where the target has a value other than nothing, null, false, zero or the empty text. |
| Filters.ProcessFilters | src/utils/get-genetic/getGenetic.ts:131-206 | The loop builds the tree that has each operand at its filter's target, in the order given. |
| FilterMeaning.AsksExact | src/utils/get-genetic/getGenetic.ts:141-203 | With the operators in the database's meaning, a filter as compiled accepts a row iff the row has what it asks for: a member of the list; a text that contains the given one, if the field is no enumeration and its name does not end in "Type"; otherwise an equal value; for an unrelated min_ or max_ a number on the right side of the bound. |
| FilterMeaning.RequestSound | src/utils/get-genetic/getGenetic.ts:131-206 | Whatever the relation types and however many records, a row that the database returns for the compiled tree is what every filter asks for that no later one replaces. |
| FilterMeaning.RequestExact | src/utils/get-genetic/getGenetic.ts:131-206 | With at most one record behind each link, or with "every", the rows returned are exactly those. |
| FilterMeaning.PartOfName | src/utils/get-genetic/getGenetic.ts:157-168 | A search for "ana" finds "Mariana", and as an enumeration value does not. |
| Filters.WinnerAt | src/utils/get-genetic/getGenetic.ts:172-202 | At a target stands the operand of the last filter that has it. |
| Filters.FiltersSound | src/utils/get-genetic/getGenetic.ts:131-206 | Whatever the relation types, a row that passes the tree passes every filter no later one replaces. |
| Filters.TreeExact | src/utils/get-genetic/getGenetic.ts:131-226 | For every row, however many records its links hold: it passes the tree iff it meets the winning filters together, where at each link step that filters share one record, or with "every" each, meets all that come through it. |
| Filters.FiltersExact | src/utils/get-genetic/getGenetic.ts:131-206 | So with at most one record behind each link, or with "every", the tree passes exactly the rows that pass all those filters. |
| FilterExactness.ConjunctionIfApart | src/utils/get-genetic/getGenetic.ts:131-206 | And so it does with any number of records behind "some" links if no two winning filters share a "some" step. |
| FilterExactness.ConjunctionExact | src/utils/get-genetic/getGenetic.ts:131-206 | For lists that ask about each link with one relation type: over all rows with at most one record behind "is" links, and all ways to test a single value, the tree is the conjunction of its filters iff no two winning filters share a "some" step and filters with one target have one operand. |
| FilterExactness.MixedTypes | src/utils/get-genetic/getGenetic.ts:183-226 | A list that asks about one link with two relation types, shares a "some" step and is a conjunction all the same, so the condition on types cannot be left out. |
| FilterExactness.RangeExact | src/utils/get-genetic/getGenetic.ts:172-202 | A min_ or max_ filter becomes a bound iff it is unrelated; a related one becomes a test for equality, membership or inclusion. |
| Filters.EveryFilterCounts | src/utils/get-genetic/getGenetic.ts:131-206 | With distinct names and no related min_ or max_ filter, targets are distinct, and a row passes iff every single filter accepts it. |
| Filters.OrderFree | src/utils/get-genetic/getGenetic.ts:141-203 | Then the order of the filters does not matter. |
| Filters.RelatedRangeLost | src/utils/get-genetic/getGenetic.ts:183-202 | A related min_ and max_ pair is compiled to one equality with the upper end; the lower end is lost. |
| Filters.SomeNeedsOneRecord | src/utils/get-genetic/getGenetic.ts:183-226 | With "some" and several records each filter can accept a row that the tree refuses. |
| JsonFilters.ProcessFiltersJson | src/utils/get-genetic/getGenetic.ts:258-301 | The clauses pass exactly the rows that meet, for every path text named, one of the conditions listed for it, whatever the test of a single condition. |
| JsonFilters.ListedExact | src/utils/get-genetic/getGenetic.ts:258-284 | What is listed: for each filter under each column one condition for each of its values, or for its one value. |
| JsonGrouping.GroupingExact | src/utils/get-genetic/getGenetic.ts:268-284 | Over all rows made of documents, which have one value at a path and none behind another, the clauses ask, for every path named in every column, for one of the values listed there iff no two paths named, in one column or in two, have one text, or no document could meet one condition for each text, so that nothing passes either way. |
| JsonFilters.GroupingExactForTests | src/utils/get-genetic/getGenetic.ts:268-284 | The same over all ways to test a condition, documents or not: iff no two paths named have one text, or some text has no value listed. |
| JsonFilters.ColumnsShareText | src/utils/get-genetic/getGenetic.ts:258-284 | One path in two columns is enough to make their conditions alternatives. |
| JsonFilters.JoinInjective | src/utils/get-genetic/getGenetic.ts:268-268 | Paths that are not empty and have no dot in a segment have different texts. |
| JsonFilters.JoinExact | src/utils/get-genetic/getGenetic.ts:268-268 | The text of a path is its segments with dots between. |
| JsonFilters.SharedTexts | src/utils/get-genetic/getGenetic.ts:268-268 | A dot in a segment, or an empty path, can make two paths one. |
| Canonical.CanonicalExact | src/middlewares/request-idempotency.middleware.ts:24-45 | Two JSON trees normalise to the same tree iff they differ only in key order at any depth, fields named __proto__ aside. |
| Canonical.CanonicalWithoutProto | src/middlewares/request-idempotency.middleware.ts:24-45 | Without such fields, iff they differ only in key order. |
| Canonical.NormalizeSame | src/middlewares/request-idempotency.middleware.ts:24-45 | Normalising changes key order only and drops the __proto__ fields. |
| Canonical.NormalizeIdempotent | src/middlewares/request-idempotency.middleware.ts:24-45 | Normalising twice changes nothing more. |
| Canonical.NormalOrder | src/middlewares/request-idempotency.middleware.ts:33-41 | The fields of a normal form stand in one order: names that spell a number below 2 to the 32nd less one, by number, then the others by their texts. |
| Canonical.ProtoIsLost | src/middlewares/request-idempotency.middleware.ts:33-41 | Two bodies that differ in a __proto__ field have the same form. |
| ClickGuard.Guard.SetIfNotExists | src/services/@redis/cache/redis.service.ts:85-93 | Takes the lock iff it is not held, until the lifetime is over; with the store switched off it always says yes. |
| ClickGuard.Guard.PreventDuplicateClicks | src/middlewares/request-idempotency.middleware.ts:75-125 | The decision and the new locks, with the store's failure and the two ways to answer it. |
| ClickGuard.GuardedExact | src/middlewares/request-idempotency.middleware.ts:75-85 | A request is guarded iff its verb is one listed, letter case aside, and its path up to the query is not ignored. |
| ClickGuard.OriginExact | src/middlewares/request-idempotency.middleware.ts:87-91 | The sender is the token, else the address, else the forwarded address. |
| ClickGuard.WithoutLock | src/middlewares/request-idempotency.middleware.ts:75-125 | Unguarded requests pass, all pass without a store, and if the store fails the setting decides; a refusal changes no lock. |
| ClickGuard.KeyExact | src/middlewares/request-idempotency.middleware.ts:87-101 | Two guarded requests have one lock key iff method, path, sender and, up to key order, content are the same. |
| ClickGuard.LocksMean | src/middlewares/request-idempotency.middleware.ts:103-113 | A lock expires a lifetime after the last request that took it. |
| ClickGuard.PassesIff | src/middlewares/request-idempotency.middleware.ts:75-113 | Over any run a guarded request passes iff every earlier passed request of the same click is at least the lifetime back. |
| ClientBookings.GroupEvents | src/features/event-client/services/event-client.query.service.ts:265-302 | The map-filling loop yields one booking per key, in the order of first events. |
| ClientBookings.BookingsExact | src/features/event-client/services/event-client.query.service.ts:267-302 | Each event is in exactly the booking of its key; a booking lists the lines of its events in order, spans their least start to largest end, and its primary event is the first that attains the start. |
| ClientBookings.BookingsTold | src/features/event-client/services/event-client.query.service.ts:265-302 | Every event is in the one booking with its id, and each booking tells of its events and no others. |
| ClientBookings.BookingsConserve | src/features/event-client/services/event-client.query.service.ts:304-308 | The ordered bookings list the line of every event exactly once and are sorted by start, ascending or descending. |
| ClientBookings.BuildClientBookings | src/features/event-client/services/event-client.query.service.ts:238-342 | Grouping, ordering and paging together. |
| ClientBookings.PastPagesExact | src/features/event-client/services/event-client.query.service.ts:320-332 | Past pages laid end to end are a prefix of the bookings in order, and all of them iff there are at most 999 pages. |
| ClientBookings.PageBounds | src/models/pagination.ts:74-110 | A page has at most the clamped number of rows and at most 100, none is empty unless all are, and upcoming bookings have one page whatever is asked for. |
| ClientBookings.PageExact | src/models/pagination.ts:74-110 | The page's fields: the number of rows, rows to a page as asked for within bounds or the scope's default, the least number of pages that holds them, the page asked for or the last there is, and the rows from its first place on. |

## Left out

- Windows.SlotTestExact: claimed for minute-aligned data, as are the starts of TimeSlots.AvailableStarts; what the test accepts of other data is Windows.WindowContainsExact.
- TimeSlots.AvailableStarts: durations are positive, the day's ends, grid and booking window are given, and so are the bookings of a group service; the early answers (past days, no staff, a group service in a chain), the place count on a label and wall times that a zone repeats, which the code tells apart by their text only, are not modelled.
- UserLimits.RunDayLimit: supposes bookings that end by midnight; the general form is UserLimits.RunDayLimitExact. Limits do not change during a run.
- ScheduleRuns.RunCacheExact: business and worker hours share one counter of ids. A body with a date beside a user takes the branch of temporary hours in the pipeline, which is not modelled; the other fields of a deletion's body are supposed to have the types of the other routes, and all times are supposed to come as text.
- FilterExactness.ConjunctionExact: the half that finds a distinguishing row supposes one relation type for each link, without which it is false (FilterExactness.MixedTypes); the other half is FilterExactness.ConjunctionIfApart and supposes nothing of the kind.
- Filters.FiltersExact: speaks of scalar and list values; a filter whose value is itself an object is merged into the tree key by key, which is not modelled.
- Filters.MergeDeep: the merged object is returned instead of being built in place; where the source has an object and the target a text, number or list that is not falsy, the code throws or writes into the list, which is not modelled and which compiled filters never meet.
- JsonFilters.ProcessFiltersJson: path texts that every JavaScript object inherits, such as "constructor", make the code throw; the model treats them like any other text.
- JsonGrouping.GroupingExact: a document is an object whose leaves are scalars or whole lists; paths that step into a list by its position are not modelled.
- ClickGuard.PassesIff: supposes a digest without collisions, a text form that tells trees apart, an atomic set-if-absent whose keys live exactly their lifetime, and no store errors; what store errors do is part of the contract of the guard method.
- ClickGuard.Guard.PreventDuplicateClicks: the regular expressions among the ignored paths are one predicate, and dates in a body, which become their ISO text, are scalars.
- ZoneConversion.WholeSecondConversion: the zone is an arbitrary function to whole-second offsets; parsing the naive text, the time-zone database and the printed parts (supposed to use hours 00 to 23) are not modelled.
- TemporaryBlocks.Service.AddTemporaryBusinessHour: times longer than the five characters of their column fail the write, as the database refuses them; dates are instants, and reading an ISO text is an arbitrary function.
- TemporaryBlocks.Service.UpdateTemporaryBusinessHour: if several rows named one event any of them could be found first; the invariant shows there is only one.
- BookingStore.Store.UpdateEventById: the fields of an event other than its times, group, rule and deletion are one map of given values, and the group, rule and participant references are supposed to resolve, as the foreign keys enforce.
- HourFormat.ReadTimeNormal: which instant an ISO text names is an arbitrary function, and years are supposed to print with four digits.
- ScheduleService.Service.ConvertTimes: times come as text, as they do in a JSON body, not as date objects.
- HourFormat.NormalForm: trimming knows space, tab, line feed and carriage return, not every Unicode space.
- Texts and keys are compared by character; the order of characters outside the basic plane may differ from that of UTF-16 units, which affects no claim about which texts are equal.
- MixedRuns.MixedRunSafe: an event's capacity, which clients' requests read, is given anew with each request and not tied to its other fields.
- Two requests interleaving: the client cancel reads and writes outside a transaction, so nothing is claimed of interleaved cancels.
- Joining an existing group booking, the write services for client bookings, the change-status use cases and participant answers by link.
- Building the shifts of a user from business hours, worker hours and temporary hours.
- Worker absences: their updates do not keep group windows.
- The cache of worker hours: row deletion does not invalidate it, so only the fold on a miss is modelled.
- Temporary hours as read from the cache: the reader is not part of the code that is live.
- Identifiers that contain the separators of cache keys, except where a lemma is about them.
- Express routing, token and role checks, request schemas, logging, message queues, mail and notification texts, encryption of client data.
