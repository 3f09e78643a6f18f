# Verified models of the dealership backend

Dafny models of the parts of the backend whose correctness cannot be read off one function: calendar
days across clock changes, paged views that must equal a full sort, protocols of overlapping requests
over shared documents, the shift log with its idle ladder, the paid time computed from it, and invoice
arithmetic. `dafny verify dfyconfig.toml` checks all of them. There is one module per component:

- `Gregorian`, `LocalTime`: the day count of `Date.UTC` and local time in a zone with two offsets.
- `AppointmentDashboard`, `CalendarNotifications`, `AiShadowDraft`, `CrmReports`: four ways to work with
  local days, measured against the same definition of a day.
- `NewestFirst`, `LeadTimeline`, `LeadTimelinePages`, `LeadTimelineLimits`, `LeadTimelineMerge`,
  `LeadTimelineRequests`, `AiTrainingAudit`, `LeadSource`: views and filters that must agree with a plain specification.
- `AiAgentCoaching`, `PublicBooking` with `BookingExpiry`, `ServiceSlots`, `AppointmentStatus`,
  `AiOperatingMode` with `AiModeRuns`, `InvoiceRequests`, `ShiftRuns`, `PushRuns`: protocols. Each
  database operation is one atomic step, and requests interleave freely.
- `ShiftLog`, `ShiftHandlers`, `ResumableShift`, `IdleLadder`, `PushSubscriptions`: TimeProof, from the
  entries of the shift log to what its readers make of it.
- `TimeLogEngine`, `TimeSheetDays`, `TimeSheet`, `IdleLog`, `PayPeriods`, `PayrollWindow`, `Payroll`: from
  the shift log to paid time. What is credited to a day, a week or a pay period is measured against the
  log itself.
- `Text`, `Sorting`: what several of them share.
- `AftermarketInvoice`: invoice totals in exact arithmetic.

Handlers that update documents are methods of classes. What they leave behind is told by their fields,
and equated with functions on values, which the lemmas about whole runs and interleavings use. Times are integers in milliseconds.

## What the proofs found

Most properties hold as intended. These do not; each is stated as a lemma, and where a condition
separates the good cases from the bad, the lemma is an if-and-only-if.

- The dashboard's correction loop never settles on 1 January of the year 100, and a month such as
  `0042-05` is accepted and answered with May 1942, while the date parser rejects such years.
- The notification summary adds 24 hours to the start of the day, so on the two days of a clock change
  its end is an hour off; in the last hour of the longer one the present is outside its own bounds.
- The lead timeline drops the "lead received" entry if it ties with a cursor, skips rows when too many
  share the cursor's millisecond, and shows less than it should, or stops early, when the ownership filter
  thins out a full load.
- Sources named like inherited properties of a JavaScript object get no label from the normalizer.
- A booking request that dies before recording its claim blocks the key until the claim expires, and that is
  the only way a key gets blocked. An expiry that falls on a key with an appointment alive or a request
  working on it allows a second appointment; a slot reservation whose request dies is never given back.
- Overlapping updates of AI modes overwrite each other: a channel turned off can come back live, with
  no confirmation and no row in the change log. The first request to configure modes takes the old switch
  over for every channel it does not name. Even if no update is lost, rows logged in another order
  than their writes, or not at all, leave a log that does not tell the channel's history.
- Handlers that check and then write in separate operations let overlapping requests pass checks that they
  would fail one after the other. A late invoice is a second open one if one was opened meanwhile; a late
  entry takes the shift log out of its grammar unless the log is in the same phase again; a late resume runs
  two shifts together unless the time-out is still last; a late push gives an endpoint a second holder; a
  late heartbeat ends the shift once more.
- The payroll reads the log from six days before the period. A shift running then is lost up to its end,
  also to a week that began with it: a period that starts on a Saturday misses the Sunday part of a
  Saturday night shift in the overtime of its first week. Nothing is ever paid twice.
- A fresh idle stretch does not lower the stage, and a manual clock-out leaves it as it is: after one at
  stage 3 an idle stretch that follows it directly is never ended. The comment on the heartbeat model
  (`src/models/AgentHeartbeat.model.ts:9-11`) says the stage is reset as soon as idleness ends; the code
  keeps it through the grace window, and the model follows the code.
- The automatic clock-out does not look at the log. Written off shift or during a break it leaves the
  grammar. During a break, walking and counting then disagree about the break; off shift, they disagree about
  the next shift if both are of the same day.
- Resuming an overnight shift deletes the time-out and then fails; a resume can be offered while a later
  shift is running.
- A running shift is credited with 25 hours at most, on the day on which it reaches them and later.
- With halves rounded up on both sides of zero, a discount does not always cancel an equal line.

## Model

| member | source | states |
|---|---|---|
| Gregorian.DayNumbersFollowDates | src/controllers/appointmentDashboard.controller.ts:65-76 | The day count behind `Date.UTC` (ECMA-262 section 21.4.1) orders valid dates exactly as the calendar does. |
| Gregorian.DayRoundTrip | src/controllers/appointmentDashboard.controller.ts:65-76 | Every valid date is read back unchanged from its day number. |
| Gregorian.DatesAreDays | src/controllers/crmReports.controller.ts:67-77 | Two days have the same calendar key only if they are the same day. |
| Gregorian.MonthIsDayRun | src/controllers/appointmentDashboard.controller.ts:168-183 | A calendar month is exactly the run of days from its first to the day before the next first, the year wrapping after December. |
| LocalTime.DayStep | src/controllers/appointmentDashboard.controller.ts:125-145 | The local day changes at one millisecond only: the one whose wall clock reads midnight; it never goes back. |
| LocalTime.SteadyAroundMidnight | src/controllers/calendarNotifications.controller.ts:46-63 | In the two hours before a standard-time midnight the offset does not change, so probing there is sound. |
| LocalTime.MidnightIsUnique | src/controllers/appointmentDashboard.controller.ts:96-123 | Each local day has exactly one instant at which the wall clock reads its midnight, clock changes included. |
| LocalTime.DayIsInterval | src/controllers/appointmentDashboard.controller.ts:147-166 | A local day is exactly the half-open interval between its midnight and the next. |
| AppointmentDashboard.MountainMidnightUtcMs | src/controllers/appointmentDashboard.controller.ts:96-123 | The correction loop, stopped after four rounds at most, ends on the unique Mountain midnight of the requested day, for every day after 1 January 100; on that very day it never does. Years 0 to 99 are first moved to 1900-1999, as `Date.UTC` does. |
| AppointmentDashboard.ReadBack | src/controllers/appointmentDashboard.controller.ts:99-121 | Formatting an instant and reading the parts back gives its wall clock to the second, years before 1 and before 100 included. |
| AppointmentDashboard.DateAsRequested | src/controllers/appointmentDashboard.controller.ts:125-166 | A date taken from an instant of the year 100 or later asks for that same day again. |
| AppointmentDashboard.DayRangeInMountainTime | src/controllers/appointmentDashboard.controller.ts:147-166 | The method returns exactly the span from the midnight of the requested day to the millisecond before the next. |
| AppointmentDashboard.MonthRangeInMountainTime | src/controllers/appointmentDashboard.controller.ts:168-183 | The method returns the span from the first midnight of the month to the millisecond before the next month, December included. |
| AppointmentDashboard.DayRangesPartitionTime | src/controllers/appointmentDashboard.controller.ts:147-166 | Every instant lies in the range of exactly one day: its own local date. No gap, no overlap. |
| AppointmentDashboard.DayLengths | src/controllers/appointmentDashboard.controller.ts:147-166 | Ranges abut, and each lasts 24 hours, changed only by the difference in offset between its two midnights: 23, 24 or 25 hours. |
| AppointmentDashboard.MonthIsUnionOfDays | src/controllers/appointmentDashboard.controller.ts:168-183 | A month range covers an instant exactly when the instant's local date is in that month. |
| AppointmentDashboard.ParseCalendarDate | src/controllers/appointmentDashboard.controller.ts:51-78 | Accepted are exactly the well-formed texts that spell a real Gregorian date of the year 100 or later, read as written. |
| AppointmentDashboard.ParseCalendarMonth | src/controllers/appointmentDashboard.controller.ts:80-89 | Accepted are exactly the texts with four digits, a dash and a month from 01 to 12. |
| AppointmentDashboard.MonthTextRoundTrip | src/controllers/appointmentDashboard.controller.ts:195-211 | The month text that the controller builds itself is parsed back to that month exactly for years of four digits; otherwise it is rejected. |
| AppointmentDashboard.DateTextRoundTrip | src/controllers/appointmentDashboard.controller.ts:47-78 | A label made of a real date parses back to that date exactly for years of four digits. |
| AppointmentDashboard.ResolveDashboardRange | src/controllers/appointmentDashboard.controller.ts:185-248 | Every request gets the window it is owed, told by the instants in it: a month spelled out decides whatever the date is; else the month, or in the day view the day, of the plain date or of the instant named; else the present month. Errors, month flag and label are exact, each error on exactly the texts that cannot be read. |
| AppointmentDashboard.InstantIsInItsWindow | src/controllers/appointmentDashboard.controller.ts:185-248 | A request naming an instant, or a month view told nothing and the present, gets a window that contains it: from the year 101 on in the day view, and in the month view exactly for four-digit years (otherwise an error). |
| AppointmentDashboard.DateGetsItsWindow | src/controllers/appointmentDashboard.controller.ts:185-248 | Sending a date of four-digit year in the form of a label asks for exactly that day, or in the month view for its month, and is labelled with the same text. |
| AppointmentDashboard.MonthGetsItsWindow | src/controllers/appointmentDashboard.controller.ts:185-248 | Sending a month of four-digit year in that form asks for exactly that month, whatever the date parameter says. |
| AppointmentDashboard.RejectedExactlyWhen | src/controllers/appointmentDashboard.controller.ts:185-248 | The day view answers "date required" exactly to no date, and "invalid date" exactly to a text that is neither a plain date nor an instant. |
| AppointmentDashboard.EarlyMonthMovesTo1900s | src/controllers/appointmentDashboard.controller.ts:80-89 | A month with a year below 100 is accepted, and its window lies 1900 years later: a disagreement between the two parsers. |
| CalendarNotifications.ProbeFindsMidnight | src/controllers/calendarNotifications.controller.ts:43-65 | The two-pass probe, asked at any instant, gives the same day start as the dashboard. |
| CalendarNotifications.ProbeEndMissesClockChange | src/controllers/calendarNotifications.controller.ts:43-65 | The probe's day end is off by precisely the change of offset over the day: right exactly on days without one. |
| CalendarNotifications.NowOutsideItsBounds | src/controllers/calendarNotifications.controller.ts:43-65 | The present lies outside its own bounds exactly in the last hour of a 25-hour day. |
| CalendarNotifications.OffsetIsExact | src/utils/companyTimezone.ts:23-38 | The rounded difference between printed clock and instant is the exact offset from the year 100 on. |
| CalendarNotifications.ZoneMidnightUtc | src/utils/companyTimezone.ts:46-51 | Three unconditional rounds reach the same midnight as the dashboard's loop. |
| CalendarNotifications.GetCompanyToday | src/utils/companyTimezone.ts:61-75 | The company's today is exactly the set of instants with the same local day as now, which it contains. |
| AiShadowDraft.RecentDayKeys | src/controllers/aiShadowDraft.controller.ts:259-266 | Sampling every twelve hours gives exactly the last `days` local days, each once, newest first, in any zone with two offsets an hour apart; the cap on samples never ends the search. |
| AiShadowDraft.SamplesReachBack | src/controllers/aiShadowDraft.controller.ts:259-266 | The cap leaves room: after 2n + 3 samples more than n local days have gone by. |
| AiShadowDraft.WindowCoversReportedDays | src/controllers/aiShadowDraft.controller.ts:268-276 | The query's lower bound in fixed 24-hour periods is no later than any instant of a reported day. |
| AiShadowDraft.FilterSelectsWhatIsShown | src/controllers/aiShadowDraft.controller.ts:45-58 | For each of the ten statuses, the database filter selects exactly the drafts that the list shows with that status, lapsed leases included. |
| AiShadowDraft.UsageCountsEveryDraft | src/controllers/aiShadowDraft.controller.ts:279-336 | On each reported day the groups by shown status add up to every draft created on that local day, none cut off and none counted twice. |
| CrmReports.CountByDay | src/controllers/crmReports.controller.ts:51-57 | The first loop counts, for every date, exactly the leads whose creation falls on it; undated leads are skipped. |
| CrmReports.ListDays | src/controllers/crmReports.controller.ts:68-76 | The second loop lists each day of the span with its true count. |
| CrmReports.BuildLeadsOverTime | src/controllers/crmReports.controller.ts:50-83 | The whole chart: the zero-filled series or the active days by the 180-day rule; in either branch the counts sum to the number of dated leads in range. |
| CrmReports.ZeroFilledListsEveryDay | src/controllers/crmReports.controller.ts:62-78 | The zero-filled series names every calendar day from first to last exactly once, in order, with its count, across clock changes. |
| CrmReports.ZeroFilledTotal | src/controllers/crmReports.controller.ts:50-78 | Leads inside the range are all counted: no lead falls between two listed days. |
| CrmReports.SortedMapIsActiveDays | src/controllers/crmReports.controller.ts:80-83 | The wide-range branch lists exactly the days with leads, in ascending order, with their counts. |
| NewestFirst.OrderedIsUnique | src/controllers/communication.controller.ts:725-728 | The newest-first order by time and id is total: a sorted list is determined by its entries, whatever order they were collected in. |
| NewestFirst.LeaveOut | src/controllers/communication.controller.ts:729-731 | Leaving out entries that each have a page of others ahead of them does not change the page. |
| LeadTimeline.CollectSources | src/controllers/communication.controller.ts:522-715 | The nested loops collect exactly what the capped loads and the ownership filter let through, and notice exactly when a filtered source is still full. |
| LeadTimeline.BuildLeadTimeline | src/controllers/communication.controller.ts:404-737 | The method answers with the page that the `before` parameter and the clamped limit (30 if not given) select from the collected entries, and with the encoding of its last item as the next `before`, or none. |
| LeadTimeline.PageDescends | src/controllers/communication.controller.ts:716-733 | Whatever was collected, a page is strictly descending in (time, id), strictly below its cursor, within the limit, and its next cursor is its last item. |
| LeadTimelinePages.EverythingIsListed | src/controllers/communication.controller.ts:522-715 | The full merge that pages are measured against holds every row of every source, every dated entry of the lead and the lead itself, and nothing else. |
| LeadTimelinePages.SourcesLeaveOut | src/controllers/communication.controller.ts:429-490 | Every row that the capped loads leave out has a full page of loaded rows ahead of it, as long as ties with the cursor fit in the spare rows. |
| LeadTimelinePages.PageIsExact | src/controllers/communication.controller.ts:429-733 | Then each page is exactly the next stretch of the full merge, and has-more false means nothing is left. |
| LeadTimelinePages.RestIsUnderLast | src/controllers/communication.controller.ts:716-733 | Below the last item of a page lies exactly the rest of the merge. |
| LeadTimelinePages.WalkCollectsEverything | src/controllers/communication.controller.ts:404-733 | On an uncrowded timeline, walking page after page collects every entry of the full merge once, in order. |
| LeadTimelinePages.WalkEnds | src/controllers/communication.controller.ts:404-733 | Over one unchanging lead every walk ends, after at most one page more than there are entries below its start, however crowded the timeline is and whatever the ownership filter hides. |
| LeadTimelinePages.NothingAfterTheEnd | src/controllers/communication.controller.ts:729-733 | Once a walk has ended, asking for more pages brings nothing more. |
| LeadTimelineRequests.CursorRoundTrip | src/controllers/communication.controller.ts:406-733 | The encoded cursor of a response is read back as that very cursor. |
| LeadTimelineRequests.NextRequestLiesBelow | src/controllers/communication.controller.ts:404-737 | The request made with the cursor of a response returns items strictly below every item of that response, whatever changed in between. |
| LeadTimelineRequests.RepliesDescend | src/controllers/communication.controller.ts:404-737 | A client that sends back what it is given never gets an item twice or out of order, even if the data, the viewer and the limit change from request to request. |
| LeadTimelineRequests.ClientReadsEverything | src/controllers/communication.controller.ts:404-737 | Such a client, starting with no cursor, gets every entry of an uncrowded timeline once and newest first, and is then told that there is no more. |
| LeadTimelineRequests.ClientFinishes | src/controllers/communication.controller.ts:404-737 | Over one unchanging lead it is told so after at most one request more than there are entries, however crowded the timeline is. |
| LeadTimelineRequests.DateGetsOlderItems | src/controllers/communication.controller.ts:411-414 | A date in place of a cursor gets only items strictly older than it. |
| LeadTimelineRequests.DateGetsTheNewestOlderItems | src/controllers/communication.controller.ts:411-414 | While ties fit, it gets exactly the newest of the items strictly older than it. |
| LeadTimelineRequests.UnreadableGetsFirstPage | src/controllers/communication.controller.ts:406-415 | A cursor that cannot be read gets the first page. |
| LeadTimelineLimits.OneSourcePageIsExactWhen | src/controllers/communication.controller.ts:429-733 | With one source, a page is exact if and only if the rows tied with the cursor and the page together fit in the source limit, or nothing is left below the cursor. |
| LeadTimelineLimits.TiedCreatedIsLost | src/controllers/communication.controller.ts:702-714 | The "lead received" entry is lost for good when it ties with a cursor in time but sorts below it: it is added on strictly earlier times only. |
| LeadTimelineLimits.CreatedIsOfferedExactlyWhen | src/controllers/communication.controller.ts:702-714 | That entry is collected for a page if and only if it is strictly earlier than the cursor, and is due also if it is of the same time and sorts below. |
| LeadTimelineLimits.OwnedPageIsExactWhen | src/controllers/communication.controller.ts:429-733 | Ownership is filtered after the cap. With one source, at any cursor: a page is the true page of what the viewer may see if and only if its load holds a full page of visible rows below the cursor, or all of them. |
| LeadTimelineLimits.EndsEarlyExactlyWhen | src/controllers/communication.controller.ts:729-733 | The exact condition under which the walk ends at a page although visible rows below the cursor are missing from it. |
| LeadTimelineLimits.ForeignRowsEndTheWalk | src/controllers/communication.controller.ts:487-490 | The plainest such case: a newest full load of other leads' rows ends the walk at once, hiding the lead's own older rows. |
| LeadTimelineMerge.PageIsExactExactlyWhen | src/controllers/communication.controller.ts:404-733 | For any number of sources, at any cursor, filtered by owner or not: a page is exactly the next stretch of the full merge if and only if every entry below the cursor that was not loaded has a full page of loaded ones ahead of it. |
| LeadTimelineMerge.LeaveOutExactlyWhen | src/controllers/communication.controller.ts:725-731 | Leaving entries out of a sorted list keeps its first page if and only if each of them has a full page of others ahead of it. |
| LeadTimelineMerge.RightfulIsListed | src/controllers/communication.controller.ts:522-715 | With the ownership filter on, it holds of the rows exactly those linked to this lead. |
| AiTrainingAudit.PrefixSuffices | src/controllers/aiTraining.controller.ts:296-302 | Only the first rows of the sorted log can reach the first rows of the merged history. |
| AiTrainingAudit.PageIsExact | src/controllers/aiTraining.controller.ts:286-304 | Both paths, with and without pending rows, give exactly that page of the sorted whole history, for every page and limit. |
| AiTrainingAudit.FirstPagesArePrefix | src/controllers/aiTraining.controller.ts:286-304 | Pages read one after another join up to a prefix of the history. |
| AiTrainingAudit.PagesHoldEverything | src/controllers/aiTraining.controller.ts:286-304 | Pages 1 to totalPages hold every logged and pending row exactly once, in order. |
| LeadSource.LowerMeansIgnoringCase | src/constants/leadSource.ts:72-113 | The case-insensitive patterns of the filters and the lower-casing of the normalizer agree on every key. |
| LeadSource.NormalizerBySpelling | src/constants/leadSource.ts:40-65 | What the normalizer shows depends on the spelling class of the source and the ADF channel alone. |
| LeadSource.FilterBySpelling | src/constants/leadSource.ts:67-116 | What each filter selects depends on the same two things. |
| LeadSource.FilterAgreesWithLabelExactlyWhen | src/constants/leadSource.ts:40-116 | For trimmed ASCII sources, all filters select exactly the leads shown under their label if and only if the source is not "constructor" or "__proto__", in any letter case. |
| LeadSource.ExactlyOneFilterMatches | src/constants/leadSource.ts:67-116 | Every lead, clean or not, passes the filter of exactly one label, `Demo` included. |
| AiAgentCoaching.CoachingRule.Create | src/controllers/aiAgentCoaching.controller.ts:180-195 | A rule is stored, active, with the trimmed text and its amounts as approval, exactly if the text has 1 to 800 characters, passes the gate and its amounts were allowed; otherwise nothing is stored. |
| AiAgentCoaching.CoachingRule.Update | src/controllers/aiAgentCoaching.controller.ts:207-261 | After an accepted update the stored rule has the status asked for, or its old one, and the text given with its amounts, or its old text and approval; any other answer changes nothing. |
| AiAgentCoaching.CoachingRule.Delete | src/controllers/aiAgentCoaching.controller.ts:280-291 | Deleting sets `deleted` and nothing else, exactly if a rule is there that is not deleted yet, and answers not found otherwise. |
| AiAgentCoaching.AcceptedTextIsSafe | src/controllers/aiAgentCoaching.controller.ts:30-39 | A text that was accepted also passes the reactivation gate with the approval stored beside it. |
| AiAgentCoaching.ActiveRulesAreAlwaysSafe | src/controllers/aiAgentCoaching.controller.ts:180-291 | In every interleaving of creations, edits, disabling, split reactivations and deletions, an active rule passes the gate for its current text and approved amounts. |
| AiAgentCoaching.DeletedIsFinal | src/controllers/aiAgentCoaching.controller.ts:228-245 | No interleaving ever changes a deleted rule again. |
| AiAgentCoaching.StaleReactivationIsRefused | src/controllers/aiAgentCoaching.controller.ts:228-254 | A reactivation goes through exactly if the rule still has the status and, if disabled, the text it was checked with; otherwise it answers conflict or not found and changes nothing. |
| AiAgentCoaching.UpdateAnsweredExactly | src/controllers/aiAgentCoaching.controller.ts:207-261 | Bad request, not found, conflict and success, each with its exact condition. |
| AiAgentCoaching.StepActiveExactlyWhen | src/controllers/aiAgentCoaching.controller.ts:180-291 | After any step a rule is active if and only if the step creates or activates it, or it was active and is neither disabled nor deleted. |
| AiAgentCoaching.OffUntilActivated | src/controllers/aiAgentCoaching.controller.ts:180-291 | In every interleaving, after an accepted disabling or deletion a rule stays off until a later creation, activation or reactivation is accepted. |
| AiAgentCoaching.ReactivationAlone | src/controllers/aiAgentCoaching.controller.ts:228-254 | A reactivation that nothing overlaps turns a disabled rule on exactly if it passes the gate for its text and approved amounts, and changes nothing else. |
| PublicBooking.BookingCollections.CreatePublicTestDriveBooking | src/controllers/appointment.controller.ts:510-686 | One handler from claim to answer: a replay is answered from the claim and changes nothing; an intake error leaves no appointment and frees the key; otherwise one appointment is added, answered and recorded in the claim with its lead. It does what the stages of the state machine do. |
| PublicBooking.RunKeepsInvariant | src/controllers/appointment.controller.ts:510-686 | At most one request per key is between claim and answer, and it alone knows the one appointment that may exist; kept by every interleaving, deaths included. |
| PublicBooking.OneAppointmentPerKey | src/controllers/appointment.controller.ts:510-686 | At most one appointment is alive for a key at any moment, and all "booked" answers name it. |
| PublicBooking.OneAppointmentExactlyWhenKeyed | src/controllers/appointment.controller.ts:510-538 | That guarantee holds if and only if requests carry a key. |
| PublicBooking.AbandonedClaimBlocksKey | src/controllers/appointment.controller.ts:526-536 | If the claiming request dies before recording its result, every later request for the key is turned away and nothing is booked, for as long as the claim is there. |
| PublicBooking.BookableExactlyWhen | src/controllers/appointment.controller.ts:510-686 | In every reachable state, a request not heard of yet can still be answered "booked" without an expiry if and only if the key is not abandoned. |
| PublicBooking.DeathAbandonsExactlyWhen | src/controllers/appointment.controller.ts:540-686 | A death abandons the key if and only if it comes before the claim is recorded; what stays alive is the appointment held at that stage. |
| BookingExpiry.ExpiryIsSafeExactlyWhen | src/models/IntakeClaim.model.ts:24 | Claims expire. An expiry keeps at most one appointment per key, whatever follows, if and only if no appointment of the key is alive and no request works on it. |
| BookingExpiry.OneAppointmentWithQuietExpiries | src/controllers/appointment.controller.ts:510-686 | Over runs with any number of expiries that fall on such keys, at most one appointment is alive at any moment and all "booked" answers name it. |
| BookingExpiry.LoudExpiryAllowsTwo | src/models/IntakeClaim.model.ts:24 | The first expiry that falls on another key can be followed by requests that leave two. |
| BookingExpiry.AbandonedKeyIsFreed | src/controllers/appointment.controller.ts:511-536 | An abandoned key can be booked again once its claim has expired, safely if and only if the request that died left no appointment alive. |
| ServiceSlots.ServiceSlot.Reserve | src/controllers/appointment.controller.ts:48-57 | The conditional increment: taken exactly if the slot is open and has room, and then by one. |
| ServiceSlots.ServiceSlot.Release | src/controllers/appointment.controller.ts:70 | The compensating decrement. |
| ServiceSlots.ServiceSlot.CreateAppointment | src/controllers/appointment.controller.ts:46-73 | A request on its own keeps its place only if the appointment was created. |
| ServiceSlots.CounterIsAccountedFor | src/controllers/appointment.controller.ts:46-73 | Under every interleaving the counter is committed bookings plus reservations in flight plus those whose request died holding one, each counted from the events, between 0 and the maximum. |
| ServiceSlots.ReservesExactlyWhen | src/controllers/appointment.controller.ts:48-57 | A reservation is refused exactly if the slot is blocked or every place is booked, in flight or lost. |
| ServiceSlots.AloneIsCreateAppointment | src/controllers/appointment.controller.ts:46-73 | Reserving and then committing, failing or dying raises the counter, restores the slot, or loses a place. |
| AppointmentStatus.Appointment.UpdateStatus | src/controllers/crmCalendar.controller.ts:263-288 | Accepted if and only if the status is still the one read; then the status is the one wanted and the history has one more entry, from the one to the other, if they differ. A conflict changes nothing. |
| AppointmentStatus.HistoryIsUnbroken | src/controllers/crmCalendar.controller.ts:263-288 | However requests overlap, the history leads without a break from the first status to the current one and only grows, even when a status returns in between. |
| AppointmentStatus.LastAcceptedWriteDecides | src/controllers/crmCalendar.controller.ts:263-288 | In every run the status is the one wanted by the last accepted write, or the first one if none was accepted. |
| AppointmentStatus.HistoryGrowsAsOwed | src/controllers/crmCalendar.controller.ts:263-288 | The history has grown by exactly one entry for each accepted write that changed the status, in their order. |
| AppointmentStatus.AcceptedExactlyWhen | src/controllers/crmCalendar.controller.ts:263-288 | A write is accepted exactly when the status is still, or again, what its request read. |
| AppointmentStatus.ChainLinks | src/controllers/crmCalendar.controller.ts:276-283 | Entry by entry: each starts where the one before ended, the last ends at the current status, none is idle. |
| AiOperatingMode.Organization.UpdateAiModes | src/controllers/aiOperatingMode.controller.ts:171-241 | Each answer with its exact condition, "not an admin" before all others; only an update changes anything, and it leaves the modes asked for, the others as they were, the old switch in agreement, and one row for each difference between before and after. |
| AiOperatingMode.Organization.UpdateShadowDrafts | src/controllers/aiOperatingMode.controller.ts:140-162 | Each answer with its exact condition; the switch is flipped and one row logged exactly if an admin asks for the other value, and nothing changes otherwise. |
| AiOperatingMode.PathLinks | src/controllers/aiOperatingMode.controller.ts:228-241 | Row by row: each row starts at the mode the one before ended at. |
| AiOperatingMode.WrittenChannel | src/controllers/aiOperatingMode.controller.ts:184-241 | A write sets each covered channel to what was chosen over what was read, with one row from the mode read if they differ, and leaves other channels and their rows alone. |
| AiOperatingMode.EnteringLiveIsConfirmed | src/controllers/aiOperatingMode.controller.ts:202-226 | A write puts a channel live only if its own request, by an admin with phrase and reason, chose live for that channel, or named it not and found it live by the old switch, or had read it configured live. |
| AiOperatingMode.OldSwitchIsTakenOver | src/controllers/aiOperatingMode.controller.ts:193-226 | With the old switch on, a request that goes through puts every channel live that it does not name, and was confirmed. |
| AiModeRuns.ServedAlone | src/controllers/aiOperatingMode.controller.ts:184-241 | Read, write and log in a row are the handler on its own. |
| AiModeRuns.OnlyAdminsWrite | src/controllers/aiOperatingMode.controller.ts:140-175 | Whatever was read, a request by anybody but an admin writes nothing and logs nothing. |
| AiModeRuns.ChangesGoBackToAdmins | src/controllers/aiOperatingMode.controller.ts:140-241 | In every interleaving each change of the stored modes or switches is the write of a request that an admin submitted earlier in the run. |
| AiModeRuns.RowsGoBackToAdmins | src/controllers/aiOperatingMode.controller.ts:140-241 | So is each row that is logged or still to be logged, and it is one of that request's rows. |
| AiModeRuns.OthersChangeNothing | src/controllers/aiOperatingMode.controller.ts:140-175 | A run of requests by others, however they overlap, leaves the organization as it was. |
| AiModeRuns.WriteKeepsOwingExactlyWhen | src/controllers/aiOperatingMode.controller.ts:184-226 | Reading and writing are two operations: a write keeps logged and owed rows leading to the stored setting if and only if the channel still is as the request read it. |
| AiModeRuns.LogKeepsOwingExactlyWhen | src/controllers/aiOperatingMode.controller.ts:228-241 | Logging is a third: it keeps that if and only if it overtakes no rows of earlier writes to the channel, or both lead from one place and its own lead back there. |
| AiModeRuns.LossKeepsOwingExactlyWhen | src/controllers/aiOperatingMode.controller.ts:217-241 | A request that dies between its write and its log keeps that if and only if its rows change nothing. |
| AiModeRuns.LogIsTruthfulExactlyWhen | src/controllers/aiOperatingMode.controller.ts:140-241 | In every interleaving, deaths and shadow drafts included: logged and owed rows lead to the stored setting at every moment if and only if every write is fresh, every log in turn and nothing lost. |
| AiModeRuns.OrderlyRunsAreAccounted | src/controllers/aiOperatingMode.controller.ts:140-241 | After such a run, once nothing is owed, each channel's rows lead without a break from its first setting to the stored one. |
| AiModeRuns.LogLeadsToTheStoredSetting | src/controllers/aiOperatingMode.controller.ts:140-241 | That holds after any requests served one at a time. |
| AiModeRuns.SwappedLogsAreAccountedExactlyWhen | src/controllers/aiOperatingMode.controller.ts:217-241 | Two writes to a channel that are logged in the other order leave a truthful log only if neither changed the channel. |
| AiModeRuns.LogIsSound | src/controllers/aiOperatingMode.controller.ts:191-241 | In every interleaving, every row is a real change, except those that first leave the old switch behind, so shadow draft rows change it; every row into live carries a reason of at least 5 characters. |
| AiModeRuns.EnabledExactlyWhenSomeChannelIsLive | src/controllers/aiOperatingMode.controller.ts:217-226 | In every interleaving, once modes are configured, the old switch is on exactly when some channel is live. |
| AiModeRuns.LiveWasConfirmed | src/controllers/aiOperatingMode.controller.ts:202-226 | In every interleaving, the write that first makes a channel live anywhere, stored or read, is that of a confirmed request that chose live for it or took it over from the old switch. |
| AiModeRuns.LiveWasAskedFor | src/controllers/aiOperatingMode.controller.ts:202-226 | Once modes are configured, that request chose live for that very channel. |
| AiModeRuns.EntryWasConfirmed | src/controllers/aiOperatingMode.controller.ts:202-226 | One at a time, it is the very request that put the channel live, where it has been since, that was confirmed and chose live for it, or took it over from the old switch; once modes are configured it chose. |
| AiModeRuns.LateWriteRestoresWhatItRead | src/controllers/aiOperatingMode.controller.ts:184-226 | A late write silently sets channels it was not asked about back to what it had read, without a row. |
| AiModeRuns.LateWriteRevivesLive | src/controllers/aiOperatingMode.controller.ts:184-241 | Two overlapping requests, neither confirmed, that leave text messages live although the last row says off. |
| AiModeRuns.LateLogBreaksTheHistory | src/controllers/aiOperatingMode.controller.ts:184-241 | Two fresh writes logged in the other order: the last row does not say where text messages stand. |
| IdleLadder.AgentHeartbeat.PostHeartbeat | src/controllers/crmTimeproof.controller.ts:989-1029 | One beat: the stage becomes the higher of the old stage and the 1/2/3 ladder of idle time; the warning and the clock-out fire exactly on passing to 2 and to 3. |
| IdleLadder.AtMostOncePerReset | src/controllers/crmTimeproof.controller.ts:1010-1190 | Over any run, warnings and clock-outs are each at most one more than the steps that set the stage to 0. |
| IdleLadder.EndsAreFarApart | src/controllers/crmTimeproof.controller.ts:989-1029 | Without a manual clock-out, two automatic ones are more than 23 minutes apart. |
| IdleLadder.FreshStretchEndsExactlyWhen | src/controllers/crmTimeproof.controller.ts:989-1029 | A fresh idle stretch ends the shift exactly if it lasts 20 minutes and did not begin at stage 3: a new stretch does not lower the stage. |
| IdleLadder.WorkClosesAfterGrace | src/controllers/crmTimeproof.controller.ts:989-1029 | Working beats keep the stretch open for three minutes from the first of them and then close it and reset the stage. |
| IdleLadder.BreakIsForgivenExactlyWhen | src/controllers/crmTimeproof.controller.ts:989-1029 | A return to work is forgiven if and only if idleness is back within three minutes of its start: the stretch then goes on from its old start and stage, and otherwise begins anew. |
| IdleLadder.ClockOutAtStage3DisablesLadder | src/controllers/crmTimeproof.controller.ts:2321 | A manual clock-out at stage 3 clears everything but the stage, so an idle stretch that follows directly is never ended. |
| IdleLadder.EndsExactlyWhen | src/controllers/crmTimeproof.controller.ts:1010-1029 | A beat fires the clock-out by what it has read: if and only if that had a stage below 3, the beat is idle and the stretch it counts has lasted 20 minutes. |
| IdleLadder.TwoBeatsEndTwiceExactlyWhen | src/controllers/crmTimeproof.controller.ts:969-1190 | Two beats that read the same heartbeat both fire the clock-out if and only if each would; if the second reads what the first has written, never both do. |
| ShiftLog.WalkForTimeClock | src/controllers/crm.controller.ts:592-607 | The walk over the entries computes the two flags, the break flag not cleared by a time-in. |
| ShiftLog.WalkForClockOut | src/controllers/crmTimeproof.controller.ts:2295-2303 | The other walk, in which a time-in clears the break flag. |
| ShiftLog.WalksTellThePhase | src/controllers/crmTimeproof.controller.ts:793-805 | On every log in the grammar, all walks tell the phase: off, on, on break. |
| ShiftLog.CountsMeasureChange | src/controllers/crmTimeproof.controller.ts:2731-2737 | Differences of counts over the end of a log measure how its phase changed over it. |
| ShiftLog.BreakCountAgrees | src/controllers/crmTimeproof.controller.ts:807-817 | Counting breaks since the last time-in agrees with walking. |
| ShiftLog.TodayCountAgreesExactlyWhen | src/controllers/crmTimeproof.controller.ts:2731-2737 | Counting today's entries agrees with walking if and only if nobody was on shift as the day began, or nobody is now. |
| ShiftLog.TieOrderDoesNotMatter | src/controllers/crmTimeproof.controller.ts:2306-2319 | The two entries of a manager's clock-out carry one time; either order gives the walkers and the counters the same answer. |
| ShiftHandlers.TimeLogs.TimeClock | src/controllers/crm.controller.ts:550-699 | The clock appends the entry if it accepts it and leaves the log alone otherwise, and answers with the first guard that fails, in the handler's order. |
| ShiftHandlers.TimeLogs.ClockOutUser | src/controllers/crmTimeproof.controller.ts:2285-2319 | A manager's clock-out appends the time-out, after closing an open break at the same time, or refuses and changes nothing. |
| ShiftHandlers.TimeLogs.ResumeShift | src/controllers/crmTimeproof.controller.ts:2748-2806 | A resume deletes the last entry, a time-out of today, or answers why not and changes nothing; without a time-in today it fails after the deletion. |
| ShiftHandlers.ClockKeepsGrammar | src/controllers/crm.controller.ts:581-607 | The clock accepts exactly what the grammar allows next, apart from its two further limits, and keeps the log in the grammar. |
| ShiftHandlers.ClockAnswersExactly | src/controllers/crm.controller.ts:581-607 | Each reply of the clock with the phase of the log, or the further limit, that it tells. |
| ShiftHandlers.BreakIsChargedExactly | src/controllers/crm.controller.ts:660-677 | A finished break adds exactly its own length to the break time of the running shift. |
| ShiftHandlers.NewShiftHasNoBreak | src/controllers/crm.controller.ts:660-677 | Every shift starts with its whole hour of break, whatever came before. |
| ShiftHandlers.ManagerKeepsGrammar | src/controllers/crmTimeproof.controller.ts:2285-2319 | A manager's clock-out succeeds exactly during a shift and leaves a log in the grammar, off shift. |
| ShiftHandlers.ReachableLogsAreWellFormed | src/controllers/crm.controller.ts:550-699 | Every log reachable through the three handlers, one request at a time, is in the grammar, and walking and counting readers agree on it. |
| ShiftHandlers.OverlappingClocksBreakGrammar | src/controllers/crm.controller.ts:581-699 | The clock reads and appends in two operations: any two requests accepted over the same log, whatever they ask for, take it out of the grammar. |
| ShiftRuns.LateAppendKeepsGrammarExactlyWhen | src/controllers/crm.controller.ts:581-695 | An entry accepted over one log and stored in a later one keeps the grammar if and only if the log is in the same phase again. |
| ShiftRuns.InsertKeepsGrammarExactlyWhen | src/controllers/crm.controller.ts:689-695 | A stored entry keeps the grammar if and only if nothing stored is later and the log is in the one phase it leads on from. |
| ShiftRuns.DeleteKeepsGrammarExactlyWhen | src/controllers/crmTimeproof.controller.ts:2773 | Deleting a time-out by its id keeps the grammar if and only if it is the last entry or gone already. |
| ShiftRuns.StepKeepsGrammarExactlyWhen | src/controllers/crmTimeproof.controller.ts:2285-2319 | For every read, append and deletion of clock, manager's clock-out and resume, and every automatic clock-out: the exact condition on which the log stays in the grammar. |
| ShiftRuns.LogStaysInGrammarExactlyWhen | src/controllers/crm.controller.ts:550-699 | In every interleaving of such operations the log stays in the grammar all along if and only if each of them finds that condition. |
| ShiftRuns.RunsInTurnAreReadAlike | src/controllers/crmTimeproof.controller.ts:793-817 | After such a run walking and counting readers agree. |
| ShiftRuns.ReadsCountOnTheirPhase | src/controllers/crm.controller.ts:581-607 | A request that goes on to write counts on the phase of the log it has read. |
| ShiftRuns.AloneIsClocked | src/controllers/crm.controller.ts:581-695 | The clock's read and append in a row are the handler. |
| ShiftRuns.AloneIsManagerClockedOut | src/controllers/crmTimeproof.controller.ts:2285-2319 | So are a manager's read and two appends. |
| ShiftRuns.AloneIsResumed | src/controllers/crmTimeproof.controller.ts:2748-2773 | So are a resume's read and deletion. |
| ShiftHandlers.ResumeUndoesTimeOut | src/controllers/crmTimeproof.controller.ts:2748-2773 | Ending a shift with a resumable note and resuming restores the log exactly; the answer is a start time if today holds a time-in and a server error otherwise. |
| ShiftHandlers.ResumeAnswersExactly | src/controllers/crmTimeproof.controller.ts:2748-2806 | Each reply to a resume with its condition: running since today, ended today with a resumable note, ended today on purpose. |
| ShiftHandlers.ResumedStartIsShiftStart | src/controllers/crmTimeproof.controller.ts:2775-2806 | The start reported is the start of the shift that runs again, if it began today. |
| ShiftHandlers.ManagerClockOutIsFinal | src/controllers/crmTimeproof.controller.ts:2316-2319 | A shift ended by a manager cannot be resumed. |
| ShiftHandlers.TieOrderMattersToResume | src/controllers/crmTimeproof.controller.ts:2306-2319 | When such a clock-out closes a break, the order in which its two entries are read decides the reason given for refusing a resume; the log stays as it is in both. |
| ShiftHandlers.MeWindowHoldsTheShift | src/controllers/crm.controller.ts:195-226 | During a shift, overnight or not, the entries shown tell its start and whether a break is open, as the whole log does. |
| ShiftHandlers.AutoEndKeepsGrammarExactlyWhen | src/services/autoClockout.service.ts:37-43 | The automatic clock-out writes its time-out unconditionally: it keeps the grammar if and only if somebody is on shift and not on break. |
| ShiftHandlers.StrayAutoEndSplitsReaders | src/services/autoClockout.service.ts:37-43 | After an automatic clock-out off shift and a time-in, walkers see a shift and today's counters do not. |
| ShiftHandlers.StrayAutoEndSplitsReadersExactlyWhen | src/services/autoClockout.service.ts:37-43 | Written off shift, it makes today's counters and the walkers disagree about the next shift if and only if it is not of an earlier day. |
| ShiftHandlers.EndSplitsBreakReadersExactlyWhen | src/services/autoClockout.service.ts:37-43 | As it is written, counting and walking part about the break if and only if one is open. |
| ResumableShift.ResumeWorksExactlyWhen | src/controllers/crmTimeproof.controller.ts:2721-2766 | A resume offered by `getResumableShift` is carried out by `resumeShift` if and only if nobody is on shift. |
| ResumableShift.OfferDuringNextShift | src/controllers/crmTimeproof.controller.ts:2721-2766 | After the end of an overnight shift, a resume is still offered during the next shift, and refused. |
| ResumableShift.SameStartExactlyWhen | src/controllers/crmTimeproof.controller.ts:2740-2775 | The offer and the resume name the same start if and only if today holds one time-in. |
| TimeLogEngine.BuildSessions | src/utils/timeLogEngine.ts:79-134 | The loop pairs each time-in with the next time-out; a running session counts up to now, but for 25 hours at most. |
| TimeLogEngine.BuildBreakSessions | src/utils/timeLogEngine.ts:137-170 | The same loop for breaks; a running break counts up to now. |
| TimeLogEngine.PairsMeasurePhases | src/utils/timeLogEngine.ts:79-170 | For a log in the grammar, in any window of time, the paired stretches add up to exactly the time the log spends on shift, respectively on break. |
| TimeSheetDays.GetMidnightSegments | src/utils/timeLogEngine.ts:177-199 | The loop cuts a stretch at every local midnight, using the minute offsets and midnights of the company zone. |
| TimeSheetDays.SegmentsFollow | src/utils/timeLogEngine.ts:177-199 | The segments follow one another day by day without gap or overlap, each within its own local day, from start to end. |
| TimeSheetDays.SegmentsMeasureDays | src/utils/timeLogEngine.ts:177-199 | Each day gets exactly the part of the stretch that lies between its two midnights, clock changes included. |
| TimeSheet.BuildCalendarMap | src/utils/timeLogEngine.ts:233-288 | The loops file every segment under its day and total each day: sessions, breaks, and the difference, not below zero. |
| TimeSheet.BreaksAreBreakTime | src/utils/timeLogEngine.ts:258-284 | The break time of a day is exactly the time of that day on break. |
| TimeSheet.DayTotalIsWorkedTime | src/utils/timeLogEngine.ts:233-288 | The total of a day is exactly the time of that day spent working; the clipping at zero never happens. |
| TimeSheet.ShiftTimeIsExactExactlyWhen | src/utils/timeLogEngine.ts:105-131 | The time on shift is right on every day if and only if no running shift has passed the 25-hour cap. |
| TimeSheet.AttachWeekTotals | src/utils/timeLogEngine.ts:209-230 | Exactly the weeks with worked time get a total, the sum of their seven days; added Saturdays change no day. |
| TimeSheet.WeekTotalIsWorkedTime | src/utils/timeLogEngine.ts:209-230 | A week's total is the time worked from its Sunday midnight to the next. |
| TimeSheet.DaysAddUp | src/utils/timeLogEngine.ts:233-288 | The totals of days in a row add up to the time worked from the first midnight to the last. |
| IdleLog.Merge | src/utils/timeLogEngine.ts:439-444 | The merge keeps the order and leaves exactly the same stretches free. |
| IdleLog.Sweep | src/utils/timeLogEngine.ts:446-465 | The sweep finds free gaps of more than ten minutes, in order, and every such stretch lies in one of them. |
| IdleLog.GapsAreMaximal | src/utils/timeLogEngine.ts:446-465 | A list that satisfies this holds exactly the maximal free stretches. |
| IdleLog.SessionGaps | src/utils/timeLogEngine.ts:423-465 | Filtering, clipping, sorting, merging and sweeping together report, for a tracked session, exactly its maximal stretches of more than ten minutes without activity or break, and nothing for an untracked one. |
| IdleLog.BuildIdleLog | src/utils/timeLogEngine.ts:407-469 | The whole idle log: exactly those stretches of all sessions, each once and strictly newest first, with day, length in whole seconds, and no end while one is still going on. |
| PayPeriods.GetPayPeriodBounds | src/utils/payPeriod.ts:18-41 | The handler's branches compute the bounds of the half month that holds the instant, year end included. |
| PayPeriods.PeriodHoldsItsDay | src/utils/payPeriod.ts:18-41 | A day lies in its own period, and the pay day comes after the period has ended. |
| PayPeriods.PeriodDates | src/utils/payPeriod.ts:18-41 | Periods run from the 1st to the 15th, paid on the 20th, and from the 16th to the last day of the month, paid on the 5th of the next. |
| PayPeriods.PeriodsAbut | src/utils/payPeriod.ts:18-41 | Each period begins where the one before ends. |
| PayPeriods.PeriodsPartitionTime | src/utils/payPeriod.ts:18-41 | An instant lies within the bounds of exactly the instants of its own period. |
| PayPeriods.AddressedPeriod | src/utils/payPeriod.ts:44-47 | Asked for by month and half, a period has the bounds its own days have. |
| PayPeriods.SumRegularInPeriod | src/utils/payrollOvertime.ts:48-63 | The loop over the calendar's keys gives the sum of the totals from the period's first day to before its end. |
| PayPeriods.RegularIsWorkedTime | src/utils/payrollOvertime.ts:48-63 | That sum is exactly the time worked between the bounds. |
| PayPeriods.ComputeWeeklyOvertime | src/utils/payrollOvertime.ts:16-46 | The loop gives the time above 40 hours of the weeks ending in the period, from the effective date on, and flags every week above 43 hours. |
| PayPeriods.OvertimeBeginsWithAWeek | src/utils/payrollOvertime.ts:8 | The effective date begins a pay period and a week, so no week is counted that began before it. |
| PayrollWindow.WindowDay | src/controllers/crmTimeproof.controller.ts:2107-2124 | A day of the calendar built from the window: the work of shifts that begin in it, less breaks of a shift that began before it, not below zero. |
| PayrollWindow.PaidIsWorkedExactlyWhen | src/controllers/crmTimeproof.controller.ts:2107-2124 | Whatever happened around the look-back, a range of days is never paid for more than was worked in it, and for exactly that if and only if none of its work lies before the end of a shift running at the look-back and no break of that shift falls on a day of later work. |
| Payroll.OffLosesNothing | src/controllers/crmTimeproof.controller.ts:2107-2124 | Nothing is lost if nobody is on shift at the look-back and the days begin no earlier. |
| Payroll.WorkAcrossIsLost | src/controllers/crmTimeproof.controller.ts:2107-2124 | Someone at work at the look-back loses time of every range of days that the look-back lies in, a week that begins with it included. |
| Payroll.NightShiftIsLost | src/controllers/crmTimeproof.controller.ts:2107-2124 | A period that starts on a Saturday, with no clock change in the week, looks back to the Sunday's very midnight: whoever worked across it is short of time in the week that ends on that first day. |
| Payroll.PremiumIsWeekly | src/utils/payrollOvertime.ts:16-46 | From the weeks' totals, the premium is the sum over the Saturdays of the period of what the seven days hold above 40 hours. |
| Payroll.PremiumIsOwedExactlyWhen | src/utils/payrollOvertime.ts:16-46 | From the window's calendar, it never exceeds the time worked above 40 hours in those weeks, and is exactly that if and only if each of them stayed within 40 hours or lost nothing. |
| Payroll.PayrollOf | src/controllers/crmTimeproof.controller.ts:2121-2133 | The handler's step for one employee: calendar of the window, regular time, and in Utah premium and flagged weeks. |
| Payroll.LookbackReachesSundayExactlyWhen | src/controllers/crmTimeproof.controller.ts:2107 | The look-back of 144 hours reaches the Sunday of the first week that ends in the period unless that week ends on the first day and the clocks went back in it. |
| Payroll.PeriodsPayOnceExactlyWhen | src/controllers/crmTimeproof.controller.ts:2107-2133 | Over consecutive periods, each computed from its own window: regular time never exceeds the time worked from the first to the last, premium never the overtime due for the weeks ending in them, and both are exact if and only if no window lost any of it. |
| Payroll.OffPaysInFull | src/controllers/crmTimeproof.controller.ts:2107-2133 | If nobody is on shift at any look-back all regular time is paid, and all overtime if each look-back reaches its Sunday. |
| PushSubscriptions.CrmUsers.SubscribeCrmPush | src/controllers/crmTimeproof.controller.ts:2407-2450 | The three updates give the state of the specification: others lose the endpoint, the owner replaces or pushes it. |
| PushSubscriptions.SubscriptionsKeepInvariant | src/controllers/crmTimeproof.controller.ts:2407-2450 | Over any sequence of subscriptions an endpoint is held once, by one user, and nobody holds more than six. |
| PushSubscriptions.LatestIsKeptOldestEvicted | src/controllers/crmTimeproof.controller.ts:2407-2450 | The entry just made is kept beside entries held before; one of those is lost only from a full list, and none kept is older; other users lose exactly the entries of the endpoint. |
| PushSubscriptions.EveryRequestKeepsLatest | src/controllers/crmTimeproof.controller.ts:2407-2450 | So does every request of every run whose times go forward: all stored times stay below the next. |
| PushRuns.StepKeepsOneHolderExactlyWhen | src/controllers/crmTimeproof.controller.ts:2407-2450 | The pulls, the replacement and the push are separate updates: each leaves every endpoint one holder at most, save a push that finds another holder and stays among the six newest. |
| PushRuns.OneHolderExactlyWhen | src/controllers/crmTimeproof.controller.ts:2407-2450 | In every interleaving an endpoint has one holder at most all along if and only if no push is of that kind. |
| PushRuns.RunKeepsLists | src/controllers/crmTimeproof.controller.ts:2407-2450 | In every interleaving a list holds an endpoint once and six at most. |
| PushRuns.AloneIsSubscribe | src/controllers/crmTimeproof.controller.ts:2407-2450 | The updates in a row are the handler. |
| AftermarketInvoice.AftermarketInquiry.CreateInvoice | src/controllers/aftermarketInquiry.controller.ts:393-443 | The handler refuses empty lists, a second open invoice and totals that are not positive, each exactly then and changing nothing; otherwise it stores one more payment, right in every line, sum, tax and total, and marks the inquiry answered. |
| AftermarketInvoice.NewPaymentIsRight | src/controllers/aftermarketInquiry.controller.ts:405-443 | A new payment lists every line in order, adds up to the cent, is taxed to half a cent and is pending. |
| AftermarketInvoice.LineIsRight | src/controllers/aftermarketInquiry.controller.ts:405-419 | A stored line has quantity, price, kind and name as asked for, with their defaults, and quantity times price to half a cent, taken off if it is a discount. |
| AftermarketInvoice.SubtotalIsSumOfLines | src/controllers/aftermarketInquiry.controller.ts:405-421 | Rounding the sum again changes nothing: the subtotal is exactly the sum of the rounded lines. |
| AftermarketInvoice.SubtotalIsNear | src/controllers/aftermarketInquiry.controller.ts:405-421 | For n lines the subtotal is within n half-cents of the unrounded sum, strictly so below it. |
| AftermarketInvoice.DiscountsNeverRaise | src/controllers/aftermarketInquiry.controller.ts:406-421 | A discount never raises the subtotal, whatever the sign of its price; a line without quantity changes nothing; an ordinary line at a price not negative never lowers it. |
| AftermarketInvoice.TaxIsNear | src/controllers/aftermarketInquiry.controller.ts:422 | Tax is in whole cents and within half a cent of the rate applied to max(0, subtotal). |
| AftermarketInvoice.AmountIsSum | src/controllers/aftermarketInquiry.controller.ts:423 | The total is exactly subtotal plus tax. |
| AftermarketInvoice.PositiveExactlyWhen | src/controllers/aftermarketInquiry.controller.ts:421-424 | A total is accepted if and only if the subtotal is positive and subtotal times (100 + rate) is at least half, whatever the sign of the rate. |
| AftermarketInvoice.AcceptedHasPositiveSubtotal | src/controllers/aftermarketInquiry.controller.ts:421-424 | Every accepted invoice has a positive subtotal, and lines that really add up to more than minus n half-cents. |
| AftermarketInvoice.DiscountCancelsExactlyWhen | src/controllers/aftermarketInquiry.controller.ts:408-417 | Rounding is half up on both sides of zero, so an equal discount cancels a line if and only if its value does not end in half a cent; otherwise one cent remains. |
| AftermarketInvoice.OneOpenInvoice | src/controllers/aftermarketInquiry.controller.ts:393-443 | Over requests one at a time and settlements at most one invoice of an inquiry is open, and every invoice balances to the cent. |
| InvoiceRequests.LateCreateIsSoundExactlyWhen | src/controllers/aftermarketInquiry.controller.ts:393-443 | Looking up and creating are two operations: a creation that was allowed leaves one open invoice if and only if none is open by then. |
| InvoiceRequests.NextIsSoundExactlyWhen | src/controllers/aftermarketInquiry.controller.ts:393-443 | The same for every step of every request and every settlement. |
| InvoiceRequests.OneOpenExactlyWhen | src/controllers/aftermarketInquiry.controller.ts:393-443 | In every interleaving at most one invoice is open all along if and only if every creation finds none opened since its look-up. |
| InvoiceRequests.EveryInvoiceBalances | src/controllers/aftermarketInquiry.controller.ts:405-443 | In every interleaving every invoice balances to the cent. |
| InvoiceRequests.TwoOverlappingInvoices | src/controllers/aftermarketInquiry.controller.ts:393-443 | Two requests that both look before either creates leave two open invoices. |

## Left out

- LeadTimelinePages.PageIsExact: its tie condition is sufficient only; the exact condition is `LeadTimelineMerge.PageIsExactExactlyWhen`, counted out for one source by `LeadTimelineLimits.OneSourcePageIsExactWhen`.
- LeadTimelinePages.WalkCollectsEverything: assumes timelines that do not change during the walk and no crowd at any cursor; without the second `LeadTimelinePages.WalkEnds` still holds, without either `LeadTimelineRequests.RepliesDescend`.
- LeadTimelineLimits.OwnedPageIsExactWhen: for one source whose rows all come after the lead's own entry; for several see `LeadTimelineMerge.PageIsExactExactlyWhen`.
- AppointmentDashboard.MountainMidnightUtcMs: promises nothing for days before 1 January 100; a year that is not negative never asks for one.
- AppointmentDashboard.ResolveDashboardRange: for days after 1 January of the year 100; `new Date(text)`, for texts that are not plain dates, is a parameter.
- LeadTimelineRequests.DateGetsTheNewestOlderItems: its tie condition is sufficient only, as for `LeadTimelinePages.PageIsExact`.
- CrmReports.BuildLeadsOverTime: assumes a range from the year 100 on; day keys are dates, so that the text order of keys stands for date order.
- IdleLadder.EndsAreFarApart: stated at debug scale 1; other scales only stretch the minutes.
- PublicBooking.OneAppointmentPerKey: the claim does not expire during the run, which `BookingExpiry` adds, and compensating deletes succeed.
- BookingExpiry.ExpiryIsSafeExactlyWhen: an expiry may come at any time; that it takes seven days is not modelled.
- PublicBooking.BookingCollections.CreatePublicTestDriveBooking: one key's documents only, with fresh numbers for ids; validation before the claim, the lead's own fields, notifications and automations are not modelled.
- AiModeRuns.LogIsTruthfulExactlyWhen: a request's rows, at most one for a channel, are logged by one operation; a logging that stores some of them only is not modelled.
- AftermarketInvoice.OneOpenInvoice: requests do not overlap, which `InvoiceRequests` adds, and a cancelled or failed payment is not reopened.
- ServiceSlots.CounterIsAccountedFor: nobody else changes the counter or the maximum of the slot.
- PushSubscriptions.SubscriptionsKeepInvariant: subscriptions do not overlap, which `PushRuns` adds; the second collection of users is not modelled.
- ShiftHandlers.ReachableLogsAreWellFormed: requests one at a time, at increasing times and without automatic clock-outs; `ShiftRuns.LogStaysInGrammarExactlyWhen` is about all of these.
- ShiftRuns.LogStaysInGrammarExactlyWhen: no shift still open began before the look-back of a clock request; entries of one time are read in the order in which they were stored.
- IdleLadder.AtMostOncePerReset: beats one after another; for two that overlap see `IdleLadder.TwoBeatsEndTwiceExactlyWhen`.
- ShiftHandlers.TimeLogs.TimeClock: the checks made on a time-in alone (other identity, location) are one parameter.
- TimeLogEngine.BuildSessions: the log is given in time order, which the engine restores by sorting; now is one instant, although the engine reads the clock more than once.
- TimeSheetDays.GetMidnightSegments: the engine also takes a fixed offset in minutes instead of a zone; years are those from 100 on.
- TimeSheet.DayTotalIsWorkedTime: for logs in the grammar, and for days before a running shift reaches the cap.
- IdleLog.BuildIdleLog: recorded activity does not end before it starts.
- PayrollWindow.PaidIsWorkedExactlyWhen: for days before a running shift reaches the cap, and one instant of reading for all periods of a run; entries are not edited between two readings.
- PayPeriods.ComputeWeeklyOvertime: pay in money is not modelled, and neither are locks, exemptions by location and payslips.
- Streaks, hour patterns and rounded summaries of the time sheet are not modelled.
- LeadSource.FilterAgreesWithLabelExactlyWhen: sources are trimmed ASCII text; case folding beyond ASCII is not modelled, and neither is the provider that accompanies a label.
- Time zones are offset functions with two values an hour apart; where midnight matters, clocks change only when the wall clock reaches 02:00. Historical zones with other changes are not covered.
- Timeline ids are ranks in their collation order; e-mail messages, appointments, campaign mail, price-drop mail, notes and status history take part in the ordering claims only, as entries that are read whole.
- A timeline source that fails to load and the list of unavailable sources are not modelled.
- The safety and money checks of coaching texts are left open; allowing money never adds an issue, and a non-empty list of amounts agrees with itself.
- Floating-point rounding: money is real arithmetic with JavaScript's half-up rounding; amounts that are not finite are not modelled.
- White space in `trim` is ASCII.
- Screenshots, notification texts and the stored times of alerts in TimeProof are not modelled.
- Administrators' edits of time entries can leave the grammar by design.
- Average latency and token sums of the shadow-draft report are plain sums beside the modelled counts.
- Authentication, roles beyond the admin check on AI modes, sockets, push delivery, e-mail, storage, telephony and payment providers are not part of this model.
- Functions imported from services without modelled bodies (lead intake, appointment creation, audit writing) appear as parameters or outcomes.
