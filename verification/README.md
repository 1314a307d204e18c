# Workforce back end: verified model

A Dafny model of the parts of a multi-tenant HR back end (NestJS, TypeScript) whose behaviour depends on
whole runs, on loops over lists of any length, or on exact arithmetic. Database tables are sequences and
maps, a request is one atomic step, the clock is an integer in milliseconds, coordinates and hours are
exact reals. Objects that the services update in place are classes whose methods are proved against a
step function; the theorems are about all runs of that step function.

- `AttendanceLog`, `SessionPairing`, `WorkedHours`, `DayReports` (on `AttendanceEvents` and `Clock`): the
  check-in / check-out state machine, the exact shape of the logs it can produce, the greedy pairing of
  check-ins with check-outs as a maximum matching, and the reports, which keep one session per date.
- `ReportAgreement`, `ReportedHours`, `LogWindows`: exactly when the four readings of a log (listing, running
  total, self export, tenant export) agree in what they report, for every run, user and date range.
- `RefreshTokens`, `TokenHistory`: refresh-token rotation with reuse detection, logout, logout everywhere and
  the nightly purge, as a protocol; safety over all runs, the purge as a refinement of a service that never
  purges, and every answer as a consequence of the history of requests alone.
- `LoginLockout`, `LockoutHistory`: the failed-login counter, with an exact bound on the rate of guesses, and
  every answer as a consequence of the answers before it.
- `RayCasting`, `PolygonGeometry`, `GeofenceCheck`: the crossing-parity polygon test and what it means for
  convex polygons, rectangles, separated points and any polygon cut into triangles; the clamped projection on
  an edge, the boundary distances and the threshold decision that gates a check-in.
- `Csv`, `CsvCells`: the CSV printer against a reader of the format of RFC 4180, section 2.
- `Announcements`: the life cycle of announcements with the minute job that sends the due ones.
- `DateBounds`: date filters against the date a row is reported under.
- `Paging`, `MergedLists` (on `StableSort`): every paging form, and the lists merged in memory before paging.
- `DashboardCache`, `DashboardSummary`: the answer cache over interleaved requests, and the daily summary.

Where the code does not do what its neighbours or comments suggest, the model keeps the code and states the
exact condition:

- the listing reports one session per date, so it shows less time than its sessions hold iff a closed session
  is followed by another check-in of its date; when no abandoned check-in precedes a later check-out, the same
  condition says when it shows less than the running total (`LogWindows.ReportAgainstTotal`, with the lunch
  break of `ReportedHours.LunchHidesTheMorning`); before the report is cut down, the time in all sessions is
  the running total iff no abandoned check-in precedes a later check-out (`LogWindows.SessionsAgainstTotal`);
- the self export and the listing report the same iff, for the latest check-in of every date, no earlier
  check-in was abandoned or no check-out follows (`LogWindows.ExportsAgainstListing`);
- the tenant export reads its rows newest first and gives a check-in the newest check-out of the range, if that
  is later; it reports what the self export does iff the latest check-in of every date has at most one later
  check-out (`LogWindows.ExportsAgainstListing`);
- the purge is invisible except for the count that logout-everywhere reports, which falls short by exactly the
  unrevoked, expired rows of the user it removed (`RefreshTokens.CountFallsShort`);
- cancelling an announcement is not final: it stays cancelled exactly until an update touches its schedule while
  it is visible (`Announcements.CancelledUntilRescheduled`), and may then be sent;
- an announcement created to be sent at once for a tenant without users claims to be sent, has no sending time
  and can never be sent (`Announcements.ClaimsSentIff`);
- the CSV text can be read back iff the rows have at least one key (`Csv.RoundTripIff`);
- the filter of a date range passes exactly the instants reported under its dates iff no clock change misplaces
  its first or last midnight, a condition on the instant and the offsets of the change
  (`DateBounds.FilterMatchesDayKeyIff`, broken in `DateBounds.ClockChangeHidesAnInstant`); the two bound computations differ iff only a start date is given
  (`DateBounds.BoundsDifferIff`).

## Model

| member | source | states |
|---|---|---|
| `AttendanceLog.AttendanceService.GetActiveSession` | src/modules/attendance/attendance.service.ts:318-350 | the two queries: the user's latest check-in since UTC midnight, unless a later check-out exists |
| `AttendanceLog.AttendanceService.DoCreate` | src/modules/attendance/attendance.service.ts:154-249 | the answer and the whole new table for every request: location and fence refusals exactly when they apply, breaks always saved, a refusal leaves the table as it was, and a grant adds one row of that user, kind and instant with the approval and the near-boundary flag that go with it |
| `AttendanceLog.LatestCheckIn` | src/modules/attendance/attendance.service.ts:328-334 | the row found is a check-in of the user since that instant and none such is later; nothing is found only if there is none |
| `AttendanceLog.ActiveIsLast` | src/modules/attendance/attendance.service.ts:318-350 | on a log of the reachable shape the two queries find exactly the user's last clock row, if it is a check-in of the current UTC day |
| `AttendanceLog.GrantIffFollows` | src/modules/attendance/attendance.service.ts:199-213 | a clock request that passes the fence is granted iff its row may come next on the user's log; the refusal says which rule failed |
| `AttendanceLog.ReachableLogsAreWellFormed` | src/modules/attendance/attendance.service.ts:154-249 | after any run of requests of all users, each user's log has check-outs only directly after a check-in of the same UTC day, and consecutive check-ins only on different days |
| `AttendanceLog.WellFormedLogsAreReachable` | src/modules/attendance/attendance.service.ts:154-249 | conversely every log of that shape is the table of some run, so the shape is exact |
| `Clock.UtcDayIs` | src/modules/attendance/attendance.service.ts:324-327 | a UTC day runs from midnight to midnight, in milliseconds |
| `SessionPairing.FindLater` | src/modules/attendance/attendance.service.ts:399-401 | the index found is the first of a later check-out, or the length if none is later |
| `SessionPairing.PairSessions` | src/modules/attendance/attendance.service.ts:388-411 | the loop that splices matched check-outs out of the list yields the same sessions as a single forward scan with a pointer, on any time-sorted list |
| `SessionPairing.PairingIsMaximum` | src/modules/attendance/attendance.service.ts:896-912 | on any time-sorted log the sessions are a matching of check-ins to strictly later check-outs, each used once, that never crosses; no other such matching has more pairs; and every check-in has the first later check-out that no earlier check-in took |
| `WorkedHours.CalculateTotalWorkHours` | src/modules/attendance/attendance.service.ts:1805-1828 | the result is a whole number of hundredths nearest to the running total of the time-sorted list in hours of 3600000 ms, and the caller's list comes back sorted |
| `WorkedHours.TallyIsAdjacent` | src/modules/attendance/attendance.service.ts:1811-1825 | on any list the running total is the time from each check-in that a check-out directly follows, breaks aside, to that check-out |
| `WorkedHours.OutsTrailIns` | src/modules/attendance/attendance.service.ts:154-249 | on every reachable log the k-th check-out is later than the k-th check-in |
| `WorkedHours.Balance` | src/modules/attendance/attendance.service.ts:154-249 | on every reachable log the check-ins are at least the check-outs plus the open one, with equality iff no check-in was abandoned |
| `WorkedHours.PairingIsInStep` | src/modules/attendance/attendance.service.ts:1166-1184 | on every reachable log the greedy pairing is the k-th check-in with the k-th check-out |
| `WorkedHours.ReadingsOfARun` | src/modules/attendance/attendance.service.ts:395-411 | for every run and user, the time in all sessions, before one of each date is kept, is at least the running total of the events view, with equality iff no abandoned check-in precedes a later check-out |
| `DayReports.GroupByDay` | src/modules/attendance/attendance.service.ts:913-929 | the loop yields the report of the sessions: its dates are exactly the check-in dates, and each holds the first session with the latest check-in of its date |
| `DayReports.HoursOfDay` | src/modules/attendance/attendance.service.ts:939-949 | a day counts the time to its later check-out to the nearest hundredth of an hour, and nothing without one |
| `DayReports.TotalAddsUp` | src/modules/attendance/attendance.service.ts:977-991 | the reported total is additive over the days |
| `DayReports.TotalIsNearExact` | src/modules/attendance/attendance.service.ts:937-992 | the final rounding is the identity, and the total differs from the exact hours by at most 0.005 per day worked |
| `DayReports.ExportByDay` | src/modules/attendance/attendance.controller.ts:477-515 | the one-pass export loop yields the report of the sessions that match each check-in with the first later check-out of the list, used or not |
| `DayReports.SelfExportAgreesIff` | src/modules/attendance/attendance.controller.ts:498-500 | on every reachable log the search of the self export finds for all check-ins what the pairing finds iff no abandoned check-in precedes a later check-out |
| `DayReports.NewestIsFound` | src/modules/attendance/attendance.controller.ts:743-745 | searching a list read newest first for a later check-out finds the newest of all, or nothing |
| `DayReports.TenantExportAgreesIff` | src/modules/attendance/attendance.controller.ts:743-745 | the search of the tenant export finds for all check-ins what that of the self export finds iff the log has at most one check-out |
| `ReportAgreement.ReportsAgreeIff` | src/modules/attendance/attendance.service.ts:416-433 | two reports of the same check-ins are equal iff they match the latest check-in of each date alike |
| `ReportAgreement.SelfReportAgreesIff` | src/modules/attendance/attendance.controller.ts:493-515 | on every reachable log the self export and the listing report the same iff, for the latest check-in of every date, no earlier check-in was abandoned or no check-out follows |
| `ReportAgreement.TenantReportAgreesIff` | src/modules/attendance/attendance.controller.ts:727-761 | on every reachable log, read newest first, the tenant export reports what the self export does iff the latest check-in of every date has at most one later check-out |
| `ReportedHours.ReportWithinTotal` | src/modules/attendance/attendance.service.ts:416-447 | a report shows at most the time in its sessions, and all of it iff no closed session is followed by another check-in of its date |
| `ReportedHours.LunchHidesTheMorning` | src/modules/attendance/attendance.service.ts:416-447 | a reachable day with nothing abandoned of which the listing shows less than the running total |
| `LogWindows.WindowBody` | src/modules/attendance/attendance.service.ts:846-860 | what a date range leaves of a reachable log is, but for a leading check-out, again a reachable log |
| `LogWindows.BodyReadsAlike` | src/modules/attendance/attendance.service.ts:895-912 | a leading check-out changes neither the listing, nor the running total, nor either export |
| `LogWindows.SessionsAgainstTotal` | src/modules/attendance/attendance.service.ts:752-779 | for every run, user and date range, the time in all sessions is at least the running total of the rows read newest first and sorted, with equality iff no abandoned check-in precedes a later check-out |
| `LogWindows.ReportAgainstTotal` | src/modules/attendance/attendance.service.ts:846-929 | for every run, user and date range, the reported time is at most that of all sessions, with equality iff no closed session is followed by another check-in of its date, which also decides equality with the running total when no abandoned check-in precedes a later check-out |
| `LogWindows.ExportsAgainstListing` | src/modules/attendance/attendance.controller.ts:470-515 | for every run, user and date range, both conditions for the exports, as equalities of the reports |
| `RefreshTokens.AuthService.CreateUserTokenRecord` | src/modules/auth/auth.service.ts:115-132 | a login adds one unrevoked row that lives seven days, and nothing else changes |
| `RefreshTokens.AuthService.RefreshToken` | src/modules/auth/auth.service.ts:910-1059 | the outcome and the whole new table for every presented token; a rotation revokes the presented row, adds an unrevoked row of the same user for seven days and touches no other; a reuse revokes all rows of the user and no other; a refusal changes nothing |
| `RefreshTokens.AuthService.Logout` | src/modules/auth/auth.service.ts:1061-1100 | refused without a token or one that names no id; else exactly the named row is revoked, if it exists |
| `RefreshTokens.AuthService.LogoutAll` | src/modules/auth/auth.service.ts:1103-1117 | all rows of the user are revoked, no other row changes, and the count is the number of rows that change |
| `RefreshTokens.AuthService.GetActiveSessions` | src/modules/auth/auth.service.ts:1235-1253 | the user's rows that are neither revoked nor expired, each once, newest first |
| `RefreshTokens.AuthService.PurgeStaleTokens` | src/modules/auth/auth-token-cleanup.service.ts:26-40 | exactly the revoked or expired rows older than thirty days are removed |
| `RefreshTokens.FamiliesHaveOneLiveRow` | src/modules/auth/auth.service.ts:1010-1033 | in every reachable state the tokens rotated from one login have at most one unrevoked row |
| `RefreshTokens.VerifiedTokensKeepTheirRows` | src/modules/auth/auth-token-cleanup.service.ts:26-40 | in every reachable state an issued token that still verifies has its unexpired row |
| `RefreshTokens.DeadForever` | src/modules/auth/auth.service.ts:1010-1033 | a token whose row is revoked or gone stays so through every continuation |
| `RefreshTokens.SingleUse` | src/modules/auth/auth.service.ts:1006-1033 | in any run a token is refreshed successfully at most once |
| `RefreshTokens.ReplayIsDetected` | src/modules/auth/auth.service.ts:940-955 | presenting a refreshed token again is answered as reuse for as long as it verifies, whatever happened in between |
| `RefreshTokens.ReuseKillsEverySession` | src/modules/auth/auth.service.ts:940-955 | after a detected reuse no token issued to that user before ever refreshes in any continuation |
| `RefreshTokens.LogoutIsFinal` | src/modules/auth/auth.service.ts:1075-1109 | after a logout its token, and after a logout everywhere every token of the user issued before, never refreshes again |
| `RefreshTokens.RotatesIff` | src/modules/auth/auth.service.ts:915-1002 | in every reachable state a presented token rotates iff it verifies, is not dead and its owner is eligible; the branch for an expired row is never taken |
| `RefreshTokens.PurgeIsInvisible` | src/modules/auth/auth-token-cleanup.service.ts:26-40 | erasing the purges from any run leaves a legal run with the same answers to every login, refresh, logout and session list |
| `RefreshTokens.PurgeChangesCountIff` | src/modules/auth/auth.service.ts:1106-1115 | a purge changes the count of a logout everywhere iff one of the user's unrevoked rows is stale |
| `RefreshTokens.CountFallsShort` | src/modules/auth/auth.service.ts:1106-1115 | in every run the count of a logout everywhere is less than in the run without purges by exactly the user's unrevoked rows they removed, all expired |
| `RefreshTokens.PurgeCanChangeCount` | src/modules/auth/auth.service.ts:1106-1115 | a run in which it does |
| `TokenHistory.GoodUntilEnded` | src/modules/auth/auth.service.ts:1010-1033 | in every run a token, from a login or a rotation, has an unrevoked row exactly until a request refreshes it, logs it out, logs its user out everywhere, detects a reuse for its user, or purges the table thirty days after its issue |
| `TokenHistory.RefreshAnswer` | src/modules/auth/auth.service.ts:915-1046 | the answer to every signed refresh token from the history alone: some request issued it; invalid from seven days on, in whole seconds; reuse if ended; not eligible; else rotated |
| `TokenHistory.RotatedTokensRotate` | src/modules/auth/auth.service.ts:1018-1046 | a token fresh from a rotation rotates again while it verifies, its owner is eligible and nothing has ended it |
| `TokenHistory.SessionsAnswer` | src/modules/auth/auth.service.ts:1235-1253 | the session list holds exactly the tokens issued to the user, not ended and younger than seven days; a logout everywhere counts exactly those issued and not ended |
| `TokenHistory.FamiliesFollowLogins` | src/modules/auth/auth.service.ts:1010-1033 | a rotated token belongs to the login of the token it replaces |
| `LoginLockout.LoginGuard.ValidateUser` | src/modules/auth/auth.service.ts:527-600 | an accepted login clears the counter and lock of its account and changes no other; a failure counts one on the first account, locks it for fifteen minutes from the fifth on and changes no other; any other answer changes nothing; while locked no password is compared, and a failure compares all |
| `LoginLockout.FirstFit` | src/modules/auth/auth.service.ts:547-554 | the first account the password fits, or their number iff it fits none |
| `LockoutHistory.CounterIsHistory` | src/modules/auth/auth.service.ts:556-600 | in every run the counter of the first account is the number of wrong-password answers since the last success on it, and its lock is fifteen minutes after the last of them, from five on |
| `LockoutHistory.AnswerFromHistory` | src/modules/auth/auth.service.ts:527-600 | the answer to every attempt of every run from the answers before it: blocked iff five failed since the last success and the last less than fifteen minutes ago; else a wrong password with its number; else the first account the password fits, if verified |
| `LoginLockout.LockIffFiveAttempts` | src/modules/auth/auth.service.ts:556-600 | in every state a run can reach, five or more failures are on record iff a lock was set |
| `LoginLockout.RateBound` | src/modules/auth/auth.service.ts:531-569 | between two resets a window of any length holds at most five failed attempts, each comparing every account of the address, plus one per full fifteen minutes |
| `LoginLockout.RateBoundIsReached` | src/modules/auth/auth.service.ts:556-569 | the bound is exact: for windows of whole fifteen minutes some run of one account reaches it |
| `RayCasting.CrossingLoop` | src/common/utils/geofence.util.ts:78-93 | the loop with its trailing index reports inside iff an odd number of edges of the closed polygon, as a set of indices, pass the point on its right, stated by the side of the point and without division |
| `RayCasting.RotationInvariant` | src/common/utils/geofence.util.ts:78-93 | the answer does not depend on which vertex the list starts with |
| `RayCasting.ReversalInvariant` | src/common/utils/geofence.util.ts:78-93 | nor on the direction in which the vertices are listed |
| `RayCasting.InsertionInvariant` | src/common/utils/geofence.util.ts:78-93 | nor on further vertices on an edge, at any fraction of it |
| `RayCasting.ClosingInsertionInvariant` | src/common/utils/geofence.util.ts:78-93 | the same for the edge that closes the polygon |
| `RayCasting.InsideImpliesInBox` | src/common/utils/geofence.util.ts:183-195 | a point reported inside is in the half-open bounding box of the vertices, for any number of vertices; left of all of them the crossings are even |
| `PolygonGeometry.SeparatedIsOutside` | src/common/utils/geofence.util.ts:78-97 | a point that some line separates strictly from all vertices is reported outside, for any polygon |
| `PolygonGeometry.ConvexInterior` | src/common/utils/geofence.util.ts:78-97 | a point strictly left of every edge of a strictly convex polygon, of any number of vertices, is reported inside |
| `PolygonGeometry.ConvexExterior` | src/common/utils/geofence.util.ts:78-97 | a point strictly beyond any edge of it is reported outside |
| `PolygonGeometry.RectangleIsItsBox` | src/common/utils/geofence.util.ts:78-97 | a rectangle along the axes contains exactly its box without the upper and right sides |
| `PolygonGeometry.FanDecomposition` | src/common/utils/geofence.util.ts:78-97 | any polygon contains a point iff an odd number of the triangles of its fan do |
| `GeofenceCheck.ClosestIsLeast` | src/common/utils/geofence.util.ts:32-67 | the clamped projection is the point of the edge, degenerate edges included, with the least planar squared distance, and the only one |
| `GeofenceCheck.SomeWithinIffNear` | src/common/utils/geofence.util.ts:197-237 | the minimum is within m iff the globe distance to the planar nearest point of some edge, the closing one included, or to some vertex where vertices count, is within m |
| `GeofenceCheck.DistanceToPolygonBoundary` | src/common/utils/geofence.util.ts:173-238 | the result is at most the globe distance to the planar nearest point of every edge, the closing one included, and, for an outside point, to every vertex, and is one of these distances; none below three vertices |
| `GeofenceCheck.IsPointInPolygon` | src/common/utils/geofence.util.ts:69-118 | true iff there are three vertices and an odd number of edges pass on the right or the planar nearest point of some edge is within 20 metres |
| `GeofenceCheck.NearestIsClosest` | src/common/utils/geofence.util.ts:40-64 | the clamped projection is the nearest point of the edge, and nothing else is |
| `GeofenceCheck.MinOf` | src/common/utils/geofence.util.ts:132-135 | an element of the list and no greater than any |
| `GeofenceCheck.MaxOf` | src/common/utils/geofence.util.ts:132-135 | an element of the list and no less than any |
| `GeofenceCheck.NearMeansWithinButNotStrictly` | src/common/utils/geofence.util.ts:303-422 | for every fence near-boundary is exactly within but not strictly within, and then the boundary is no farther than the threshold in force |
| `GeofenceCheck.WithinGrowsWithThreshold` | src/common/utils/geofence.util.ts:321-421 | raising the threshold or switching one on never shuts a point out, for any shape |
| `GeofenceCheck.RoundFence` | src/common/utils/geofence.util.ts:150-160 | circles, and old rows with 100 metres: within iff the distance is at most radius plus 20 metres or plus a threshold in force, near iff only the latter |
| `GeofenceCheck.PolygonFence` | src/common/utils/geofence.util.ts:389-421 | polygons: both results, from the parity of edges to the right, the nearest points of edges within 20 metres, and those and the vertices within a threshold in force |
| `GeofenceCheck.RectangleFence` | src/common/utils/geofence.util.ts:368-421 | rectangles: both results, from the box of the vertices widened by 20 / 111000 degrees and by the longitude margin at the middle latitude, and from edges and vertices within a threshold in force; the inside branch of the distance never decides |
| `GeofenceCheck.IncompleteFence` | src/common/utils/geofence.util.ts:308-412 | a fence without a readable location or without what its shape needs admits nobody |
| `GeofenceCheck.GateAnswers` | src/modules/attendance/attendance.service.ts:167-197 | a check-in is refused for its location iff there is a fence and no location, and for the fence iff the location is not within |
| `GeofenceCheck.SavedCheckInsAreWithin` | src/modules/attendance/attendance.service.ts:167-197 | a check-in saved under a fence had a location within it, and its row is flagged iff it was not strictly within |
| `Csv.RoundTripIff` | src/common/utils/csv.util.ts:3-28 | reading the printed text gives back the headers and the text of every cell, for all rows, iff there is at least one key |
| `CsvCells.CellsComeBack` | src/common/utils/csv.util.ts:8-27 | reading the printed text gives the keys of all rows, each once in the order they are met row by row, and then for every row, under every key, the text of the row's own cell of that key, or nothing if it has none |
| `CsvCells.QuotedOnlyIfNeeded` | src/common/utils/csv.util.ts:14-23 | a field is quoted iff it holds a quote, a comma or a line break, and else printed as it is |
| `CsvCells.KeylessRows` | src/common/utils/csv.util.ts:3-27 | rows without any key print as one line feed each, no rows as nothing |
| `Csv.PrintingIsInjective` | src/common/utils/csv.util.ts:3-28 | with at least one key, rows print alike only if their tables are the same |
| `Csv.HeadersInOrder` | src/common/utils/csv.util.ts:8-12 | the headers are exactly the keys of all rows, ordered by where each first appears, hence each once |
| `Csv.ReadsField` | src/common/utils/csv.util.ts:14-23 | the reader takes an escaped field, whatever it contains, back to its text and stops at the separator |
| `Announcements.AnnouncementService.Create` | src/modules/announcement/announcement.service.ts:78-116 | exactly one row is added, draft or scheduled with its time, and nobody is mailed; or it is sent out at once |
| `Announcements.AnnouncementService.Update` | src/modules/announcement/announcement.service.ts:231-276 | refused for unknown and sent rows; else only the schedule and the state that goes with it change |
| `Announcements.AnnouncementService.SoftDelete` | src/modules/announcement/announcement.service.ts:281-295 | the row is marked and hidden, nothing else changes |
| `Announcements.AnnouncementService.Send` | src/modules/announcement/announcement.service.ts:300-330 | done iff the row is visible and draft or scheduled, and then every user of its tenant is mailed in order and the row is stamped; else nothing changes |
| `Announcements.AnnouncementService.Cancel` | src/modules/announcement/announcement.service.ts:335-368 | refused for unknown and sent rows; else cancelled and unscheduled |
| `Announcements.AnnouncementService.SendAnnouncementToTenant` | src/modules/announcement/announcement.service.ts:370-439 | without users nothing changes; else all are mailed in order, the row becomes sent, and its recipients count the mails that got through |
| `Announcements.AnnouncementService.ProcessScheduledAnnouncements` | src/modules/announcement/announcement.service.ts:445-520 | one round over the due rows of all legacy tenants, then one per provisioned tenant |
| `Announcements.RunsKeepOrder` | src/modules/announcement/announcement.service.ts:83-105 | in every run a scheduled row has a time, a draft or cancelled one has none, a sending time implies sent, mails are only about rows with a sending time, and no user is mailed twice about one |
| `Announcements.SentIsFinal` | src/modules/announcement/announcement.service.ts:246-250 | no request changes a sent row except to mark it deleted |
| `Announcements.SentForever` | src/modules/announcement/announcement.service.ts:311-313 | so a row once sent stays as it is through every continuation of every run |
| `Announcements.SendMailsEverybody` | src/modules/announcement/announcement.service.ts:397-425 | sending mails every user of the tenant |
| `Announcements.ScanClears` | src/modules/announcement/announcement.service.ts:445-520 | after a scan no due announcement is left in any covered tenant that has users |
| `Announcements.ScanSendsTheDue` | src/modules/announcement/announcement.service.ts:445-520 | a scan stamps exactly the announcements that are scheduled for now or earlier, not deleted, and of a covered tenant with users; every other row stays as it is |
| `Announcements.ScanMailsTheDue` | src/modules/announcement/announcement.service.ts:445-520 | a scan mails exactly the users of those tenants about exactly those announcements |
| `Announcements.TenantsAreApart` | src/modules/announcement/announcement.service.ts:231-368 | a request is not found iff the row is missing, deleted or another tenant's, then nothing changes; and it never changes another row |
| `Announcements.CancelledUntilRescheduled` | src/modules/announcement/announcement.service.ts:231-276 | in every run a cancelled announcement is cancelled after each of the next requests iff none of them is an update of its schedule while it is visible |
| `Announcements.ClaimsSentIff` | src/modules/announcement/announcement.service.ts:83-105 | in every run a row is sent without a sending time iff it was created to be sent at once for a tenant that had no users |
| `Announcements.CancelledMayStillBeSent` | src/modules/announcement/announcement.service.ts:257-264 | a run in which a cancelled announcement is rescheduled and sent |
| `DateBounds.DaysMeetUpToOffset` | src/common/utils/date.util.ts:49-61 | the end of a day plus one less the start of the next is the change of the offset between their noons |
| `DateBounds.InstantsBound` | src/modules/attendance/attendance.service.ts:631-645 | full instants bound the filter as they are, with or without a zone, and a missing side is open |
| `DateBounds.UtcDayBounds` | src/modules/attendance/attendance.service.ts:631-645 | without a zone a date runs from its first to its last millisecond in UTC |
| `DateBounds.RangeOfOneDay` | src/modules/attendance/attendance.service.ts:127-134 | a start date alone is the range of that one day, and no dates are all time |
| `DateBounds.UtcFilterMatches` | src/modules/attendance/attendance.service.ts:624-646 | without a zone an instant passes the filter of a date range iff its UTC date lies in it |
| `DateBounds.StartAgreesIff` | src/common/utils/date.util.ts:35-61 | the start of a day treats every instant as its reported date does iff the clock change around it does not fall between the noon that decides the offset and a reading of that midnight |
| `DateBounds.EndAgreesIff` | src/common/utils/date.util.ts:35-61 | the same for the end of a day and the next midnight |
| `DateBounds.FilterAgreesIffSidesDo` | src/modules/attendance/attendance.service.ts:624-646 | in any zone, instant by instant, a range agrees with the reported dates iff both its sides do: they never make up for each other |
| `DateBounds.FilterMatchesDayKeyIff` | src/modules/attendance/attendance.service.ts:624-646 | the filter passes exactly the instants reported under the dates of the range iff no clock change misplaces its first or its last midnight; changes between do not matter |
| `DateBounds.BackwardRangePassesIff` | src/modules/attendance/attendance.service.ts:624-646 | a range that ends before it starts passes some instant iff the offsets move its end past its start |
| `DateBounds.DaysTile` | src/common/utils/date.util.ts:35-61 | with a constant offset every instant is in exactly one day's bounds, that of its reported date |
| `DateBounds.ClockChangesLeaveGaps` | src/common/utils/date.util.ts:49-61 | between two days some instant is in neither iff the offset grows, and some in both iff it shrinks |
| `DateBounds.ClockChangeHidesAnInstant` | src/common/utils/date.util.ts:49-61 | a zone and an instant whose own reported day does not let it pass |
| `DateBounds.BoundsDifferIff` | src/modules/attendance/attendance.service.ts:106-135 | the two ways of computing bounds give different results iff only a start date is given |
| `Paging.PagesAreAll` | src/common/dto/pagination.dto.ts:98-120 | the pages from the first to the last are the list, once and in order |
| `Paging.PageIsSlice` | src/common/dto/pagination.dto.ts:116-120 | page k holds the elements from (k - 1) * limit up to k * limit, cut at the end |
| `Paging.PageBeforeFirst` | src/modules/designation/designation.service.ts:188-217 | page zero is empty, and page numbers below it count from the end of the list |
| `Paging.MetaIsRight` | src/common/dto/pagination.dto.ts:98-113 | the least number of pages that hold all elements, and both flags |
| `Paging.NextPageIffMore` | src/common/dto/pagination.dto.ts:98-113 | hasNextPage iff elements remain, and iff the next page is not empty |
| `Paging.FetchAll` | src/modules/attendance/attendance.controller.ts:677-699 | the batch loop ends with all rows in order after one batch more than there are full batches |
| `Paging.AllTeamMembers` | src/modules/attendance/attendance.service.ts:817-831 | the page loop ends with all members in order after exactly the number of pages |
| `Paging.VerifyTeamMember` | src/modules/attendance/attendance.service.ts:1776-1804 | true iff the employee is among all members |
| `MergedLists.Deduplicate` | src/modules/designation/designation.service.ts:207-213 | the filter with its growing set keeps the first row of every id |
| `MergedLists.FindAllByDepartment` | src/modules/designation/designation.service.ts:180-225 | the requested slice of the merged list, for any page number, with its total and page count |
| `MergedLists.DepartmentPagesAreComplete` | src/modules/designation/designation.service.ts:206-217 | all pages together show no id twice, newest first, and exactly the rows that stand for their id: the tenant's own, a shared one only where the tenant has none |
| `MergedLists.EveryIdIsShown` | src/modules/designation/designation.service.ts:206-213 | every id of either table has a row that stands for it |
| `MergedLists.GlobalPagesAreComplete` | src/modules/announcement/announcement.service.ts:156-201 | all pages together, at least one, show every announcement of all tenants as often as it is stored, newest first |
| `MergedLists.FlattenHolds` | src/modules/announcement/announcement.service.ts:181-182 | the tables of all tenants follow one another whole |
| `MergedLists.GlobalTiesKeepOrder` | src/modules/announcement/announcement.service.ts:181-184 | announcements of one instant stay in the order they were read, the shared table first |
| `StableSort.SortIsStable` | src/modules/announcement/announcement.service.ts:181-184 | elements of equal key keep their order |
| `StableSort.SortedIsUnique` | src/modules/attendance/attendance.service.ts:1806-1809 | with distinct keys sorting has only one possible result, so the order of the rows read does not matter |
| `DashboardCache.DashboardService.GetCache` | src/modules/dashboard/dashboard.service.ts:41-49 | the entry's value up to and including its expiry; later nothing, and the entry is gone |
| `DashboardCache.DashboardService.SetCache` | src/modules/dashboard/dashboard.service.ts:51-60 | the key's entry is replaced, no other changes |
| `DashboardCache.KeysAreInjective` | src/modules/dashboard/dashboard.service.ts:303-303 | different questions have different keys, so no tenant, role, user or day is served another's answer |
| `DashboardCache.LookupIsLatest` | src/modules/dashboard/dashboard.service.ts:41-60 | in every run of interleaved lookups and stores a lookup gives exactly the latest answer stored for the same question while it is within its time to live, and nothing otherwise |
| `DashboardCache.StalenessBound` | src/modules/dashboard/dashboard.service.ts:51-60 | a cached answer was stored for that question at most its time to live, hence five minutes, ago |
| `DashboardSummary.PresentUsers` | src/modules/dashboard/dashboard.service.ts:338-358 | a user is reported iff some check-in not rejected has a later check-out of the same user and date |
| `DashboardSummary.ClosesIffLater` | src/modules/attendance/attendance.service.ts:395-411 | the greedy pairing closes some session iff some check-out is later than some check-in |
| `DashboardSummary.PresentIffSessionClosed` | src/modules/dashboard/dashboard.service.ts:347-358 | on one day's rows the dashboard's presence is having a closed session in the pairing of the check-ins not rejected |
| `DashboardSummary.GetAttendanceSummary` | src/modules/dashboard/dashboard.service.ts:371-399 | an entry for exactly the departments that occur, unnamed ones as unassigned, whose numbers are the sizes of the sets of its employees, of those present and not on leave, and of those neither |
| `DashboardSummary.SummaryConserves` | src/modules/dashboard/dashboard.service.ts:371-399 | each column summed over the departments is its count over the company, the totals sum to the number of employees, and total = present + absent + on leave in each department |

## Left out

- Races: every request is one atomic step; two requests on the same row at once are not modelled.
- The attendance clock: requests arrive at strictly increasing instants, so no two rows share a timestamp.
- Rows that did not come through the check-in endpoint (migrated rows, the manual update and remove endpoints) and later approval or rejection of a check-in.
- WorkedHours.ReadingsOfARun: a step on whole logs, before one session of each date is kept; what the reports show, over any date range, is in LogWindows.
- LogWindows.ReportAgainstTotal: compares exact times; the rounding of each date and of the total is bounded apart, in DayReports.TotalIsNearExact.
- Notifications, timesheets, employee and manager lookups around a check-in; whether it is approved at once is an input.
- The choice of fence: the active fence of the team is an input; without a team, a fence or a tenant schema there is none.
- RefreshTokens.AuthService.RefreshToken: the checks on user, tenant and employee between lookup and rotation are one input, and a good signature means an issued token, since signing is not modelled.
- Access tokens, platform, device and last-use columns, and the deletion of a user with its rows.
- LoginLockout.LoginGuard.ValidateUser: starts where the accounts of the address are known; the signup branch before and the role, tenant and employee checks after the counter reset are not modelled, the table is read in a fixed order, and a password comparison is an input.
- Great-circle distance, the cosine in the longitude margin and floating-point rounding: distance and margin are arbitrary functions, arithmetic is exact.
- Coordinate lists with entries that are not pairs of numbers; the program logs and rejects them.
- GeofenceCheck.RectangleFence: assumes a longitude margin that is not negative, as the cosine of a latitude is.
- Csv.RoundTripIff: cells are the text the runtime converts them to; null rows and keys that the runtime reorders or inherits are not modelled, and the reader separates records by a line feed.
- Announcements: titles, categories and priorities, the storage split between shared and tenant schemas, and failures to save a row after its mails went out.
- Time zone data: a zone is any offset at every instant; the parsing of date strings is not modelled.
- DateBounds.FilterMatchesDayKeyIff: the range does not end before it starts, offsets stay within a day of UTC and of each other, and the zone has at most one clock change around the first day and one around the last; DateBounds.FilterAgreesIffSidesDo covers several changes.
- Date groups and summaries are maps: the order in which the runtime lists their keys is not modelled.
- The queries behind the paging loops are slices of one list that does not change between pages.
- DashboardCache: the stored answer is a value; how long its computation took before it was stored is not modelled, and neither is a clock that is set back.
- DashboardSummary: which employees, leave records and rows the queries select is an input.
- Employee growth, key figures and alerts of the dashboard: running sums and counts that would only add easy members.
- Guards, roles, permissions, billing, leave, workflow, migrations, entities, validation of requests.
