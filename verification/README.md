# Appointment lifecycle of the hospital appointment service

This project is a Dafny model of the appointment lifecycle of DocWebApp. DocWebApp is an Express service on SQLite where patients book appointments with doctors. The model covers:

- **The store** (`Schema`): the `users`, `appointments` and `notifications` tables as sequences of rows. It has the role and status enumerations, the column defaults, the AUTOINCREMENT counters, and the integrity rules the schema enforces (`Valid`).
- **The expiration sweep** (`Sweep`): `markExpiredAppointmentsAndNotify`. It selects the booked appointments whose time has passed, joined with their patient. In one transaction it marks each one `expired` with `message_sent = 1` and appends an `appointment_expired` notification. It returns `{ expiredCount, notified }`.
- **Authentication** (`Auth`): bearer-token extraction in `authRequired`, and the `requireRole` gate.
- **The handlers** (`Handlers`): registration, booking, `GET /appointments/me`, and the status update `PATCH /appointments/:id/status`. Each handler returns either an error (and changes nothing) or the new store.
- **The notification discipline** (`Lifecycle`): the invariant "`message_sent` is set exactly when the appointment has its one expiry notification, and an expired appointment has it set". The module proves which operations keep it and which handler sequence breaks it. It also proves the weaker rule that every run of the handlers as written keeps: an expired appointment has been notified at least once.
- **Times as text** (`TimeText`): how SQLite compares the stored time text with the ISO text of `now`.

Times are integer instants. The handlers store every time through `toISOString()`. For years 0000 to 9999 that gives one layout, `YYYY-MM-DDTHH:mm:ss.sssZ`, in which text order is time order; the model assumes every stored time lies in that range. `TimeText` shows what happens when a row does not follow that layout. Three things from outside the core become parameters:

- `iso`: the text of an instant, as embedded in the notification message;
- `parse`: the date library's validity check and conversion for a booking time;
- `verify`: the JWT check of a token.

## Model

| member | source | states |
|---|---|---|
| Schema.ParseRole | src/db.js:17 | The `role` column accepts exactly the three role names; every accepted text names its role. |
| Schema.ParseStatus | src/db.js:28 | The `status` column accepts exactly the four status names. |
| Schema.FreshUserId | src/db.js:13 | Under the integrity rules, an id at or above the users counter belongs to no user. |
| Schema.FreshAppointmentId | src/db.js:23 | Under the integrity rules, an id at or above the appointments counter belongs to no appointment. |
| Schema.EmptyStoreValid | src/db.js:10-46 | A freshly created database satisfies every integrity rule. |
| Sweep.Candidates | src/appointmentService.js:6-13 | The selection holds only booked rows with time strictly before `now`, each paired with its patient row. It holds every such row whose patient exists. |
| Sweep.CandidatesCount | src/appointmentService.js:8-11 | When patients resolve, the selection has one entry per booked row whose time is before `now`. |
| Sweep.SelectedIffExpirable | src/appointmentService.js:11 | A row's id is selected if and only if the row is booked with time strictly before `now`. |
| Sweep.RetireAll | src/appointmentService.js:19-30 | The transaction expires exactly the rows whose id was selected and appends one notice per selected row. It leaves users and the other counters alone. |
| Sweep.MarkExpired | src/appointmentService.js:3-38 | The count equals the length of `notified` and the number of appended notifications. Old notifications stay as a prefix and users are unchanged. With nothing selected, the store is unchanged and the summary is `{0, []}`. |
| Sweep.SweepRows | src/appointmentService.js:11-19 | After a sweep, each row that was booked with time before `now` is expired with `message_sent` set. Every other row is exactly as before, including one timed exactly at `now`. |
| Sweep.SweepCount | src/appointmentService.js:34-35 | `expiredCount` is the number of booked rows timed before `now`. |
| Sweep.SweepNotified | src/appointmentService.js:36 | Entry `j` of `notified` names the appointment of the `j`-th new notification and the e-mail of its recipient. |
| Sweep.SweepNoticeFields | src/appointmentService.js:20-28 | Every new notification takes the next id from the counter. It is the `appointment_expired` notice of some expirable row: to its patient, about that row, carrying the fixed message with the patient's name and the scheduled time. |
| Sweep.SweepNoticesOnce | src/appointmentService.js:24-30 | Among the new notifications, each expirable row has exactly one expiry notice and every other row has none. |
| Sweep.ExpiryNoticesAppend | src/appointmentService.js:28 | Appending notifications adds their per-appointment expiry-notice counts. |
| Sweep.NothingDueNothingSelected | src/appointmentService.js:15-17 | With no expirable row, the selection is empty. |
| Sweep.SweepLeavesNothingDue | src/appointmentService.js:11-19 | After a sweep, no row is booked with a time before the same `now`. |
| Sweep.SweepIdempotent | src/appointmentService.js:11-17 | A second sweep at the same `now` retires nothing, notifies no one and returns the store unchanged. |
| Sweep.SweepKeepsKeys | src/appointmentService.js:19 | A sweep keeps each row's id, patient and doctor. |
| Sweep.SweepNoticeAt | src/db.js:35-44 | After a sweep, each notification's user and appointment resolve, old notifications keep their place, and new ones take ids from the counter. |
| Sweep.SweepNoticeIdsDistinct | src/db.js:36 | After a sweep, notification ids are pairwise distinct. |
| Sweep.SweepPreservesValid | src/db.js:31-43 | A sweep keeps every integrity rule of the schema. |
| Auth.BearerToken | src/auth.js:9-10 | A token exists if and only if the header starts with `Bearer `. The token is the rest of the header after that prefix. |
| Auth.BearerTokenRoundTrip | src/auth.js:10 | Extracting from `Bearer ` followed by any token gives back exactly that token. |
| Auth.Authenticate | src/auth.js:8-22 | A missing prefix or an empty token is refused as missing. A request is admitted if and only if the token after the prefix is non-empty and verifies, and then as the verified principal. |
| Handlers.RoleGates | src/auth.js:24-29 | For every store and every body, booking is refused as forbidden exactly for a caller who is neither patient nor admin, and the status update exactly for one who is neither doctor nor admin. A patient never reaches the update and a doctor never books. |
| Handlers.NormalizeRole | src/server.js:29 | One of the three role names keeps its role; anything else becomes patient. |
| Handlers.Register | src/server.js:23-42 | A missing name, e-mail or password gives the missing-fields error. Otherwise a registered e-mail gives the duplicate error. Otherwise one user is appended with the next id and the normalised role. |
| Handlers.RegisterPreservesValid | src/server.js:30-38 | Registration keeps the integrity rules, including unique e-mail. The new user's id was unused, and the user is found under it. |
| Handlers.Book | src/server.js:74-105 | A doctor is forbidden. The other errors come in the handler's order, each if and only if every earlier check passed: missing doctor id or time, a time that does not parse, a doctor id that names no doctor, a caller whose account is gone. Booking succeeds if and only if all checks pass. Success appends one booked, unnotified row for the caller with the next id. |
| Handlers.BookPreservesValid | src/server.js:89-91 | Booking keeps the integrity rules. The new row's id was unused, and the row is booked, unnotified and owned by the caller. |
| Handlers.Listed | src/server.js:108-117 | The filtered join lists only the caller's rows (by doctor for a doctor, by patient otherwise) with the other party's stored name and e-mail. It lists every such row whose other party exists. When appointment ids are unique, each appointment is listed at most once. |
| Handlers.SortByTimeDesc | src/server.js:112 | The ordering step returns a permutation of its input, latest time first, and keeps a list without repeated appointments free of them. |
| Handlers.InsertKeepsDistinct | src/server.js:112 | Inserting a row for an appointment not yet in a sorted list leaves every appointment listed at most once. |
| Handlers.MyAppointments | src/server.js:107-119 | The answer is sorted latest first and is a permutation of the filtered join. When appointment ids are unique, no appointment appears twice. |
| Handlers.MyAppointmentsExact | src/server.js:108-117 | Under the integrity rules, an appointment is listed if and only if it is the caller's. |
| Handlers.MyAppointmentsCounterpart | src/server.js:110-115 | Every listed row is the caller's and carries the other party's stored name and e-mail. |
| Handlers.PatchTarget | src/server.js:123-127 | Exactly `booked`, `completed` and `cancelled` are accepted as targets; `expired` and anything else are refused. |
| Handlers.UpdateStatus | src/server.js:121-140 | A patient is always forbidden. An invalid target, or no such appointment, fails in that order. Success requires a doctor or admin and an existing id, and only rewrites the status of that id. |
| Handlers.UpdateStatusOwnership | src/server.js:134-136 | Under the integrity rules, the ownership refusal happens exactly for a doctor naming another doctor's row. An update succeeds exactly for an admin or for the row's own doctor. |
| Handlers.UpdateStatusFrame | src/server.js:138 | On success only the targeted row's status changes. Its `message_sent` flag, the other rows, the other tables and the counters stay as they were, whatever the prior status. The integrity rules still hold. |
| Handlers.GuardedUpdateStatus | src/server.js:121-140 | The update with the terminal-state rule. Where the handler refuses, it refuses in the same way. Where the handler succeeds, it gives the handler's result if the first row with the id is booked, and the illegal-transition error if it is not. |
| Handlers.GuardedUpdateAt | src/server.js:121-140 | Under unique ids, for the row carrying the id: the guarded update equals the handler's update when that row is booked, and is the illegal-transition error otherwise. |
| Lifecycle.NoNoticesForFreshId | src/db.js:43 | When every notification's appointment resolves, no notification refers to an unused id. |
| Lifecycle.SweepPreservesNotices | src/appointmentService.js:19-28 | A sweep keeps the discipline: `message_sent` is set exactly when the row has its one expiry notice, booked rows are unflagged, and expired rows are flagged. |
| Lifecycle.BookPreservesNotices | src/server.js:89-91 | Booking keeps the notification discipline. |
| Lifecycle.UpdatePreservesNotices | src/server.js:138 | A status update keeps the discipline unless it moves an already-notified row back to `booked`. |
| Lifecycle.GuardedUpdatePreservesNotices | src/server.js:121-140 | The update with the terminal-state rule always keeps the discipline and the integrity rules. |
| Lifecycle.StepPreserves | src/server.js:23-140 | Every request and every sweep keeps the integrity rules and the discipline, except an unguarded update to `booked`. |
| Lifecycle.RunAtMostOnce | src/appointmentService.js:11-28 | Over any sequence of sweeps and requests, each appointment has at most one expiry notice. This holds always with the terminal-state rule, and for the handler as written when no update asks for `booked`. |
| Lifecycle.FreshRunAtMostOnce | src/db.js:10-46 | The same bound for every run that starts from a fresh database. |
| Lifecycle.StepKeepsValid | src/server.js:23-140 | Every request and every sweep, including the unguarded update to `booked`, keeps the integrity rules. |
| Lifecycle.SweepKeepsExpiredNotified | src/appointmentService.js:19-28 | A sweep expires a row only while it appends that row's notice and sets its flag, and never removes a notice. So every expired row stays flagged and notified. |
| Lifecycle.UpdateKeepsExpiredNotified | src/server.js:123-138 | A status update never writes `expired` and does not touch notifications or ids, so every expired row stays flagged and notified. |
| Lifecycle.StepKeepsExpiredNotified | src/server.js:23-140 | Every request and every sweep keeps every expired row flagged and notified. |
| Lifecycle.RunKeepsExpiredNotified | src/appointmentService.js:19-28 | Over any run of the handlers as written, rebooking included, every expired appointment has `message_sent` set and at least one expiry notice. |
| Lifecycle.FreshRunExpiredNotified | src/db.js:10-46 | The same for every run that starts from a fresh database. |
| Lifecycle.SweepAddsOneNotice | src/appointmentService.js:24-30 | A sweep over an expirable row expires it and adds exactly one expiry notice for its id. |
| Lifecycle.AdminRebooks | src/server.js:123-138 | An admin can set any existing row back to `booked`; its `message_sent` flag stays set. |
| Lifecycle.RebookThenSweepNotifiesTwice | src/server.js:123-138 | Sweep, then an admin rebooking the row, then sweep again: the appointment ends up with two expiry notices. |
| TimeText.LexLessCommonPrefix | src/appointmentService.js:11 | In the text order the stored times are compared in, a shared prefix does not decide the comparison. |
| TimeText.SameDaySqliteTimeSelected | test/appointmentService.test.js:47-53 | A booked row stored in SQLite's `datetime()` layout is selected by a sweep on the same date, whatever its clock time. |
| TimeText.FutureTestRowSelected | test/appointmentService.test.js:50-55 | The test's row two hours in the future is selected by a sweep at noon UTC. |
| TimeText.ExpandedYearSelected | src/appointmentService.js:11 | A stored time in the expanded `+YYYYYY` layout sorts before every four-digit-year `now`, so a booked row so far in the future is selected by every sweep. |
| TimeText.YearTenThousandSelected | src/server.js:80-91 | The booking time 253402300800000 (milliseconds), stored as `+010000-01-01T00:00:00.000Z`, is selected by a sweep on 2026-10-09. |
| TimeText.TestScenarioWithInstants | test/appointmentService.test.js:44-64 | With times compared as instants, the test's scenario retires only the past row, with one notice for it and none for the future row. |

## Left out

- Password hashing, login and JWT signing are foreign crypto and are not modelled. The JWT check is the `verify` parameter of `Auth.Authenticate`.
- Date parsing and formatting are parameters: `parse` for booking, `iso` for the message text. Timezones and the dashboard's day-boundary queries are not modelled.
- Sweep.MarkExpired: compares times as integer instants. That matches the text comparison only for years 0000 to 9999. `dayjs` also accepts a numeric `appointmentTime`, and a time after year 9999 is stored with an expanded year (`+010000-…`). That text sorts before every four-digit-year `now`, so the real sweep expires such a booking at once, while the model never selects it. `TimeText.ExpandedYearSelected` states the text-side behaviour.
- The dashboard, the doctor directory and `/notifications/me` are read-only aggregation queries outside the lifecycle.
- The cron schedule and the on-demand job endpoint only call the sweep; the model calls `Sweep.MarkExpired` directly.
- Concurrency is not modelled: the database driver is synchronous, so the model is sequential. The gap between the sweep's selection and its transaction is not modelled either.
- Transaction rollback is not modelled: the sweep is one atomic state change.
- The `created_at` and `sent_at` clock columns are not modelled. Neither are the password hash column, SQLite pragmas or the database path.
- HTTP status codes and JSON shapes become the `Handlers.ApiError` values and result datatypes.
- JSON bodies carry untyped values. An absent text field is the empty string, and an absent doctor id is 0 (ids start at 1).
- Handlers.Book: the doctor id is an integer. The source also takes numeric text, which SQLite converts on lookup.
- Handlers.Book: inserting for a caller whose account no longer exists fails on the foreign key, and becomes the `ForeignKeyViolation` error.
- Handlers.Register: the returned token is not modelled, only the stored user.
- The terminal-state rule is not part of the handler model. The lifecycle is described with completed, cancelled and expired as terminal, but the code lets the status update rewrite any row, and `Handlers.UpdateStatus` follows the code (see Findings). `Handlers.GuardedUpdateStatus` models the rule separately.

## Findings

| source | as written | input that shows it | evidently intended | confidence | as-written member | corrected member |
|---|---|---|---|---|---|---|
| src/server.js:123-138 | The status update never reads the current status. `booked` is an allowed target, and `message_sent` is left as it was. | A sweep expires row 1 and notifies it. An admin sends PATCH status `booked` for row 1. The next sweep selects row 1 again and inserts a second `appointment_expired` notice. | Completed, cancelled and expired rows are terminal, so each appointment gets at most one expiry notice. | not executed; medium (the source may mean `booked` as an undo) | Lifecycle.RebookThenSweepNotifiesTwice | Lifecycle.GuardedUpdatePreservesNotices |
| test/appointmentService.test.js:50 with src/appointmentService.js:11 | The sweep compares the stored time text with the ISO text of `now`. The test stores times with SQLite's `datetime()`, whose layout has a space where ISO has `T`. | A sweep at 2026-10-09T12:00:00.000Z selects the row stored as `2026-10-09 14:00:00`, so `expiredCount` is 2, not 1. This fails in every hour of the UTC day except the last two. | Times compare chronologically, so only the past row is retired. | not executed; high | TimeText.FutureTestRowSelected | TimeText.TestScenarioWithInstants |
