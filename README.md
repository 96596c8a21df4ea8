# Campus events: participation state and analytics

This project models the core of a campus-events backend: the rules by which students register
for events, have attendance marked and submit feedback, and the five reports computed from those
records. The model is in Dafny and carries proofs about it.

- `tables.dfy` (module `Tables`) holds the rows of the events, students, registrations, attendance
  and feedback tables. It defines lookup by key, which stands in for the UNIQUE (student_id, event_id)
  indexes. It also states `WellFormed`, the invariant every write keeps:
  - ids are auto-incremented;
  - each participation table has at most one row per (student, event);
  - every registration belongs to an existing event;
  - no event holds more registrations than its capacity;
  - attendance status is "present" or "absent";
  - every rating lies in 1 to 5.
- `ledger.dfy` (module `Ledger`) gives each write handler as a pure transition. A transition takes the
  tables and a request and returns the handler's answer with the tables afterwards. The write
  handlers are `POST /events`, `POST /register`, `POST /attendance` and `POST /feedback`. An answer is
  `Ok(row)` or one of `ValidationError`, `NotFound`, `CapacityExceeded` and `DuplicateRegistration`.
  The lemmas prove that the invariant is kept. They also prove that upserts leave exactly one row per
  pair and that the newest write wins.
- `store.dfy` (module `Server`) holds the class `Store`: the tables as mutable fields. Its methods
  run the handlers' queries one after another: look up the event, count its registrations, probe
  the unique index, then insert or update in place. Each method is proved to give exactly the
  answer and the new tables of the matching `Ledger` transition.
- `reports.dfy` (module `Reports`) gives the five `GET /reports/...` aggregations as functions of
  the tables. It proves their grouping, counting, bounds and ordering. `sorting.dfy` (module
  `Sorting`) is the stable sort that stands in for `ORDER BY`.

Request fields follow JavaScript truthiness. An absent field, `null`, `0` and `""` are all falsy.
An integer field is an `Option<int>`, a text field an `Option<string>`, and the rating an
`Option<real>`, where `None` means "not a number".

The documented intent and the code differ in four places. The model follows the code:

- The capacity check runs before the uniqueness check. So a student who registers again for an
  event that is now full gets "Event capacity reached", not "Student already registered"
  (`Ledger.CapacityTwoFull`, `Ledger.RegisterTwiceRefused`).
- Top students is ordered by present-count only, with no name tie-break
  (backend/server.js:521).
- A rating only has to be a number between 1 and 5. A fractional rating such as 3.5 is accepted.
- A supplied capacity is not checked to be positive. A negative capacity is stored, and every
  registration for that event is then refused (`Ledger.NegativeCapacityRefusesAll`).

## Model

| member | source | states |
|---|---|---|
| `Tables.EventById` | backend/server.js:344-345 | the event found has the requested id; when none is found, no event has that id |
| `Tables.EventByIdPosition` | backend/server.js:344-345 | with ids auto-incremented, an event is found iff its id lies in 1 to the number of events, and it is the row at that position |
| `Tables.RegCount` | backend/server.js:347-350 | the count never exceeds the number of registrations |
| `Tables.RegCountStudents` | backend/server.js:347-350 | the count is 0 exactly when no registration refers to the event; with one registration per (student, event) it is the number of distinct students registered for it |
| `Tables.InsertNewKey` | backend/server.js:379-382 | inserting under an absent (student, event) key keeps keys unique; the new row is then the only row under its key, and every other key's row is unchanged |
| `Tables.ReplaceSameKey` | backend/server.js:384-388 | updating the row under a key in place keeps keys unique; the new row is then the only row under that key, and every other key's row is unchanged |
| `Tables.UniqueKeysOnce` | backend/server.js:451 | under a unique key every row occurs exactly once |
| `Sorting.SortByPermutes` | backend/server.js:452 | `ORDER BY` only reorders: the sorted rows are a permutation of the grouped rows |
| `Sorting.SortBySorted` | backend/server.js:452 | sorting by a total, transitive ordering puts every row no later than every row after it |
| `Sorting.TakeRanksFirst` | backend/server.js:521-522 | after sorting, the rows `LIMIT n` keeps rank no later than every row it drops |
| `Sorting.Take` | backend/server.js:522 | `LIMIT n` keeps the first min(n, length) rows, as a prefix |
| `Ledger.DefaultCapacity` | backend/server.js:325 | the stored capacity is never 0; it is the supplied value when that is truthy, and 100 otherwise |
| `Ledger.OrNull` | backend/server.js:319 | an optional text is stored exactly when it is non-empty, and unchanged |
| `Ledger.CreateEvent` | backend/server.js:311-330 | it succeeds iff all required fields are present, else it fails validation with no write; on success it appends one event with the next id and the defaulted capacity |
| `Ledger.CreateEventKeepsWellFormed` | backend/server.js:314-329 | creating an event keeps the store invariant, because a new event has no registrations |
| `Ledger.Full` | backend/server.js:351 | an event is full exactly when one more registration would break its capacity |
| `Ledger.Register` | backend/server.js:338-365 | failure leaves the tables unchanged; one iff per error kind gives the order: missing ids, then an unknown event, then a full event (capacity truthy and count at least the capacity), then an already-registered pair; it succeeds iff all four checks pass, and success appends exactly one "registered" row for the pair |
| `Ledger.AppendWithinCapacity` | backend/server.js:347-357 | appending a registration that its event's capacity admits keeps every event within its capacity |
| `Ledger.AppendRegistration` | backend/server.js:354-362 | appending a registration for a new pair of an existing event, admitted by its capacity, keeps the registrations table valid |
| `Ledger.RegisterKeepsWellFormed` | backend/server.js:347-357 | registering keeps the invariant: no event exceeds its capacity and no pair is registered twice |
| `Ledger.RegisterTwiceRefused` | backend/server.js:351-362 | after a successful registration, the same request is refused with no write: as a duplicate, or as over capacity when that registration filled the event |
| `Ledger.CapacityTwoFills` | backend/server.js:347-357 | with capacity 2, a first and a second student are both registered, each under the next id |
| `Ledger.CapacityTwoFull` | backend/server.js:347-352 | once an event of capacity 2 holds two registrations, a third student and the first student again are both refused as over capacity |
| `Ledger.NegativeCapacityRefusesAll` | backend/server.js:351-352 | an event whose stored capacity is negative refuses every registration |
| `Ledger.NormaliseStatus` | backend/server.js:374-376 | the stored status is always "present" or "absent", and it is "absent" exactly when "absent" was sent |
| `Ledger.UpsertAttendance` | backend/server.js:378-390 | the returned row carries the pair, the status and the time; the table grows by one only when the pair had no row |
| `Ledger.UpsertAttendanceKeepsTable` | backend/server.js:378-395 | after the insert-or-update, the returned row is the only row for its pair, every other pair's row is unchanged, and the attendance table stays valid |
| `Ledger.RecordAttendance` | backend/server.js:368-400 | it succeeds iff both ids are truthy, with no registration required; the returned row has the pair, the normalised status and the new time; the attendance table grows by one only when the pair had no row; no other table changes |
| `Ledger.RecordAttendanceUpserts` | backend/server.js:378-395 | after an attendance write, the returned row is the only row for its pair; the row of every other pair is unchanged and the invariant holds |
| `Ledger.AttendanceLastWriteWins` | backend/server.js:384-388 | marking a pair twice leaves one row, holding the later status |
| `Ledger.PresentThenAbsentScenario` | backend/server.js:378-390 | "present" and then "absent" leave the single row `(1, 1, 1, "absent")` |
| `Ledger.UpsertFeedback` | backend/server.js:414-426 | the returned row carries the pair, the rating, the comment and the time; the table grows by one only when the pair had no row |
| `Ledger.UpsertFeedbackKeepsTable` | backend/server.js:414-431 | after the insert-or-update, the returned row is the only row for its pair, every other pair's row is unchanged, and the feedback table stays valid |
| `Ledger.RecordFeedback` | backend/server.js:403-436 | it succeeds iff both ids are truthy and the rating is a number in [1, 5]; otherwise it fails with the handler's message and no write; the returned row has the new rating, comment and time; the table grows by one only for a new pair |
| `Ledger.RecordFeedbackUpserts` | backend/server.js:414-431 | after a feedback write, the returned row is the only row for its pair; the row of every other pair is unchanged and the invariant holds |
| `Ledger.FeedbackLastWriteWins` | backend/server.js:420-424 | resubmitting feedback leaves one row, holding the later rating and comment |
| `Server.Store.FindEvent` | backend/server.js:344 | the scan returns the event the id lookup returns |
| `Server.Store.CountRegistrations` | backend/server.js:347-350 | the scan returns the registration count of the event |
| `Server.Store.FindRegistration` | backend/server.js:354-362 | the scan reports whether the (student, event) pair is already registered |
| `Server.Store.FindAttendance` | backend/server.js:379-388 | the scan returns the position of the pair's attendance row, if any |
| `Server.Store.FindFeedback` | backend/server.js:415-424 | the scan returns the position of the pair's feedback row, if any |
| `Server.Store.CreateEvent` | backend/server.js:296-335 | the answer and the new tables are those of `Ledger.CreateEvent`; the invariant is kept |
| `Server.Store.CheckRegistration` | backend/server.js:340-362 | the checks, run as scans in the handler's order, give exactly the answer of `Ledger.Register`, with nothing written |
| `Server.Store.Register` | backend/server.js:338-365 | the answer and the new tables are those of `Ledger.Register`; the invariant is kept |
| `Server.Store.RecordAttendance` | backend/server.js:368-400 | insert, or update in place on a key conflict; the answer and the new tables are those of `Ledger.RecordAttendance` |
| `Server.Store.RecordFeedback` | backend/server.js:403-436 | validate, then insert or update in place; the answer and the new tables are those of `Ledger.RecordFeedback` |
| `Reports.Round2` | backend/server.js:467 | the result has at most two decimals and lies within half a hundredth of its argument |
| `Reports.Round2Within` | backend/server.js:467 | rounding to 2 decimals keeps a value between two whole-number bounds |
| `Reports.PopularityGroups` | backend/server.js:445-451 | every event matching the type filter has a row, including events with no registrations, and every row comes from such an event |
| `Reports.PopularityGroupsUnique` | backend/server.js:451 | with distinct event ids, no two grouped rows share an event id |
| `Reports.EventPopularity` | backend/server.js:440-454 | the report is a permutation of the grouped rows |
| `Reports.EventPopularityReport` | backend/server.js:440-454 | the report lists exactly the matching events with their registration counts, in non-increasing order of count; with auto-increment event ids each matching event has exactly one row |
| `Reports.JoinedRegistrations` | backend/server.js:464-471 | the left join yields at least one row per registration of the event, and none when the event has no registration |
| `Reports.JoinedPresents` | backend/server.js:465-471 | the joined rows counted present never exceed the joined rows |
| `Reports.UniqueMatch` | backend/server.js:471 | with one attendance row per pair, the join matches at most one row per registration, and counts it present iff its status is "present" |
| `Reports.AttendanceJoin` | backend/server.js:463-472 | joined presents never exceed joined registrations; with unique attendance keys they equal the registration count and the number of registrations marked present |
| `Reports.Percentage` | backend/server.js:466-468 | 0 when there are no registrations; otherwise within half a hundredth of 100 × presents / registrations, hence within [0, 100] whenever presents do not exceed registrations (which `Reports.AttendanceJoin` supplies), and exactly 100 when all registrations are present |
| `Reports.AttendanceReportRows` | backend/server.js:463-472 | there is one row per event with its id and title, the event's registration count and the registrations marked present (never more than the count); the percentage is 0 with no registrations and otherwise within half a hundredth of 100 × presents / registrations, inside [0, 100] |
| `Reports.PresentCount` | backend/server.js:484-486 | the count never exceeds the number of attendance rows |
| `Reports.PresentCountEvents` | backend/server.js:484-486 | the count is 0 exactly when the student has no "present" row; with one attendance row per (student, event) it is the number of distinct events the student was marked present at |
| `Reports.ParticipationRows` | backend/server.js:482-487 | there is one row per student, in table order, with the student's id, name and email; its count is 0 exactly when the student has no "present" row, and otherwise the number of events the student was marked present at |
| `Reports.NameLeqTotal` | backend/server.js:488 | any two names are ordered by the text order |
| `Reports.NameLeqTransitive` | backend/server.js:488 | the text order is transitive |
| `Reports.ParticipationOrder` | backend/server.js:488 | present-count descending, then name ascending, is a total preorder |
| `Reports.StudentParticipation` | backend/server.js:480-490 | the report is a permutation of the per-student rows |
| `Reports.StudentParticipationReport` | backend/server.js:480-490 | the report is a permutation of the per-student rows; every student appears, those with 0 included; rows are ordered by count descending, then name ascending |
| `Reports.TopStudents` | backend/server.js:513-524 | the report has min(3, number of students) rows, drawn without repetition from the per-student rows |
| `Reports.TopStudentsReport` | backend/server.js:513-524 | the report has min(3, number of students) rows, in non-increasing count order, each a student's row; no student left out has a higher count than any student returned |
| `Reports.FeedbackCount` | backend/server.js:501-503 | the count never exceeds the number of feedback rows |
| `Reports.FeedbackCountReviewers` | backend/server.js:501-503 | the count is 0 exactly when the event has no feedback row; with one feedback row per (student, event) it is the number of distinct students who gave feedback |
| `Reports.AverageRating` | backend/server.js:500-501 | the average is NULL exactly when the event has no feedback row (the count is 0), and otherwise lies within half a hundredth of the mean rating |
| `Reports.FeedbackRows` | backend/server.js:498-504 | there is one row per event, in table order, with the event's id and title; the average is NULL and the count 0 exactly when the event has no feedback; otherwise the count is the number of students who gave feedback |
| `Reports.RatingSumBounds` | backend/server.js:500 | with every rating in [1, 5], the sum of an event's ratings lies between count and 5 × count |
| `Reports.AverageRatingBounds` | backend/server.js:500-501 | an average is reported iff the event has feedback, and it lies in [1, 5] |
| `Reports.FeedbackReport` | backend/server.js:496-506 | the report is a permutation of the per-event rows |
| `Reports.FeedbackReportOrdered` | backend/server.js:496-506 | every event appears; rated events come first, in non-increasing order of average, and events without feedback come last |
| `Reports.FeedbackAverageScenario` | backend/server.js:500-501 | ratings 5 and 3 for one event give feedback_count 2 and avg_rating 4.00 |

## Left out

- Express routing, middleware, JSON bodies and HTTP status codes. Only the error kind and message
  each response encodes is kept. The row read back after a write is the returned row.
- Admin and student signup, password hashing and login (backend/server.js:97-284). These are
  external libraries and credentials. The students table is handed to the `Store` constructor.
- Database connection, schema creation, seeding and server start (backend/server.js:52-60,
  535-541). These are I/O. `backend/utils/database.js` and `backend/utils/initDatabase.js` are not part
  of this model.
- College creation and listing (backend/server.js:65-94), and the plain event listing
  (backend/server.js:287-294). These have no rules beyond a single query.
- Storage failures answered with HTTP 500. This includes foreign-key violations, whose enforcement
  depends on the database configuration. The model does not check that a student exists before
  registering, marking attendance or accepting feedback.
- The race between the capacity count and the insert in `POST /register`. Each handler is modelled
  as one atomic step.
- Floating point. `ROUND(x, 2)` and `AVG` are computed on exact reals, rounding half away from zero.
  A `NaN` rating is not modelled; it passes the handler's checks because `typeof NaN` is "number".
- Request fields of unexpected JSON types. Ids are integers; an id sent as a string relies on SQLite
  type affinity. A status or comment that is not a string is treated as absent.
- Timestamps. `CURRENT_TIMESTAMP` is the `now` parameter of the attendance and feedback writes.
  The registration time column is not modelled.
- The order of rows that an `ORDER BY` ranks equal, and of `GROUP BY` output. SQL leaves it
  unspecified. The model keeps table (id) order.
