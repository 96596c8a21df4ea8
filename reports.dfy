/** The five read-only reports (`GET /reports/...`). Each is a function of
    the tables alone: SQL grouping becomes one row per event or per student
    in table order, `LEFT JOIN` counting becomes counting over the joined
    rows, and `ORDER BY` becomes a stable sort. */
module Reports {
  import opened Tables
  import opened Sorting

  /** SQLite's `ROUND(x, 2)`, half away from zero, on exact reals. */
  function Round2(x: real): (r: real)
    ensures (r * 100.0).Floor as real == r * 100.0
    ensures -0.005 <= r - x <= 0.005
  {
    if x >= 0.0 then
      var f := (x * 100.0 + 0.5).Floor;
      var r := f as real / 100.0;
      assert r * 100.0 == f as real && (f as real).Floor == f;
      r
    else
      var f := (-x * 100.0 + 0.5).Floor;
      var r := -(f as real / 100.0);
      assert r * 100.0 == (-f) as real && ((-f) as real).Floor == -f;
      r
  }

  /** Rounding to two decimals stays between two whole-number bounds. */
  lemma Round2Within(x: real, lo: int, hi: int)
    requires 0 <= lo && lo as real <= x <= hi as real
    ensures lo as real <= Round2(x) <= hi as real
  {
    var f := (x * 100.0 + 0.5).Floor;
    assert 100 * lo <= f <= 100 * hi;
  }

  // ---------------------------------------------------------------------
  // Event popularity: events LEFT JOIN registrations, optionally filtered by
  // type, grouped by event, ORDER BY registrations DESC.

  datatype PopularityRow = PopularityRow(id: int, title: string, eventType: string, date: string, registrations: nat)

  /** `WHERE e.event_type = ?`, applied only when a type is given. */
  predicate MatchesType(e: Event, eventType: Option<string>) {
    !Filled(eventType) || e.eventType == eventType.value
  }

  function PopularityOf(db: Db, e: Event): PopularityRow {
    PopularityRow(e.id, e.title, e.eventType, e.date, RegCount(db.registrations, e.id))
  }

  function PopularityKey(row: PopularityRow): int { row.id }

  /** One row per matching event, in table order; an event with no
      registration still has its row (left join). */
  function PopularityGroups(db: Db, events: seq<Event>, eventType: Option<string>): (rows: seq<PopularityRow>)
    ensures forall e :: e in events && MatchesType(e, eventType) ==> PopularityOf(db, e) in rows
    ensures forall row :: row in rows ==>
      exists e :: e in events && MatchesType(e, eventType) && row == PopularityOf(db, e)
  {
    if events == [] then []
    else
      var rest := PopularityGroups(db, events[1..], eventType);
      assert forall e :: e in events[1..] ==> e in events;
      if MatchesType(events[0], eventType) then [PopularityOf(db, events[0])] + rest else rest
  }

  /** `GROUP BY e.id`: with distinct event ids no two rows share an id. */
  lemma {:induction false} PopularityGroupsUnique(db: Db, events: seq<Event>, eventType: Option<string>)
    requires UniqueKeys(events, EventKey)
    ensures UniqueKeys(PopularityGroups(db, events, eventType), PopularityKey)
  {
    if events != [] {
      var tail := events[1..];
      assert UniqueKeys(tail, EventKey) by {
        forall i, j | 0 <= i < j < |tail| ensures EventKey(tail[i]) != EventKey(tail[j]) {
          assert tail[i] == events[i + 1] && tail[j] == events[j + 1];
        }
      }
      PopularityGroupsUnique(db, tail, eventType);
      var rest := PopularityGroups(db, tail, eventType);
      var head := PopularityOf(db, events[0]);
      if MatchesType(events[0], eventType) {
        var all := [head] + rest;
        forall i, j | 0 <= i < j < |all| ensures PopularityKey(all[i]) != PopularityKey(all[j]) {
          assert all[j] == rest[j - 1];
          if i > 0 {
            assert all[i] == rest[i - 1];
          } else {
            assert all[j] in rest;
            var e :| e in tail && MatchesType(e, eventType) && all[j] == PopularityOf(db, e);
            var k :| 0 <= k < |tail| && tail[k] == e;
            assert EventKey(events[0]) != EventKey(events[k + 1]);
          }
        }
      }
    }
  }

  function MoreRegistrations(a: PopularityRow, b: PopularityRow): bool {
    a.registrations >= b.registrations
  }

  /** `ORDER BY registrations DESC`: a reordering of the grouped rows. */
  function EventPopularity(db: Db, eventType: Option<string>): (r: seq<PopularityRow>)
    ensures multiset(r) == multiset(PopularityGroups(db, db.events, eventType))
  {
    SortByPermutes(PopularityGroups(db, db.events, eventType), MoreRegistrations);
    SortBy(PopularityGroups(db, db.events, eventType), MoreRegistrations)
  }

  /** The popularity report lists exactly the matching events, each with its
      registration count (0 included), in non-increasing order of count; with
      auto-increment event ids each matching event has exactly one row. */
  lemma EventPopularityReport(db: Db, eventType: Option<string>)
    ensures var r := EventPopularity(db, eventType);
      && (forall i, j :: 0 <= i < j < |r| ==> r[i].registrations >= r[j].registrations)
      && (forall e :: e in db.events && MatchesType(e, eventType) ==> PopularityOf(db, e) in r)
      && (forall row :: row in r ==>
            exists e :: e in db.events && MatchesType(e, eventType) && row == PopularityOf(db, e))
      && (EventsTable(db.events) ==>
            forall e :: e in db.events && MatchesType(e, eventType) ==> multiset(r)[PopularityOf(db, e)] == 1)
  {
    var groups := PopularityGroups(db, db.events, eventType);
    SortBySorted(groups, MoreRegistrations);
    var r := EventPopularity(db, eventType);
    assert forall row :: row in r <==> row in groups by {
      forall row ensures row in r <==> row in groups {
        assert row in r <==> row in multiset(r);
        assert row in groups <==> row in multiset(groups);
      }
    }
    if EventsTable(db.events) {
      assert UniqueKeys(db.events, EventKey);
      PopularityGroupsUnique(db, db.events, eventType);
      forall e | e in db.events && MatchesType(e, eventType) ensures multiset(r)[PopularityOf(db, e)] == 1 {
        UniqueKeysOnce(groups, PopularityKey, PopularityOf(db, e));
      }
    }
  }

  // ---------------------------------------------------------------------
  // Attendance: events LEFT JOIN registrations LEFT JOIN attendance on the
  // same (student, event), grouped by event.

  datatype AttendanceSummary = AttendanceSummary(
    id: int, title: string, registrations: nat, presents: nat, percentage: real)

  /** Attendance rows the join matches to a registration of `studentId`. */
  function Matches(att: seq<Attendance>, studentId: int, eventId: int): nat {
    if att == [] then 0
    else (if AttendanceKey(att[0]) == (studentId, eventId) then 1 else 0) + Matches(att[1..], studentId, eventId)
  }

  /** Of those, the ones whose status is "present". */
  function PresentMatches(att: seq<Attendance>, studentId: int, eventId: int): nat {
    if att == [] then 0
    else (if AttendanceKey(att[0]) == (studentId, eventId) && att[0].status == "present" then 1 else 0)
         + PresentMatches(att[1..], studentId, eventId)
  }

  /** `COUNT(r.id)` over the join: a registration with no attendance row
      still yields one joined row, and an event without registrations yields
      none. */
  function JoinedRegistrations(regs: seq<Registration>, att: seq<Attendance>, eventId: int): (n: nat)
    ensures n >= RegCount(regs, eventId)
    ensures RegCount(regs, eventId) == 0 ==> n == 0
  {
    if regs == [] then 0
    else
      var r := regs[|regs| - 1];
      JoinedRegistrations(regs[..|regs| - 1], att, eventId)
      + (if r.eventId == eventId then (var m := Matches(att, r.studentId, eventId); if m == 0 then 1 else m) else 0)
  }

  /** `SUM(CASE WHEN a.status='present' THEN 1 ELSE 0 END)` over the join:
      never more than the joined rows. */
  function JoinedPresents(regs: seq<Registration>, att: seq<Attendance>, eventId: int): (n: nat)
    ensures n <= JoinedRegistrations(regs, att, eventId)
  {
    if regs == [] then 0
    else
      var r := regs[|regs| - 1];
      PresentMatchesAtMostMatches(att, r.studentId, eventId);
      JoinedPresents(regs[..|regs| - 1], att, eventId)
      + (if r.eventId == eventId then PresentMatches(att, r.studentId, eventId) else 0)
  }

  /** Registrations of the event whose attendance row says "present". */
  function PresentRegistrations(regs: seq<Registration>, att: seq<Attendance>, eventId: int): nat {
    if regs == [] then 0
    else
      var r := regs[|regs| - 1];
      var a := Find(att, AttendanceKey, (r.studentId, eventId));
      PresentRegistrations(regs[..|regs| - 1], att, eventId)
      + (if r.eventId == eventId && a.Some? && a.value.status == "present" then 1 else 0)
  }

  lemma {:induction false} PresentMatchesAtMostMatches(att: seq<Attendance>, studentId: int, eventId: int)
    ensures PresentMatches(att, studentId, eventId) <= Matches(att, studentId, eventId)
  {
    if att != [] {
      PresentMatchesAtMostMatches(att[1..], studentId, eventId);
    }
  }

  lemma {:induction false} NoMatches(att: seq<Attendance>, studentId: int, eventId: int)
    requires forall j :: 0 <= j < |att| ==> AttendanceKey(att[j]) != (studentId, eventId)
    ensures Matches(att, studentId, eventId) == 0 && PresentMatches(att, studentId, eventId) == 0
  {
    if att != [] {
      NoMatches(att[1..], studentId, eventId);
    }
  }

  /** With one attendance row per pair the join matches at most one row per
      registration, and counts it as present exactly when its status is. */
  lemma {:induction false} UniqueMatch(att: seq<Attendance>, studentId: int, eventId: int)
    requires UniqueKeys(att, AttendanceKey)
    ensures var a := Find(att, AttendanceKey, (studentId, eventId));
      && Matches(att, studentId, eventId) == (if a.Some? then 1 else 0)
      && PresentMatches(att, studentId, eventId) == (if a.Some? && a.value.status == "present" then 1 else 0)
  {
    if att != [] {
      var rest := att[1..];
      assert UniqueKeys(rest, AttendanceKey) by {
        forall i, j | 0 <= i < j < |rest| ensures AttendanceKey(rest[i]) != AttendanceKey(rest[j]) {
          assert rest[i] == att[i + 1] && rest[j] == att[j + 1];
        }
      }
      if AttendanceKey(att[0]) == (studentId, eventId) {
        forall j | 0 <= j < |rest| ensures AttendanceKey(rest[j]) != (studentId, eventId) {
          assert rest[j] == att[j + 1];
        }
        NoMatches(rest, studentId, eventId);
      } else {
        UniqueMatch(rest, studentId, eventId);
        assert Find(att, AttendanceKey, (studentId, eventId)) == Find(rest, AttendanceKey, (studentId, eventId));
      }
    }
  }

  /** The joined counts never claim more presents than joined registrations,
      and with unique attendance keys they are the plain registration count
      and the number of registrations marked present. */
  lemma {:induction false} AttendanceJoin(regs: seq<Registration>, att: seq<Attendance>, eventId: int)
    ensures JoinedPresents(regs, att, eventId) <= JoinedRegistrations(regs, att, eventId)
    ensures UniqueKeys(att, AttendanceKey) ==>
      && JoinedRegistrations(regs, att, eventId) == RegCount(regs, eventId)
      && JoinedPresents(regs, att, eventId) == PresentRegistrations(regs, att, eventId)
  {
    if regs != [] {
      var r := regs[|regs| - 1];
      AttendanceJoin(regs[..|regs| - 1], att, eventId);
      PresentMatchesAtMostMatches(att, r.studentId, eventId);
      if UniqueKeys(att, AttendanceKey) {
        UniqueMatch(att, r.studentId, eventId);
      }
    }
  }

  /** The share of presents, before rounding, lies in [0, 100], and is 100
      when every registration is present. */
  lemma RawPercentage(presents: nat, registrations: nat)
    requires 0 < registrations
    ensures var x := 100.0 * presents as real / registrations as real;
      && 0.0 <= x
      && (presents <= registrations ==> x <= 100.0)
      && (presents == registrations ==> x == 100.0)
  {
    var q := presents as real / registrations as real;
    assert q * registrations as real == presents as real;
    assert presents <= registrations ==> q <= 1.0;
  }

  /** `CASE WHEN COUNT(r.id)=0 THEN 0 ELSE ROUND(100.0 * presents / COUNT(r.id), 2) END` */
  function Percentage(presents: nat, registrations: nat): (p: real)
    ensures registrations == 0 ==> p == 0.0
    ensures presents <= registrations ==> 0.0 <= p <= 100.0
    ensures 0 < registrations == presents ==> p == 100.0
    ensures 0 < registrations ==>
      -0.005 <= p - 100.0 * presents as real / registrations as real <= 0.005
  {
    if registrations == 0 then 0.0
    else
      var x := 100.0 * presents as real / registrations as real;
      RawPercentage(presents, registrations);
      Round2Within(if presents <= registrations then x else 0.0, 0, 100);
      Round2Within(if presents == registrations then x else 100.0, 100, 100);
      Round2(x)
  }

  function AttendanceSummaryOf(db: Db, e: Event): AttendanceSummary {
    var n := JoinedRegistrations(db.registrations, db.attendance, e.id);
    var p := JoinedPresents(db.registrations, db.attendance, e.id);
    AttendanceSummary(e.id, e.title, n, p, Percentage(p, n))
  }

  /** One row per event, in table (id) order. */
  function AttendanceReport(db: Db): seq<AttendanceSummary> {
    seq(|db.events|, i requires 0 <= i < |db.events| => AttendanceSummaryOf(db, db.events[i]))
  }

  /** Each attendance row reports the event's registration count, the
      registrations marked present, and a percentage in [0, 100] that is 0
      when there is no registration. */
  lemma AttendanceReportRows(db: Db, i: nat)
    requires WellFormed(db) && i < |db.events|
    ensures |AttendanceReport(db)| == |db.events|
    ensures var row := AttendanceReport(db)[i];
      && row.id == db.events[i].id && row.title == db.events[i].title
      && row.registrations == RegCount(db.registrations, db.events[i].id)
      && row.presents == PresentRegistrations(db.registrations, db.attendance, db.events[i].id)
      && row.presents <= row.registrations
      && 0.0 <= row.percentage <= 100.0
      && (row.registrations == 0 ==> row.percentage == 0.0)
      && (row.registrations > 0 ==>
            -0.005 <= row.percentage - 100.0 * row.presents as real / row.registrations as real <= 0.005)
  {
    AttendanceJoin(db.registrations, db.attendance, db.events[i].id);
  }

  // ---------------------------------------------------------------------
  // Student participation and top students: students LEFT JOIN attendance,
  // grouped by student.

  datatype ParticipationRow = ParticipationRow(studentId: int, name: string, email: string, eventsAttended: nat)

  /** The events at which the student was marked present. */
  ghost function PresentEvents(att: seq<Attendance>, studentId: int): set<int> {
    set a | a in att && a.studentId == studentId && a.status == "present" :: a.eventId
  }

  /** A row in front adds its event to the student's present events when it
      is one of the student's "present" rows. */
  lemma PresentEventsSplit(a: Attendance, rest: seq<Attendance>, studentId: int)
    ensures PresentEvents([a] + rest, studentId) ==
      (if a.studentId == studentId && a.status == "present" then {a.eventId} else {}) + PresentEvents(rest, studentId)
  {
    var all := [a] + rest;
    assert forall x :: x in all <==> x == a || x in rest;
  }

  /** ... and that event is new when the row's pair has no other row. */
  lemma PresentEventsCons(a: Attendance, rest: seq<Attendance>, studentId: int)
    ensures UniqueKeys([a] + rest, AttendanceKey) ==>
      && UniqueKeys(rest, AttendanceKey)
      && |PresentEvents([a] + rest, studentId)| ==
           |PresentEvents(rest, studentId)| + (if a.studentId == studentId && a.status == "present" then 1 else 0)
  {
    var all := [a] + rest;
    if UniqueKeys(all, AttendanceKey) {
      assert UniqueKeys(rest, AttendanceKey) by {
        forall i, j | 0 <= i < j < |rest| ensures AttendanceKey(rest[i]) != AttendanceKey(rest[j]) {
          assert rest[i] == all[i + 1] && rest[j] == all[j + 1];
        }
      }
      PresentEventsSplit(a, rest, studentId);
      if a.studentId == studentId && a.status == "present" {
        forall x | x in rest && x.studentId == studentId ensures x.eventId != a.eventId {
          var k :| 0 <= k < |rest| && rest[k] == x;
          assert all[k + 1] == x && all[0] == a;
        }
        assert a.eventId !in PresentEvents(rest, studentId);
      }
    }
  }

  /** Attendance rows of the student with status "present", over all events,
      registered or not. */
  function PresentCount(att: seq<Attendance>, studentId: int): (n: nat)
    ensures n <= |att|
  {
    if att == [] then 0
    else (if att[0].studentId == studentId && att[0].status == "present" then 1 else 0) + PresentCount(att[1..], studentId)
  }

  /** The count is zero exactly when the student has no "present" row; with
      one row per (student, event) it is the number of events attended. */
  lemma {:induction false} PresentCountEvents(att: seq<Attendance>, studentId: int)
    ensures PresentCount(att, studentId) == 0 <==>
      forall a :: a in att && a.studentId == studentId ==> a.status != "present"
    ensures UniqueKeys(att, AttendanceKey) ==> PresentCount(att, studentId) == |PresentEvents(att, studentId)|
  {
    if att != [] {
      assert att == [att[0]] + att[1..];
      PresentCountEvents(att[1..], studentId);
      PresentEventsCons(att[0], att[1..], studentId);
    }
  }

  function ParticipationOf(db: Db, s: Student): ParticipationRow {
    ParticipationRow(s.id, s.name, s.email, PresentCount(db.attendance, s.id))
  }

  function ParticipationGroups(db: Db): seq<ParticipationRow>
  {
    seq(|db.students|, i requires 0 <= i < |db.students| => ParticipationOf(db, db.students[i]))
  }

  /** Each student's participation row carries the student's id, name and
      email; its count is 0 exactly when the student has no "present" row,
      and otherwise the number of events the student was marked present at. */
  lemma ParticipationRows(db: Db, i: nat)
    requires AttendanceTable(db.attendance) && i < |db.students|
    ensures |ParticipationGroups(db)| == |db.students|
    ensures var row := ParticipationGroups(db)[i];
      && row.studentId == db.students[i].id && row.name == db.students[i].name && row.email == db.students[i].email
      && (row.eventsAttended == 0 <==>
            forall a :: a in db.attendance && a.studentId == db.students[i].id ==> a.status != "present")
      && row.eventsAttended == |PresentEvents(db.attendance, db.students[i].id)|
  {
    PresentCountEvents(db.attendance, db.students[i].id);
  }

  /** Text order of SQLite's default BINARY collation: character by
      character, a prefix first. */
  predicate NameLeq(a: string, b: string) {
    a == [] || (b != [] && (a[0] < b[0] || (a[0] == b[0] && NameLeq(a[1..], b[1..]))))
  }

  lemma {:induction false} NameLeqTotal(a: string, b: string)
    ensures NameLeq(a, b) || NameLeq(b, a)
  {
    if a != [] && b != [] && a[0] == b[0] {
      NameLeqTotal(a[1..], b[1..]);
    }
  }

  lemma {:induction false} NameLeqTransitive(a: string, b: string, c: string)
    requires NameLeq(a, b) && NameLeq(b, c)
    ensures NameLeq(a, c)
  {
    if a != [] && a[0] == b[0] && b[0] == c[0] {
      NameLeqTransitive(a[1..], b[1..], c[1..]);
    }
  }

  /** `ORDER BY events_attended DESC, s.name ASC` */
  function MoreAttendedThenName(a: ParticipationRow, b: ParticipationRow): bool {
    a.eventsAttended > b.eventsAttended || (a.eventsAttended == b.eventsAttended && NameLeq(a.name, b.name))
  }

  lemma ParticipationOrder()
    ensures Total(MoreAttendedThenName) && Transitive(MoreAttendedThenName)
  {
    forall a: ParticipationRow, b: ParticipationRow
      ensures MoreAttendedThenName(a, b) || MoreAttendedThenName(b, a)
    {
      NameLeqTotal(a.name, b.name);
    }
    forall a: ParticipationRow, b: ParticipationRow, c: ParticipationRow
      | MoreAttendedThenName(a, b) && MoreAttendedThenName(b, c)
      ensures MoreAttendedThenName(a, c)
    {
      if a.eventsAttended == b.eventsAttended == c.eventsAttended {
        NameLeqTransitive(a.name, b.name, c.name);
      }
    }
  }

  /** `ORDER BY events_attended DESC, s.name ASC`: a reordering of the
      grouped rows. */
  function StudentParticipation(db: Db): (r: seq<ParticipationRow>)
    ensures multiset(r) == multiset(ParticipationGroups(db))
  {
    SortByPermutes(ParticipationGroups(db), MoreAttendedThenName);
    SortBy(ParticipationGroups(db), MoreAttendedThenName)
  }

  /** The participation report has one row per student (those with no
      attendance included, with 0), ordered by present-count descending and
      then by name ascending. */
  lemma StudentParticipationReport(db: Db)
    ensures var r := StudentParticipation(db);
      && multiset(r) == multiset(ParticipationGroups(db))
      && (forall s :: s in db.students ==> ParticipationOf(db, s) in r)
      && (forall i, j :: 0 <= i < j < |r| ==>
            r[i].eventsAttended > r[j].eventsAttended
            || (r[i].eventsAttended == r[j].eventsAttended && NameLeq(r[i].name, r[j].name)))
  {
    var groups := ParticipationGroups(db);
    ParticipationOrder();
    SortByPermutes(groups, MoreAttendedThenName);
    SortBySorted(groups, MoreAttendedThenName);
    forall s | s in db.students ensures ParticipationOf(db, s) in StudentParticipation(db) {
      var k :| 0 <= k < |db.students| && db.students[k] == s;
      assert groups[k] in multiset(groups);
    }
  }

  /** `ORDER BY events_attended DESC` (no tie-break) */
  function MoreAttended(a: ParticipationRow, b: ParticipationRow): bool {
    a.eventsAttended >= b.eventsAttended
  }

  /** `... ORDER BY events_attended DESC LIMIT 3` */
  function TopStudents(db: Db): (r: seq<ParticipationRow>)
    ensures |r| == if |db.students| < 3 then |db.students| else 3
    ensures multiset(r) <= multiset(ParticipationGroups(db))
  {
    SortByPermutes(ParticipationGroups(db), MoreAttended);
    Take(SortBy(ParticipationGroups(db), MoreAttended), 3)
  }

  /** Top students returns min(3, number of students) rows in non-increasing
      order of present-count, each a student's participation row, and no
      student left out attended more often than any student returned. */
  lemma TopStudentsReport(db: Db)
    ensures var r := TopStudents(db);
      && |r| == (if |db.students| < 3 then |db.students| else 3)
      && (forall i, j :: 0 <= i < j < |r| ==> r[i].eventsAttended >= r[j].eventsAttended)
      && multiset(r) <= multiset(ParticipationGroups(db))
      && (forall x, y :: x in ParticipationGroups(db) && x !in r && y in r ==> x.eventsAttended <= y.eventsAttended)
  {
    var groups := ParticipationGroups(db);
    var sorted := SortBy(groups, MoreAttended);
    SortByPermutes(groups, MoreAttended);
    SortBySorted(groups, MoreAttended);
    TakeRanksFirst(sorted, 3, MoreAttended);
    forall x | x in groups ensures x in sorted {
      assert x in multiset(groups);
    }
  }

  // ---------------------------------------------------------------------
  // Feedback: events LEFT JOIN feedback, grouped by event,
  // ORDER BY avg_rating DESC (an event without feedback has a NULL average,
  // which sorts last).

  datatype FeedbackSummary = FeedbackSummary(id: int, title: string, avgRating: Option<real>, feedbackCount: nat)

  /** The students who gave feedback on the event. */
  ghost function Reviewers(fb: seq<Feedback>, eventId: int): set<int> {
    set f | f in fb && f.eventId == eventId :: f.studentId
  }

  /** One more feedback row adds its student to the event's reviewers, and
      the student is new when the pair had no other row. */
  lemma ReviewersAppend(fb: seq<Feedback>, f: Feedback, eventId: int)
    ensures UniqueKeys(fb + [f], FeedbackKey) ==>
      && UniqueKeys(fb, FeedbackKey)
      && |Reviewers(fb + [f], eventId)| == |Reviewers(fb, eventId)| + (if f.eventId == eventId then 1 else 0)
  {
    var all := fb + [f];
    if UniqueKeys(all, FeedbackKey) {
      assert UniqueKeys(fb, FeedbackKey) by {
        forall i, j | 0 <= i < j < |fb| ensures FeedbackKey(fb[i]) != FeedbackKey(fb[j]) {
          assert fb[i] == all[i] && fb[j] == all[j];
        }
      }
      var before := Reviewers(fb, eventId);
      var after := Reviewers(all, eventId);
      if f.eventId == eventId {
        forall x | x in fb && x.eventId == eventId ensures x.studentId != f.studentId {
          var k :| 0 <= k < |fb| && fb[k] == x;
          assert all[k] == x && all[|fb|] == f;
        }
        assert after == before + {f.studentId};
      } else {
        assert after == before;
      }
    }
  }

  /** `COUNT(f.id)` */
  function FeedbackCount(fb: seq<Feedback>, eventId: int): (n: nat)
    ensures n <= |fb|
  {
    if fb == [] then 0
    else FeedbackCount(fb[..|fb| - 1], eventId) + (if fb[|fb| - 1].eventId == eventId then 1 else 0)
  }

  /** The count is zero exactly when the event has no feedback row; with one
      row per (student, event) it is the number of students who gave it. */
  lemma {:induction false} FeedbackCountReviewers(fb: seq<Feedback>, eventId: int)
    ensures FeedbackCount(fb, eventId) == 0 <==> forall f :: f in fb ==> f.eventId != eventId
    ensures UniqueKeys(fb, FeedbackKey) ==> FeedbackCount(fb, eventId) == |Reviewers(fb, eventId)|
  {
    if fb != [] {
      var init := fb[..|fb| - 1];
      var last := fb[|fb| - 1];
      assert fb == init + [last];
      FeedbackCountReviewers(init, eventId);
      ReviewersAppend(init, last, eventId);
    }
  }

  function RatingSum(fb: seq<Feedback>, eventId: int): real {
    if fb == [] then 0.0
    else RatingSum(fb[..|fb| - 1], eventId) + (if fb[|fb| - 1].eventId == eventId then fb[|fb| - 1].rating else 0.0)
  }

  /** `ROUND(AVG(f.rating), 2)`: NULL when the event has no feedback, and
      otherwise the mean rating to within half a hundredth. */
  function AverageRating(fb: seq<Feedback>, eventId: int): (r: Option<real>)
    ensures r.None? <==> forall f :: f in fb ==> f.eventId != eventId
    ensures r.Some? <==> FeedbackCount(fb, eventId) != 0
    ensures r.Some? ==>
      -0.005 <= r.value - RatingSum(fb, eventId) / FeedbackCount(fb, eventId) as real <= 0.005
  {
    FeedbackCountReviewers(fb, eventId);
    var n := FeedbackCount(fb, eventId);
    if n == 0 then None else Some(Round2(RatingSum(fb, eventId) / n as real))
  }

  function FeedbackSummaryOf(db: Db, e: Event): FeedbackSummary {
    FeedbackSummary(e.id, e.title, AverageRating(db.feedback, e.id), FeedbackCount(db.feedback, e.id))
  }

  function FeedbackGroups(db: Db): seq<FeedbackSummary>
  {
    seq(|db.events|, i requires 0 <= i < |db.events| => FeedbackSummaryOf(db, db.events[i]))
  }

  /** Each event's feedback row carries the event's id and title; its average
      is NULL and its count 0 exactly when the event has no feedback, and
      otherwise the count is the number of students who gave feedback. */
  lemma FeedbackRows(db: Db, i: nat)
    requires FeedbackTable(db.feedback) && i < |db.events|
    ensures |FeedbackGroups(db)| == |db.events|
    ensures var row := FeedbackGroups(db)[i];
      && row.id == db.events[i].id && row.title == db.events[i].title
      && (row.avgRating.None? <==> forall f :: f in db.feedback ==> f.eventId != db.events[i].id)
      && (row.feedbackCount == 0 <==> row.avgRating.None?)
      && row.feedbackCount == |Reviewers(db.feedback, db.events[i].id)|
  {
    FeedbackCountReviewers(db.feedback, db.events[i].id);
  }

  /** `ORDER BY avg_rating DESC`, NULL lowest. */
  function HigherAverage(a: FeedbackSummary, b: FeedbackSummary): bool {
    b.avgRating.None? || (a.avgRating.Some? && a.avgRating.value >= b.avgRating.value)
  }

  /** `ORDER BY avg_rating DESC`: a reordering of the grouped rows. */
  function FeedbackReport(db: Db): (r: seq<FeedbackSummary>)
    ensures multiset(r) == multiset(FeedbackGroups(db))
  {
    SortByPermutes(FeedbackGroups(db), HigherAverage);
    SortBy(FeedbackGroups(db), HigherAverage)
  }

  lemma {:induction false} RatingSumBounds(fb: seq<Feedback>, eventId: int)
    requires forall i :: 0 <= i < |fb| ==> 1.0 <= fb[i].rating <= 5.0
    ensures FeedbackCount(fb, eventId) as real <= RatingSum(fb, eventId) <= 5.0 * FeedbackCount(fb, eventId) as real
  {
    if fb != [] {
      RatingSumBounds(fb[..|fb| - 1], eventId);
    }
  }

  lemma QuotientWithin(s: real, n: real, lo: real, hi: real)
    requires n > 0.0 && lo * n <= s <= hi * n
    ensures lo <= s / n <= hi
  {
    var q := s / n;
    assert q * n == s;
  }

  /** With every stored rating in 1 to 5, an average is reported exactly when
      the event has feedback, and it lies in 1 to 5. */
  lemma AverageRatingBounds(db: Db, eventId: int)
    requires WellFormed(db)
    ensures AverageRating(db.feedback, eventId).Some? <==> FeedbackCount(db.feedback, eventId) > 0
    ensures AverageRating(db.feedback, eventId).Some? ==>
      1.0 <= AverageRating(db.feedback, eventId).value <= 5.0
  {
    var n := FeedbackCount(db.feedback, eventId);
    if n > 0 {
      RatingSumBounds(db.feedback, eventId);
      var s := RatingSum(db.feedback, eventId);
      var avg := s / n as real;
      QuotientWithin(s, n as real, 1.0, 5.0);
      Round2Within(avg, 1, 5);
    }
  }

  /** The feedback report has one row per event (those without feedback
      included, with no average and count 0), rated events first in
      non-increasing order of average. */
  lemma FeedbackReportOrdered(db: Db)
    ensures var r := FeedbackReport(db);
      && multiset(r) == multiset(FeedbackGroups(db))
      && (forall e :: e in db.events ==> FeedbackSummaryOf(db, e) in r)
      && (forall i, j :: 0 <= i < j < |r| && r[j].avgRating.Some? ==>
            r[i].avgRating.Some? && r[i].avgRating.value >= r[j].avgRating.value)
  {
    var groups := FeedbackGroups(db);
    SortByPermutes(groups, HigherAverage);
    SortBySorted(groups, HigherAverage);
    forall e | e in db.events ensures FeedbackSummaryOf(db, e) in FeedbackReport(db) {
      var k :| 0 <= k < |db.events| && db.events[k] == e;
      assert groups[k] in multiset(groups);
    }
  }

  /** Ratings 5 and 3 for one event give an average of 4.00 over 2 rows. */
  lemma FeedbackAverageScenario(eventId: int, now: nat)
    ensures var fb := [Feedback(1, 1, eventId, 5.0, None, now), Feedback(2, 2, eventId, 3.0, None, now)];
      FeedbackCount(fb, eventId) == 2 && AverageRating(fb, eventId) == Some(4.0)
  {
    var fb := [Feedback(1, 1, eventId, 5.0, None, now), Feedback(2, 2, eventId, 3.0, None, now)];
    var one := fb[..1];
    assert one == [fb[0]] && one[..0] == [];
    assert FeedbackCount(one, eventId) == 1 && RatingSum(one, eventId) == 5.0;
    assert FeedbackCount(fb, eventId) == 2 && RatingSum(fb, eventId) == 8.0;
    assert 8.0 / 2 as real == 4.0;
    assert (4.0 * 100.0 + 0.5).Floor == 400;
  }
}
