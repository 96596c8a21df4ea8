/** The tables of the campus-events store: events, students, registrations,
    attendance and feedback, the request-field conventions of the HTTP layer,
    keyed lookup (the UNIQUE indexes) and the invariant every write keeps. */
module Tables {

  datatype Option<T> = None | Some(value: T)

  /** Error kinds the route handlers answer with (HTTP 400, 404, 409, 409). */
  datatype Error =
    | ValidationError(message: string)
    | NotFound(message: string)
    | CapacityExceeded
    | DuplicateRegistration

  datatype Outcome<T> = Ok(value: T) | Fail(error: Error)

  const IdsRequired := "student_id and event_id required"
  const RatingRequired := "student_id, event_id, rating required"
  const RatingRange := "rating must be 1-5"
  const FieldsRequired := "Missing required fields"
  const EventMissing := "Event not found"

  /** An integer request field as JavaScript's `!x` sees it: absent, null
      and 0 are falsy. */
  predicate Truthy(x: Option<int>) {
    x.Some? && x.value != 0
  }

  /** A string request field: absent and "" are falsy. */
  predicate Filled(s: Option<string>) {
    s.Some? && s.value != ""
  }

  datatype Event = Event(
    id: int,
    title: string,
    description: Option<string>,
    eventType: string,
    date: string,
    startTime: string,
    endTime: string,
    venue: string,
    capacity: int,          // max_capacity; 0 stands for a falsy (unlimited) capacity
    collegeId: int,
    createdBy: string)

  datatype Student = Student(id: int, name: string, email: string)

  datatype Registration = Registration(id: int, studentId: int, eventId: int, status: string)

  datatype Attendance = Attendance(id: int, studentId: int, eventId: int, status: string, markedAt: nat)

  datatype Feedback = Feedback(
    id: int, studentId: int, eventId: int, rating: real, comment: Option<string>, submittedAt: nat)

  /** A snapshot of every table the core reads. */
  datatype Db = Db(
    events: seq<Event>,
    students: seq<Student>,
    registrations: seq<Registration>,
    attendance: seq<Attendance>,
    feedback: seq<Feedback>)

  /** The natural key (student_id, event_id) of the three participation tables. */
  type Key = (int, int)

  function EventKey(e: Event): int { e.id }
  function RegistrationKey(r: Registration): Key { (r.studentId, r.eventId) }
  function AttendanceKey(a: Attendance): Key { (a.studentId, a.eventId) }
  function FeedbackKey(f: Feedback): Key { (f.studentId, f.eventId) }

  /** Position of the first row whose key is `k` (an index probe). */
  function IndexOf<T, K(==)>(rows: seq<T>, key: T -> K, k: K): (r: Option<nat>)
    ensures r.Some? ==> r.value < |rows| && key(rows[r.value]) == k
    ensures r.Some? ==> forall j :: 0 <= j < r.value ==> key(rows[j]) != k
    ensures r.None? ==> forall j :: 0 <= j < |rows| ==> key(rows[j]) != k
  {
    if rows == [] then None
    else if key(rows[0]) == k then Some(0)
    else match IndexOf(rows[1..], key, k)
      case None => None
      case Some(j) => Some(j + 1)
  }

  /** The row stored under key `k`, as `SELECT * ... WHERE <key> = ?` returns it. */
  function Find<T, K(==)>(rows: seq<T>, key: T -> K, k: K): (r: Option<T>)
    ensures r.Some? <==> exists i :: 0 <= i < |rows| && key(rows[i]) == k
    ensures r.Some? ==> r.value in rows && key(r.value) == k
  {
    match IndexOf(rows, key, k)
    case None => None
    case Some(i) => Some(rows[i])
  }

  /** What a UNIQUE constraint on `key` guarantees. */
  ghost predicate UniqueKeys<T, K>(rows: seq<T>, key: T -> K) {
    forall i, j :: 0 <= i < j < |rows| ==> key(rows[i]) != key(rows[j])
  }

  /** Under a unique key every row occurs once. */
  lemma {:induction false} UniqueKeysOnce<T, K>(rows: seq<T>, key: T -> K, x: T)
    requires UniqueKeys(rows, key) && x in rows
    ensures multiset(rows)[x] == 1
  {
    var rest := rows[1..];
    assert rows == [rows[0]] + rest;
    assert UniqueKeys(rest, key) by {
      forall i, j | 0 <= i < j < |rest| ensures key(rest[i]) != key(rest[j]) {
        assert rest[i] == rows[i + 1] && rest[j] == rows[j + 1];
      }
    }
    if rows[0] == x {
      forall j | 0 <= j < |rest| ensures rest[j] != x {
        assert rest[j] == rows[j + 1];
      }
      assert x !in rest;
    } else {
      UniqueKeysOnce(rest, key, x);
    }
  }

  /** `x` is the one row of `rows` under its key. */
  ghost predicate OnlyRow<T, K>(rows: seq<T>, key: T -> K, x: T) {
    x in rows && forall j :: 0 <= j < |rows| && key(rows[j]) == key(x) ==> rows[j] == x
  }

  lemma IndexOfMatch<T, K>(rows: seq<T>, key: T -> K, i: nat)
    requires UniqueKeys(rows, key) && i < |rows|
    ensures IndexOf(rows, key, key(rows[i])) == Some(i)
  {
  }

  /** Inserting a row under a key not yet present keeps keys unique, makes the
      new row the one stored under its key, and changes no other key's row. */
  lemma InsertNewKey<T, K>(rows: seq<T>, key: T -> K, x: T)
    requires UniqueKeys(rows, key) && IndexOf(rows, key, key(x)).None?
    ensures UniqueKeys(rows + [x], key)
    ensures Find(rows + [x], key, key(x)) == Some(x)
    ensures OnlyRow(rows + [x], key, x)
    ensures forall k :: k != key(x) ==> Find(rows + [x], key, k) == Find(rows, key, k)
  {
    var rows' := rows + [x];
    IndexOfMatch(rows', key, |rows|);
    forall k | k != key(x)
      ensures Find(rows', key, k) == Find(rows, key, k)
    {
      match IndexOf(rows, key, k)
      case None =>
      case Some(i) =>
        assert rows'[i] == rows[i];
        IndexOfMatch(rows', key, i);
    }
  }

  /** Overwriting the row at `i` with a row of the same key keeps keys unique,
      makes the new row the one stored under that key, and changes no other
      key's row. */
  lemma ReplaceSameKey<T, K>(rows: seq<T>, key: T -> K, i: nat, x: T)
    requires UniqueKeys(rows, key) && i < |rows| && key(rows[i]) == key(x)
    ensures UniqueKeys(rows[i := x], key)
    ensures Find(rows[i := x], key, key(x)) == Some(x)
    ensures OnlyRow(rows[i := x], key, x)
    ensures forall k :: k != key(x) ==> Find(rows[i := x], key, k) == Find(rows, key, k)
  {
    var rows' := rows[i := x];
    assert UniqueKeys(rows', key) by {
      forall p, q | 0 <= p < q < |rows'| ensures key(rows'[p]) != key(rows'[q]) {
        assert key(rows'[p]) == key(rows[p]) && key(rows'[q]) == key(rows[q]);
      }
    }
    IndexOfMatch(rows', key, i);
    forall k | k != key(x)
      ensures Find(rows', key, k) == Find(rows, key, k)
    {
      match IndexOf(rows, key, k)
      case None =>
        assert forall j :: 0 <= j < |rows'| ==> key(rows'[j]) == key(rows[j]);
      case Some(p) =>
        assert p != i && rows'[p] == rows[p];
        IndexOfMatch(rows', key, p);
    }
  }

  /** `SELECT * FROM events WHERE id = ?` */
  function EventById(events: seq<Event>, id: int): (r: Option<Event>)
    ensures r.Some? ==> r.value in events && r.value.id == id
    ensures r.None? ==> forall e :: e in events ==> e.id != id
  {
    Find(events, EventKey, id)
  }

  /** The students registered for the event. */
  ghost function RegisteredStudents(regs: seq<Registration>, eventId: int): set<int> {
    set r | r in regs && r.eventId == eventId :: r.studentId
  }

  /** One more registration adds its student to the event's registered
      students, and that student is new when the pair was not registered. */
  lemma RegisteredStudentsAppend(regs: seq<Registration>, r: Registration, eventId: int)
    ensures UniqueKeys(regs + [r], RegistrationKey) ==>
      && UniqueKeys(regs, RegistrationKey)
      && |RegisteredStudents(regs + [r], eventId)| ==
           |RegisteredStudents(regs, eventId)| + (if r.eventId == eventId then 1 else 0)
  {
    var all := regs + [r];
    if UniqueKeys(all, RegistrationKey) {
      assert UniqueKeys(regs, RegistrationKey) by {
        forall i, j | 0 <= i < j < |regs| ensures RegistrationKey(regs[i]) != RegistrationKey(regs[j]) {
          assert regs[i] == all[i] && regs[j] == all[j];
        }
      }
      var before := RegisteredStudents(regs, eventId);
      var after := RegisteredStudents(all, eventId);
      if r.eventId == eventId {
        forall x | x in regs && x.eventId == eventId ensures x.studentId != r.studentId {
          var k :| 0 <= k < |regs| && regs[k] == x;
          assert all[k] == x && all[|regs|] == r;
        }
        assert after == before + {r.studentId};
      } else {
        assert after == before;
      }
    }
  }

  /** `SELECT COUNT(*) FROM registrations WHERE event_id = ?` */
  function RegCount(regs: seq<Registration>, eventId: int): (n: nat)
    ensures n <= |regs|
  {
    if regs == [] then 0
    else RegCount(regs[..|regs| - 1], eventId) + (if regs[|regs| - 1].eventId == eventId then 1 else 0)
  }

  /** The count is zero exactly when no registration refers to the event;
      with one row per (student, event) it is the number of students
      registered for it. */
  lemma {:induction false} RegCountStudents(regs: seq<Registration>, eventId: int)
    ensures RegCount(regs, eventId) == 0 <==> forall r :: r in regs ==> r.eventId != eventId
    ensures UniqueKeys(regs, RegistrationKey) ==> RegCount(regs, eventId) == |RegisteredStudents(regs, eventId)|
  {
    if regs != [] {
      var init := regs[..|regs| - 1];
      var last := regs[|regs| - 1];
      assert regs == init + [last];
      RegCountStudents(init, eventId);
      RegisteredStudentsAppend(init, last, eventId);
    }
  }

  lemma RegCountAppend(regs: seq<Registration>, r: Registration, eventId: int)
    ensures RegCount(regs + [r], eventId) == RegCount(regs, eventId) + (if r.eventId == eventId then 1 else 0)
  {
    assert (regs + [r])[..|regs|] == regs;
  }

  /** Whether the event's capacity admits `count` registrations: a falsy
      capacity is unlimited; a negative one admits none. */
  predicate WithinCapacity(e: Event, count: nat) {
    e.capacity != 0 ==> count <= (if e.capacity < 0 then 0 else e.capacity)
  }

  predicate IsAttendanceStatus(s: string) {
    s == "present" || s == "absent"
  }

  /** Events carry auto-increment ids. */
  ghost predicate EventsTable(events: seq<Event>) {
    forall i :: 0 <= i < |events| ==> events[i].id == i + 1
  }

  /** Registrations carry auto-increment ids and status "registered", belong
      to existing events, are unique per (student, event), and no event holds
      more than its capacity. */
  ghost predicate RegistrationsTable(events: seq<Event>, regs: seq<Registration>) {
    && (forall i :: 0 <= i < |regs| ==>
          regs[i].id == i + 1 && regs[i].status == "registered" && 1 <= regs[i].eventId <= |events|)
    && UniqueKeys(regs, RegistrationKey)
    && (forall e :: e in events ==> WithinCapacity(e, RegCount(regs, e.id)))
  }

  /** Attendance rows carry auto-increment ids and status "present" or
      "absent", one row per (student, event). */
  ghost predicate AttendanceTable(att: seq<Attendance>) {
    && (forall i :: 0 <= i < |att| ==> att[i].id == i + 1 && IsAttendanceStatus(att[i].status))
    && UniqueKeys(att, AttendanceKey)
  }

  /** Feedback rows carry auto-increment ids and a rating in 1 to 5, one row
      per (student, event). */
  ghost predicate FeedbackTable(fb: seq<Feedback>) {
    && (forall i :: 0 <= i < |fb| ==> fb[i].id == i + 1 && 1.0 <= fb[i].rating <= 5.0)
    && UniqueKeys(fb, FeedbackKey)
  }

  /** The invariant of the store, table by table. */
  ghost predicate WellFormed(db: Db) {
    && EventsTable(db.events)
    && RegistrationsTable(db.events, db.registrations)
    && AttendanceTable(db.attendance)
    && FeedbackTable(db.feedback)
  }

  /** With auto-increment ids, the event with id `id` is the `id`-th row. */
  lemma EventByIdPosition(events: seq<Event>, id: int)
    requires EventsTable(events)
    ensures EventById(events, id).Some? <==> 1 <= id <= |events|
    ensures EventById(events, id).Some? ==> EventById(events, id).value == events[id - 1]
  {
    if 1 <= id <= |events| {
      assert EventKey(events[id - 1]) == id;
    }
  }
}
