/** The write rules of the core as transitions of a table snapshot: creating
    an event (`POST /events`), registering a student (`POST /register`), and
    the insert-or-overwrite upserts of attendance (`POST /attendance`) and
    feedback (`POST /feedback`). Each returns the handler's answer and the
    tables afterwards. */
module Ledger {
  import opened Tables

  /** The body of `POST /events`. Every field may be absent. */
  datatype EventRequest = EventRequest(
    title: Option<string>,
    description: Option<string>,
    eventType: Option<string>,
    date: Option<string>,
    startTime: Option<string>,
    endTime: Option<string>,
    venue: Option<string>,
    maxCapacity: Option<int>,
    collegeId: Option<int>,
    createdBy: Option<string>)

  predicate HasRequiredFields(req: EventRequest) {
    && Filled(req.title) && Filled(req.eventType) && Filled(req.date)
    && Filled(req.startTime) && Filled(req.endTime) && Filled(req.venue)
    && Truthy(req.collegeId)
  }

  /** `x || null` on an optional text field. */
  function OrNull(s: Option<string>): (r: Option<string>)
    ensures r.Some? <==> Filled(s)
    ensures r.Some? ==> r == s
  {
    if Filled(s) then s else None
  }

  /** `max_capacity || 100` */
  function DefaultCapacity(c: Option<int>): (cap: int)
    ensures cap != 0
    ensures Truthy(c) ==> cap == c.value
    ensures !Truthy(c) ==> cap == 100
  {
    if Truthy(c) then c.value else 100
  }

  function CreateEvent(db: Db, req: EventRequest): (res: (Outcome<Event>, Db))
    ensures res.0.Ok? <==> HasRequiredFields(req)
    ensures res.0.Fail? ==> res.0.error == ValidationError(FieldsRequired) && res.1 == db
    ensures res.0.Ok? ==> res.1 == db.(events := db.events + [res.0.value])
    ensures res.0.Ok? ==> res.0.value.id == |db.events| + 1 && res.0.value.capacity == DefaultCapacity(req.maxCapacity)
  {
    if !HasRequiredFields(req) then (Fail(ValidationError(FieldsRequired)), db)
    else
      var e := Event(|db.events| + 1, req.title.value, OrNull(req.description), req.eventType.value,
                     req.date.value, req.startTime.value, req.endTime.value, req.venue.value,
                     DefaultCapacity(req.maxCapacity), req.collegeId.value,
                     if Filled(req.createdBy) then req.createdBy.value else "Admin");
      (Ok(e), db.(events := db.events + [e]))
  }

  /** A new event starts with no registrations, so it is within capacity. */
  lemma CreateEventKeepsWellFormed(db: Db, req: EventRequest)
    requires WellFormed(db)
    ensures WellFormed(CreateEvent(db, req).1)
  {
    var (r, db') := CreateEvent(db, req);
    if r.Ok? {
      var e := r.value;
      var regs := db.registrations;
      forall x | x in regs ensures x.eventId != e.id {
        var i :| 0 <= i < |regs| && regs[i] == x;
      }
      RegCountStudents(regs, e.id);
      assert forall x :: x in db'.events ==> x in db.events || x == e;
    }
  }

  /** The event has a truthy capacity and its registrations have reached it:
      exactly when one more registration would break its capacity. */
  predicate Full(db: Db, e: Event): (full: bool)
    ensures full <==> !WithinCapacity(e, RegCount(db.registrations, e.id) + 1)
  {
    e.capacity != 0 && RegCount(db.registrations, e.id) >= e.capacity
  }

  predicate IsRegistered(db: Db, studentId: int, eventId: int) {
    IndexOf(db.registrations, RegistrationKey, (studentId, eventId)).Some?
  }

  /** `POST /register`: validation, then the event must exist, then the
      capacity check, then the UNIQUE (student_id, event_id) constraint. */
  function Register(db: Db, studentId: Option<int>, eventId: Option<int>): (res: (Outcome<Registration>, Db))
    ensures res.0.Fail? ==> res.1 == db
    ensures (res.0 == Fail(ValidationError(IdsRequired))) <==> !Truthy(studentId) || !Truthy(eventId)
    ensures (res.0 == Fail(NotFound(EventMissing))) <==>
      Truthy(studentId) && Truthy(eventId) && EventById(db.events, eventId.value).None?
    ensures (res.0 == Fail(CapacityExceeded)) <==>
      && Truthy(studentId) && Truthy(eventId) && EventById(db.events, eventId.value).Some?
      && Full(db, EventById(db.events, eventId.value).value)
    ensures (res.0 == Fail(DuplicateRegistration)) <==>
      && Truthy(studentId) && Truthy(eventId) && EventById(db.events, eventId.value).Some?
      && !Full(db, EventById(db.events, eventId.value).value)
      && IsRegistered(db, studentId.value, eventId.value)
    ensures res.0.Ok? <==>
      && Truthy(studentId) && Truthy(eventId) && EventById(db.events, eventId.value).Some?
      && !Full(db, EventById(db.events, eventId.value).value)
      && !IsRegistered(db, studentId.value, eventId.value)
    ensures res.0.Ok? ==>
      && res.1 == db.(registrations := db.registrations + [res.0.value])
      && res.0.value == Registration(|db.registrations| + 1, studentId.value, eventId.value, "registered")
  {
    if !Truthy(studentId) || !Truthy(eventId) then (Fail(ValidationError(IdsRequired)), db)
    else match EventById(db.events, eventId.value)
      case None => (Fail(NotFound(EventMissing)), db)
      case Some(e) =>
        if Full(db, e) then (Fail(CapacityExceeded), db)
        else if IsRegistered(db, studentId.value, eventId.value) then (Fail(DuplicateRegistration), db)
        else
          var row := Registration(|db.registrations| + 1, studentId.value, eventId.value, "registered");
          (Ok(row), db.(registrations := db.registrations + [row]))
  }

  /** Appending a registration that the capacity of its event admits keeps
      every event within its capacity. */
  lemma AppendWithinCapacity(events: seq<Event>, regs: seq<Registration>, row: Registration)
    requires EventsTable(events) && 1 <= row.eventId <= |events|
    requires forall e :: e in events ==> WithinCapacity(e, RegCount(regs, e.id))
    requires WithinCapacity(events[row.eventId - 1], RegCount(regs, row.eventId) + 1)
    ensures forall e :: e in events ==> WithinCapacity(e, RegCount(regs + [row], e.id))
  {
    forall x | x in events ensures WithinCapacity(x, RegCount(regs + [row], x.id)) {
      RegCountAppend(regs, row, x.id);
      var k :| 0 <= k < |events| && events[k] == x;
    }
  }

  /** Appending a registration of an existing event, for a new pair, that
      the event's capacity admits, keeps the registrations table valid. */
  lemma AppendRegistration(events: seq<Event>, regs: seq<Registration>, row: Registration)
    requires EventsTable(events) && RegistrationsTable(events, regs)
    requires row.id == |regs| + 1 && row.status == "registered" && 1 <= row.eventId <= |events|
    requires IndexOf(regs, RegistrationKey, RegistrationKey(row)).None?
    requires WithinCapacity(events[row.eventId - 1], RegCount(regs, row.eventId) + 1)
    ensures RegistrationsTable(events, regs + [row])
  {
    InsertNewKey(regs, RegistrationKey, row);
    AppendWithinCapacity(events, regs, row);
    var regs' := regs + [row];
    assert forall i :: 0 <= i < |regs'| ==> regs'[i].id == i + 1 && regs'[i].status == "registered" && 1 <= regs'[i].eventId <= |events| by {
      forall i | 0 <= i < |regs'| ensures regs'[i].id == i + 1 && regs'[i].status == "registered" && 1 <= regs'[i].eventId <= |events| {
        if i < |regs| { assert regs'[i] == regs[i]; }
      }
    }
  }

  /** Registering keeps every invariant: in particular no event goes over
      its capacity and no (student, event) pair is registered twice. */
  lemma RegisterKeepsWellFormed(db: Db, studentId: Option<int>, eventId: Option<int>)
    requires WellFormed(db)
    ensures WellFormed(Register(db, studentId, eventId).1)
  {
    var (r, db') := Register(db, studentId, eventId);
    if r.Ok? {
      EventByIdPosition(db.events, eventId.value);
      AppendRegistration(db.events, db.registrations, r.value);
    }
  }

  /** Once a pair is registered, registering it again is refused without a
      write: as a duplicate, or as over capacity when the event has since
      filled up (the capacity check runs first). */
  lemma RegisterTwiceRefused(db: Db, studentId: Option<int>, eventId: Option<int>)
    requires WellFormed(db)
    requires Register(db, studentId, eventId).0.Ok?
    ensures var db' := Register(db, studentId, eventId).1;
      && Register(db', studentId, eventId).1 == db'
      && Register(db', studentId, eventId).0 ==
           (if Full(db', EventById(db.events, eventId.value).value) then Fail(CapacityExceeded)
            else Fail(DuplicateRegistration))
  {
    var db' := Register(db, studentId, eventId).1;
    var row := Register(db, studentId, eventId).0.value;
    assert db'.registrations[|db.registrations|] == row;
    assert RegistrationKey(row) == (studentId.value, eventId.value);
  }

  /** The attendance status the handler stores: the given status when it is
      "present" or "absent", "present" otherwise. */
  function NormaliseStatus(status: Option<string>): (s: string)
    ensures IsAttendanceStatus(s)
    ensures s == "absent" <==> status == Some("absent")
  {
    if status.Some? && IsAttendanceStatus(status.value) then status.value else "present"
  }

  /** The attendance table after an insert-or-update of the pair's row, and
      that row. */
  function UpsertAttendance(att: seq<Attendance>, studentId: int, eventId: int, status: string, now: nat)
    : (res: (Attendance, seq<Attendance>))
    ensures AttendanceKey(res.0) == (studentId, eventId) && res.0.status == status && res.0.markedAt == now
    ensures |res.1| == |att| + (if Find(att, AttendanceKey, (studentId, eventId)).Some? then 0 else 1)
  {
    match IndexOf(att, AttendanceKey, (studentId, eventId))
    case None =>
      var row := Attendance(|att| + 1, studentId, eventId, status, now);
      (row, att + [row])
    case Some(i) =>
      var row := att[i].(status := status, markedAt := now);
      (row, att[i := row])
  }

  /** After an upsert the returned row is the one and only row for its pair,
      the rows of every other pair are unchanged, and the table stays valid. */
  lemma UpsertAttendanceKeepsTable(att: seq<Attendance>, studentId: int, eventId: int, status: string, now: nat)
    requires AttendanceTable(att) && IsAttendanceStatus(status)
    ensures var (row, att') := UpsertAttendance(att, studentId, eventId, status, now);
      && AttendanceTable(att')
      && Find(att', AttendanceKey, AttendanceKey(row)) == Some(row)
      && OnlyRow(att', AttendanceKey, row)
      && forall k :: k != AttendanceKey(row) ==> Find(att', AttendanceKey, k) == Find(att, AttendanceKey, k)
  {
    var (row, att') := UpsertAttendance(att, studentId, eventId, status, now);
    match IndexOf(att, AttendanceKey, (studentId, eventId))
    case None => InsertNewKey(att, AttendanceKey, row);
    case Some(i) => ReplaceSameKey(att, AttendanceKey, i, row);
  }

  /** `POST /attendance`: an upsert keyed by (student_id, event_id), stamped
      with the current time `now`. No registration is required. */
  function RecordAttendance(db: Db, studentId: Option<int>, eventId: Option<int>, status: Option<string>, now: nat)
    : (res: (Outcome<Attendance>, Db))
    ensures res.0.Ok? <==> Truthy(studentId) && Truthy(eventId)
    ensures res.0.Fail? ==> res.0.error == ValidationError(IdsRequired) && res.1 == db
    ensures res.0.Ok? ==>
      && AttendanceKey(res.0.value) == (studentId.value, eventId.value)
      && res.0.value.status == NormaliseStatus(status)
      && res.0.value.markedAt == now
    ensures res.1 == db.(attendance := res.1.attendance)
    ensures res.0.Ok? ==>
      |res.1.attendance| == |db.attendance| +
        (if Find(db.attendance, AttendanceKey, (studentId.value, eventId.value)).Some? then 0 else 1)
  {
    if !Truthy(studentId) || !Truthy(eventId) then (Fail(ValidationError(IdsRequired)), db)
    else
      var (row, att) := UpsertAttendance(db.attendance, studentId.value, eventId.value, NormaliseStatus(status), now);
      (Ok(row), db.(attendance := att))
  }

  /** After a successful attendance write the returned row is the one and
      only row for its (student, event) pair, the rows of every other pair
      are unchanged, and the store keeps its invariant. */
  lemma RecordAttendanceUpserts(db: Db, studentId: Option<int>, eventId: Option<int>, status: Option<string>, now: nat)
    requires WellFormed(db)
    ensures var (r, db') := RecordAttendance(db, studentId, eventId, status, now);
      && WellFormed(db')
      && (r.Ok? ==>
            && Find(db'.attendance, AttendanceKey, AttendanceKey(r.value)) == Some(r.value)
            && OnlyRow(db'.attendance, AttendanceKey, r.value)
            && forall k :: k != AttendanceKey(r.value) ==>
                 Find(db'.attendance, AttendanceKey, k) == Find(db.attendance, AttendanceKey, k))
  {
    if Truthy(studentId) && Truthy(eventId) {
      UpsertAttendanceKeepsTable(db.attendance, studentId.value, eventId.value, NormaliseStatus(status), now);
    }
  }

  /** Marking the same pair twice leaves one row, holding the later status. */
  lemma AttendanceLastWriteWins(db: Db, studentId: Option<int>, eventId: Option<int>,
                                first: Option<string>, second: Option<string>, t1: nat, t2: nat)
    requires WellFormed(db) && Truthy(studentId) && Truthy(eventId)
    ensures var db1 := RecordAttendance(db, studentId, eventId, first, t1).1;
      var db2 := RecordAttendance(db1, studentId, eventId, second, t2).1;
      && |db2.attendance| == |db1.attendance|
      && Find(db2.attendance, AttendanceKey, (studentId.value, eventId.value)).Some?
      && Find(db2.attendance, AttendanceKey, (studentId.value, eventId.value)).value.status == NormaliseStatus(second)
  {
    RecordAttendanceUpserts(db, studentId, eventId, first, t1);
    var db1 := RecordAttendance(db, studentId, eventId, first, t1).1;
    RecordAttendanceUpserts(db1, studentId, eventId, second, t2);
  }

  /** Whether a request's rating passes the handler's checks: it is a number
      (`typeof rating === "number"`) in the closed range 1 to 5. */
  predicate RatingAccepted(rating: Option<real>) {
    rating.Some? && 1.0 <= rating.value <= 5.0
  }

  /** The feedback table after an insert-or-update of the pair's row, and
      that row. */
  function UpsertFeedback(fb: seq<Feedback>, studentId: int, eventId: int, rating: real,
                          comment: Option<string>, now: nat): (res: (Feedback, seq<Feedback>))
    ensures FeedbackKey(res.0) == (studentId, eventId)
    ensures res.0.rating == rating && res.0.comment == comment && res.0.submittedAt == now
    ensures |res.1| == |fb| + (if Find(fb, FeedbackKey, (studentId, eventId)).Some? then 0 else 1)
  {
    match IndexOf(fb, FeedbackKey, (studentId, eventId))
    case None =>
      var row := Feedback(|fb| + 1, studentId, eventId, rating, comment, now);
      (row, fb + [row])
    case Some(i) =>
      var row := fb[i].(rating := rating, comment := comment, submittedAt := now);
      (row, fb[i := row])
  }

  /** After an upsert the returned row is the one and only row for its pair,
      the rows of every other pair are unchanged, and the table stays valid. */
  lemma UpsertFeedbackKeepsTable(fb: seq<Feedback>, studentId: int, eventId: int, rating: real,
                                 comment: Option<string>, now: nat)
    requires FeedbackTable(fb) && 1.0 <= rating <= 5.0
    ensures var (row, fb') := UpsertFeedback(fb, studentId, eventId, rating, comment, now);
      && FeedbackTable(fb')
      && Find(fb', FeedbackKey, FeedbackKey(row)) == Some(row)
      && OnlyRow(fb', FeedbackKey, row)
      && forall k :: k != FeedbackKey(row) ==> Find(fb', FeedbackKey, k) == Find(fb, FeedbackKey, k)
  {
    var (row, fb') := UpsertFeedback(fb, studentId, eventId, rating, comment, now);
    match IndexOf(fb, FeedbackKey, (studentId, eventId))
    case None => InsertNewKey(fb, FeedbackKey, row);
    case Some(i) => ReplaceSameKey(fb, FeedbackKey, i, row);
  }

  /** `POST /feedback`: validation of the ids and the rating before any
      write, then an upsert keyed by (student_id, event_id). */
  function RecordFeedback(db: Db, studentId: Option<int>, eventId: Option<int>, rating: Option<real>,
                          comment: Option<string>, now: nat): (res: (Outcome<Feedback>, Db))
    ensures res.0.Ok? <==> Truthy(studentId) && Truthy(eventId) && RatingAccepted(rating)
    ensures res.0.Fail? ==> res.1 == db
    ensures (!Truthy(studentId) || !Truthy(eventId) || rating.None?) ==>
      res.0 == Fail(ValidationError(RatingRequired))
    ensures Truthy(studentId) && Truthy(eventId) && rating.Some? && !RatingAccepted(rating) ==>
      res.0 == Fail(ValidationError(RatingRange))
    ensures res.0.Ok? ==>
      && FeedbackKey(res.0.value) == (studentId.value, eventId.value)
      && res.0.value.rating == rating.value
      && res.0.value.comment == OrNull(comment)
      && res.0.value.submittedAt == now
    ensures res.1 == db.(feedback := res.1.feedback)
    ensures res.0.Ok? ==>
      |res.1.feedback| == |db.feedback| +
        (if Find(db.feedback, FeedbackKey, (studentId.value, eventId.value)).Some? then 0 else 1)
  {
    if !Truthy(studentId) || !Truthy(eventId) || rating.None? then (Fail(ValidationError(RatingRequired)), db)
    else if rating.value < 1.0 || rating.value > 5.0 then (Fail(ValidationError(RatingRange)), db)
    else
      var (row, fb) := UpsertFeedback(db.feedback, studentId.value, eventId.value, rating.value, OrNull(comment), now);
      (Ok(row), db.(feedback := fb))
  }

  /** After a successful feedback write the returned row is the one and only
      row for its pair, the rows of every other pair are unchanged, and the
      store keeps its invariant (every stored rating lies in 1 to 5). */
  lemma RecordFeedbackUpserts(db: Db, studentId: Option<int>, eventId: Option<int>, rating: Option<real>,
                              comment: Option<string>, now: nat)
    requires WellFormed(db)
    ensures var (r, db') := RecordFeedback(db, studentId, eventId, rating, comment, now);
      && WellFormed(db')
      && (r.Ok? ==>
            && Find(db'.feedback, FeedbackKey, FeedbackKey(r.value)) == Some(r.value)
            && OnlyRow(db'.feedback, FeedbackKey, r.value)
            && forall k :: k != FeedbackKey(r.value) ==>
                 Find(db'.feedback, FeedbackKey, k) == Find(db.feedback, FeedbackKey, k))
  {
    if Truthy(studentId) && Truthy(eventId) && RatingAccepted(rating) {
      UpsertFeedbackKeepsTable(db.feedback, studentId.value, eventId.value, rating.value, OrNull(comment), now);
    }
  }

  /** Resubmitting feedback for a pair leaves one row, holding the later
      rating and comment. */
  lemma FeedbackLastWriteWins(db: Db, studentId: Option<int>, eventId: Option<int>,
                              r1: Option<real>, c1: Option<string>, r2: Option<real>, c2: Option<string>, t1: nat, t2: nat)
    requires WellFormed(db) && Truthy(studentId) && Truthy(eventId)
    requires RatingAccepted(r1) && RatingAccepted(r2)
    ensures var db1 := RecordFeedback(db, studentId, eventId, r1, c1, t1).1;
      var db2 := RecordFeedback(db1, studentId, eventId, r2, c2, t2).1;
      && |db2.feedback| == |db1.feedback|
      && Find(db2.feedback, FeedbackKey, (studentId.value, eventId.value)).Some?
      && Find(db2.feedback, FeedbackKey, (studentId.value, eventId.value)).value.rating == r2.value
      && Find(db2.feedback, FeedbackKey, (studentId.value, eventId.value)).value.comment == OrNull(c2)
  {
    RecordFeedbackUpserts(db, studentId, eventId, r1, c1, t1);
    var db1 := RecordFeedback(db, studentId, eventId, r1, c1, t1).1;
    RecordFeedbackUpserts(db1, studentId, eventId, r2, c2, t2);
  }

  /** An event with capacity 2 takes two students. */
  lemma CapacityTwoFills(e: Event)
    requires e.id == 1 && e.capacity == 2
    ensures var db0 := Db([e], [], [], [], []);
      var r1 := Registration(1, 1, 1, "registered");
      var r2 := Registration(2, 2, 1, "registered");
      && Register(db0, Some(1), Some(1)) == (Ok(r1), db0.(registrations := [r1]))
      && Register(db0.(registrations := [r1]), Some(2), Some(1)) == (Ok(r2), db0.(registrations := [r1, r2]))
  {
    var db0 := Db([e], [], [], [], []);
    var r1 := Registration(1, 1, 1, "registered");
    var r2 := Registration(2, 2, 1, "registered");
    var db1 := db0.(registrations := [r1]);
    assert EventById(db0.events, 1) == Some(e) by { assert EventKey(e) == 1; }
    assert !Full(db0, e) && !IsRegistered(db0, 1, 1);
    assert db0.registrations + [r1] == [r1];
    assert RegCount(db1.registrations, 1) == 1 by {
      RegCountAppend([], r1, 1);
    }
    assert !IsRegistered(db1, 2, 1) by {
      assert RegistrationKey(db1.registrations[0]) != (2, 1);
    }
    assert db1.registrations + [r2] == [r1, r2];
  }

  /** Once both places are taken, a third student is refused as over
      capacity, and so is the first student registering again, because the
      capacity check runs before the uniqueness check. */
  lemma CapacityTwoFull(e: Event)
    requires e.id == 1 && e.capacity == 2
    ensures var db2 := Db([e], [], [Registration(1, 1, 1, "registered"), Registration(2, 2, 1, "registered")], [], []);
      && Register(db2, Some(3), Some(1)) == (Fail(CapacityExceeded), db2)
      && Register(db2, Some(1), Some(1)) == (Fail(CapacityExceeded), db2)
  {
    var r1 := Registration(1, 1, 1, "registered");
    var r2 := Registration(2, 2, 1, "registered");
    var db2 := Db([e], [], [r1, r2], [], []);
    assert EventById(db2.events, 1) == Some(e) by { assert EventKey(e) == 1; }
    assert RegCount(db2.registrations, 1) == 2 by {
      assert [r1] + [r2] == [r1, r2] && [] + [r1] == [r1];
      RegCountAppend([], r1, 1);
      RegCountAppend([r1], r2, 1);
    }
  }

  /** An event whose stored capacity is negative refuses every registration. */
  lemma NegativeCapacityRefusesAll(db: Db, studentId: Option<int>, eventId: Option<int>)
    requires Truthy(studentId) && Truthy(eventId)
    requires EventById(db.events, eventId.value).Some? && EventById(db.events, eventId.value).value.capacity < 0
    ensures Register(db, studentId, eventId) == (Fail(CapacityExceeded), db)
  {
  }

  /** Marking "present" and then "absent" leaves a single row saying "absent". */
  lemma PresentThenAbsentScenario(now1: nat, now2: nat)
    ensures
      var db1 := RecordAttendance(Db([], [], [], [], []), Some(1), Some(1), Some("present"), now1).1;
      var db2 := RecordAttendance(db1, Some(1), Some(1), Some("absent"), now2).1;
      db2.attendance == [Attendance(1, 1, 1, "absent", now2)]
  {
    var db1 := RecordAttendance(Db([], [], [], [], []), Some(1), Some(1), Some("present"), now1).1;
    assert IndexOf(db1.attendance, AttendanceKey, (1, 1)) == Some(0) by {
      assert AttendanceKey(db1.attendance[0]) == (1, 1);
    }
  }
}
