/** The mutable store behind the write handlers. Each handler runs its queries
    one after another (look up the event, count its registrations, probe the
    unique index, insert or update a row); each method here does the same with
    a scan of the table, and is proved to produce exactly the answer and the
    tables of the matching `Ledger` transition. */
module Server {
  import opened Tables
  import Ledger

  class Store {
    var events: seq<Event>
    var students: seq<Student>
    var registrations: seq<Registration>
    var attendance: seq<Attendance>
    var feedback: seq<Feedback>

    /** The tables as the reports read them. */
    function Snapshot(): Db
      reads this
    {
      Db(events, students, registrations, attendance, feedback)
    }

    ghost predicate Valid()
      reads this
    {
      WellFormed(Snapshot())
    }

    /** An empty store over the students of the identity store. */
    constructor (students: seq<Student>)
      ensures Valid()
      ensures Snapshot() == Db([], students, [], [], [])
    {
      this.events := [];
      this.students := students;
      this.registrations := [];
      this.attendance := [];
      this.feedback := [];
    }

    /** `SELECT * FROM events WHERE id = ?` */
    method FindEvent(id: int) returns (e: Option<Event>)
      ensures e == EventById(events, id)
    {
      var i := 0;
      while i < |events|
        invariant 0 <= i <= |events|
        invariant forall j :: 0 <= j < i ==> events[j].id != id
      {
        if events[i].id == id {
          assert EventKey(events[i]) == id;
          return Some(events[i]);
        }
        i := i + 1;
      }
      return None;
    }

    /** `SELECT COUNT(*) FROM registrations WHERE event_id = ?` */
    method CountRegistrations(eventId: int) returns (n: nat)
      ensures n == RegCount(registrations, eventId)
    {
      n := 0;
      var i := 0;
      while i < |registrations|
        invariant 0 <= i <= |registrations|
        invariant n == RegCount(registrations[..i], eventId)
      {
        assert registrations[..i + 1] == registrations[..i] + [registrations[i]];
        RegCountAppend(registrations[..i], registrations[i], eventId);
        if registrations[i].eventId == eventId {
          n := n + 1;
        }
        i := i + 1;
      }
      assert registrations[..i] == registrations;
    }

    /** The probe of the UNIQUE (student_id, event_id) index on registrations. */
    method FindRegistration(studentId: int, eventId: int) returns (found: bool)
      ensures found == Ledger.IsRegistered(Snapshot(), studentId, eventId)
    {
      var i := 0;
      while i < |registrations|
        invariant 0 <= i <= |registrations|
        invariant forall j :: 0 <= j < i ==> RegistrationKey(registrations[j]) != (studentId, eventId)
      {
        if RegistrationKey(registrations[i]) == (studentId, eventId) {
          return true;
        }
        i := i + 1;
      }
      return false;
    }

    /** The probe of the UNIQUE (student_id, event_id) index on attendance. */
    method FindAttendance(studentId: int, eventId: int) returns (at: Option<nat>)
      ensures at == IndexOf(attendance, AttendanceKey, (studentId, eventId))
    {
      var i := 0;
      while i < |attendance|
        invariant 0 <= i <= |attendance|
        invariant forall j :: 0 <= j < i ==> AttendanceKey(attendance[j]) != (studentId, eventId)
      {
        if AttendanceKey(attendance[i]) == (studentId, eventId) {
          return Some(i);
        }
        i := i + 1;
      }
      return None;
    }

    /** The probe of the UNIQUE (student_id, event_id) index on feedback. */
    method FindFeedback(studentId: int, eventId: int) returns (at: Option<nat>)
      ensures at == IndexOf(feedback, FeedbackKey, (studentId, eventId))
    {
      var i := 0;
      while i < |feedback|
        invariant 0 <= i <= |feedback|
        invariant forall j :: 0 <= j < i ==> FeedbackKey(feedback[j]) != (studentId, eventId)
      {
        if FeedbackKey(feedback[i]) == (studentId, eventId) {
          return Some(i);
        }
        i := i + 1;
      }
      return None;
    }

    /** `POST /events` */
    method CreateEvent(req: Ledger.EventRequest) returns (r: Outcome<Event>)
      requires Valid()
      modifies this
      ensures Valid()
      ensures (r, Snapshot()) == Ledger.CreateEvent(old(Snapshot()), req)
    {
      Ledger.CreateEventKeepsWellFormed(Snapshot(), req);
      if !Ledger.HasRequiredFields(req) {
        return Fail(ValidationError(FieldsRequired));
      }
      var createdBy := if Filled(req.createdBy) then req.createdBy.value else "Admin";
      var e := Event(|events| + 1, req.title.value, Ledger.OrNull(req.description), req.eventType.value,
                     req.date.value, req.startTime.value, req.endTime.value, req.venue.value,
                     Ledger.DefaultCapacity(req.maxCapacity), req.collegeId.value, createdBy);
      events := events + [e];
      r := Ok(e);
    }

    /** The checks of `POST /register`, in the handler's order, up to the
      row it would insert. Nothing is written. */
    method CheckRegistration(studentId: Option<int>, eventId: Option<int>) returns (r: Outcome<Registration>)
      ensures r == Ledger.Register(Snapshot(), studentId, eventId).0
    {
      if !Truthy(studentId) || !Truthy(eventId) {
        return Fail(ValidationError(IdsRequired));
      }
      var event := FindEvent(eventId.value);
      if event.None? {
        return Fail(NotFound(EventMissing));
      }
      var count := CountRegistrations(eventId.value);
      if event.value.capacity != 0 && count >= event.value.capacity {
        return Fail(CapacityExceeded);
      }
      var taken := FindRegistration(studentId.value, eventId.value);
      if taken {
        return Fail(DuplicateRegistration);
      }
      return Ok(Registration(|registrations| + 1, studentId.value, eventId.value, "registered"));
    }

    /** `POST /register` */
    method Register(studentId: Option<int>, eventId: Option<int>) returns (r: Outcome<Registration>)
      requires Valid()
      modifies this
      ensures Valid()
      ensures (r, Snapshot()) == Ledger.Register(old(Snapshot()), studentId, eventId)
    {
      Ledger.RegisterKeepsWellFormed(Snapshot(), studentId, eventId);
      r := CheckRegistration(studentId, eventId);
      if r.Ok? {
        registrations := registrations + [r.value];
      }
    }

    /** `POST /attendance`: insert, or on a unique-key conflict update the
      existing row's status and timestamp. */
    method RecordAttendance(studentId: Option<int>, eventId: Option<int>, status: Option<string>, now: nat)
      returns (r: Outcome<Attendance>)
      requires Valid()
      modifies this
      ensures Valid()
      ensures (r, Snapshot()) == Ledger.RecordAttendance(old(Snapshot()), studentId, eventId, status, now)
    {
      Ledger.RecordAttendanceUpserts(Snapshot(), studentId, eventId, status, now);
      if !Truthy(studentId) || !Truthy(eventId) {
        return Fail(ValidationError(IdsRequired));
      }
      var st := Ledger.NormaliseStatus(status);
      var existing := FindAttendance(studentId.value, eventId.value);
      if existing.None? {
        attendance := attendance + [Attendance(|attendance| + 1, studentId.value, eventId.value, st, now)];
      } else {
        var i := existing.value;
        attendance := attendance[i := attendance[i].(status := st, markedAt := now)];
      }
      r := Ok(Find(attendance, AttendanceKey, (studentId.value, eventId.value)).value);
    }

    /** `POST /feedback`: validate, then insert, or on a unique-key conflict
      overwrite the rating, comment and timestamp. */
    method RecordFeedback(studentId: Option<int>, eventId: Option<int>, rating: Option<real>,
                          comment: Option<string>, now: nat) returns (r: Outcome<Feedback>)
      requires Valid()
      modifies this
      ensures Valid()
      ensures (r, Snapshot()) == Ledger.RecordFeedback(old(Snapshot()), studentId, eventId, rating, comment, now)
    {
      Ledger.RecordFeedbackUpserts(Snapshot(), studentId, eventId, rating, comment, now);
      if !Truthy(studentId) || !Truthy(eventId) || rating.None? {
        return Fail(ValidationError(RatingRequired));
      }
      if rating.value < 1.0 || rating.value > 5.0 {
        return Fail(ValidationError(RatingRange));
      }
      var text := Ledger.OrNull(comment);
      var existing := FindFeedback(studentId.value, eventId.value);
      if existing.None? {
        feedback := feedback + [Feedback(|feedback| + 1, studentId.value, eventId.value, rating.value, text, now)];
      } else {
        var i := existing.value;
        feedback := feedback[i := feedback[i].(rating := rating.value, comment := text, submittedAt := now)];
      }
      r := Ok(Find(feedback, FeedbackKey, (studentId.value, eventId.value)).value);
    }
  }
}
