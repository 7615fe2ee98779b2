/** The request handlers that change or read appointments: registration,
    booking, the caller's own appointment list, and the status update. Each
    handler takes the authenticated caller (see `Auth`) and the store, and
    either answers with an error and changes nothing, or returns the new
    store. */
module Handlers {
  import opened Schema
  import opened Auth

  /** The refusals of the handlers, one per HTTP answer they can give. */
  datatype ApiError =
    | MissingFields        // 400: a required body field is absent or empty
    | DuplicateEmail       // 409: the e-mail is already registered
    | InvalidTime          // 400: the appointment time does not parse
    | DoctorNotFound       // 404: no doctor has the requested id
    | ForeignKeyViolation  // the INSERT is refused by `foreign_keys = ON`
    | Forbidden            // 403 from `requireRole`
    | InvalidStatus        // 400: the target status is not allowed
    | NotFound             // 404: no appointment has the id
    | NotOwnAppointment    // 403: a doctor updating another doctor's row
    | IllegalTransition    // 409: the row is no longer booked (guarded update only)

  /** Absent or empty optional text is stored as NULL. */
  function OrNull(s: string): (r: Option<string>)
    ensures r.None? <==> s == ""
    ensures r.Some? ==> r.value == s
  {
    if s == "" then None else Some(s)
  }

  // ---------------------------------------------------------------------
  // POST /auth/register

  /** The requested role when it is one the schema knows, else patient. */
  function NormalizeRole(role: string): (r: Role)
    ensures role in ["patient", "doctor", "admin"] ==> RoleName(r) == role
    ensures role !in ["patient", "doctor", "admin"] ==> r == Patient
  {
    match ParseRole(role)
    case Some(x) => x
    case None => Patient
  }

  datatype Registered = Registered(store: Store, user: User)

  /** `POST /auth/register`: absent fields are empty strings. The password
      is only hashed, so only its presence matters here. */
  function Register(s: Store, name: string, email: string, password: string, role: string, phone: string): (r: Result<Registered, ApiError>)
    ensures r == Err(MissingFields) <==> name == "" || email == "" || password == ""
    ensures r == Err(DuplicateEmail) <==> name != "" && email != "" && password != "" && EmailTaken(s.users, email)
    ensures r.Ok? <==> name != "" && email != "" && password != "" && !EmailTaken(s.users, email)
    ensures r.Ok? ==>
      && r.value.user == User(s.nextUserId, name, email, NormalizeRole(role), OrNull(phone))
      && r.value.store == s.(users := s.users + [r.value.user], nextUserId := s.nextUserId + 1)
  {
    if name == "" || email == "" || password == "" then Err(MissingFields)
    else if EmailTaken(s.users, email) then Err(DuplicateEmail)
    else
      var u := User(s.nextUserId, name, email, NormalizeRole(role), OrNull(phone));
      Ok(Registered(s.(users := s.users + [u], nextUserId := s.nextUserId + 1), u))
  }

  /** Registration keeps the integrity rules, and the new account is the one
      found under its id. */
  lemma RegisterPreservesValid(s: Store, name: string, email: string, password: string, role: string, phone: string)
    requires Valid(s)
    requires Register(s, name, email, password, role, phone).Ok?
    ensures var r := Register(s, name, email, password, role, phone).value;
      && Valid(r.store)
      && UserOf(r.store.users, r.user.id) == Some(r.user)
      && !HasUser(s.users, r.user.id)
  {
    var r := Register(s, name, email, password, role, phone).value;
    var u := r.user;
    var t := r.store;
    assert t.users == s.users + [u];
    assert UsersValid(t) by {
      forall i, j | 0 <= i < j < |t.users|
        ensures t.users[i].email != t.users[j].email
      {
        if j == |s.users| {
          assert t.users[i] == s.users[i];
        }
      }
    }
    forall i | 0 <= i < |t.appointments|
      ensures HasUser(t.users, t.appointments[i].patientId) && HasUser(t.users, t.appointments[i].doctorId)
    {
      HasUserAppend(s.users, u, t.appointments[i].patientId);
      HasUserAppend(s.users, u, t.appointments[i].doctorId);
    }
    forall i | 0 <= i < |t.notifications|
      ensures HasUser(t.users, t.notifications[i].userId)
    {
      HasUserAppend(s.users, u, t.notifications[i].userId);
    }
    FreshUserId(s, u.id);
    UserOfUnique(t.users, |s.users|);
  }

  /** With distinct ids, the row at position `k` is the one found by its id. */
  lemma UserOfUnique(users: seq<User>, k: nat)
    requires k < |users|
    requires forall i, j :: 0 <= i < j < |users| ==> users[i].id != users[j].id
    ensures UserOf(users, users[k].id) == Some(users[k])
  {
    var i := UserIndex(users, users[k].id).value;
    assert i == k;
  }

  // ---------------------------------------------------------------------
  // POST /appointments

  datatype Booking = Booking(store: Store, appointment: Appointment)

  /** `POST /appointments`, after `authRequired`: `doctorId` 0 and an empty
      time stand for absent fields (ids start at 1). `parse` stands for the
      date library: it accepts a time text or not, and yields the instant
      that `toISOString()` stores. */
  function Book(s: Store, caller: Principal, doctorId: Id, time: string, reason: string, parse: string -> Option<Instant>): (r: Result<Booking, ApiError>)
    ensures caller.role == Doctor ==> r == Err(Forbidden)
    ensures r == Err(Forbidden) <==> caller.role !in [Patient, Admin]
    ensures r == Err(MissingFields) <==> caller.role in [Patient, Admin] && (doctorId == 0 || time == "")
    ensures r.Ok? <==>
      && caller.role in [Patient, Admin]
      && doctorId != 0 && time != "" && parse(time).Some?
      && IsDoctor(s.users, doctorId)
      && HasUser(s.users, caller.id)
    ensures r == Err(InvalidTime) <==>
      caller.role in [Patient, Admin] && doctorId != 0 && time != "" && parse(time).None?
    ensures r == Err(DoctorNotFound) <==>
      && caller.role in [Patient, Admin] && doctorId != 0 && time != "" && parse(time).Some?
      && !IsDoctor(s.users, doctorId)
    ensures r == Err(ForeignKeyViolation) <==>
      && caller.role in [Patient, Admin] && doctorId != 0 && time != "" && parse(time).Some?
      && IsDoctor(s.users, doctorId) && !HasUser(s.users, caller.id)
    ensures r.Ok? ==>
      && r.value.appointment == NewAppointment(s.nextAppointmentId, caller.id, doctorId, parse(time).value, OrNull(reason))
      && r.value.store == s.(appointments := s.appointments + [r.value.appointment],
                             nextAppointmentId := s.nextAppointmentId + 1)
  {
    if !RequireRole(Some(caller), [Patient, Admin]) then Err(Forbidden)
    else if doctorId == 0 || time == "" then Err(MissingFields)
    else
      match parse(time)
      case None => Err(InvalidTime)
      case Some(t) =>
        if !IsDoctor(s.users, doctorId) then Err(DoctorNotFound)
        else if !HasUser(s.users, caller.id) then Err(ForeignKeyViolation)
        else
          var a := NewAppointment(s.nextAppointmentId, caller.id, doctorId, t, OrNull(reason));
          Ok(Booking(s.(appointments := s.appointments + [a], nextAppointmentId := s.nextAppointmentId + 1), a))
  }

  /** Booking keeps the integrity rules; the new row is booked, unnotified,
      owned by the caller, and its id was not in use. */
  lemma BookPreservesValid(s: Store, caller: Principal, doctorId: Id, time: string, reason: string, parse: string -> Option<Instant>)
    requires Valid(s)
    requires Book(s, caller, doctorId, time, reason, parse).Ok?
    ensures var r := Book(s, caller, doctorId, time, reason, parse).value;
      && Valid(r.store)
      && !HasAppointment(s.appointments, r.appointment.id)
      && r.appointment.status == Booked && !r.appointment.messageSent
      && r.appointment.patientId == caller.id
  {
    var r := Book(s, caller, doctorId, time, reason, parse).value;
    var a := r.appointment;
    var t := r.store;
    FreshAppointmentId(s, a.id);
    assert t.appointments == s.appointments + [a];
    assert HasUser(s.users, a.doctorId);
    assert AppointmentsValid(t) by {
      forall i, j | 0 <= i < j < |t.appointments|
        ensures t.appointments[i].id != t.appointments[j].id
      {
        if j == |s.appointments| {
          assert t.appointments[i] == s.appointments[i];
        }
      }
    }
    forall i | 0 <= i < |t.notifications|
      ensures HasAppointment(t.appointments, t.notifications[i].appointmentId)
    {
      HasAppointmentAppend(s.appointments, a, t.notifications[i].appointmentId);
    }
  }

  // ---------------------------------------------------------------------
  // GET /appointments/me

  /** A result row: the appointment with the name and e-mail of the other
      party (the patient for a doctor, the doctor for anyone else). */
  datatype Row = Row(appt: Appointment, otherName: string, otherEmail: string)

  /** Whether an appointment is listed for the caller. */
  predicate Mine(caller: Principal, a: Appointment)
  {
    if caller.role == Doctor then a.doctorId == caller.id else a.patientId == caller.id
  }

  /** The id of the other party, the one the query joins with. */
  function Counterpart(caller: Principal, a: Appointment): Id
  {
    if caller.role == Doctor then a.patientId else a.doctorId
  }

  /** The filtered join, in table order. */
  function Listed(users: seq<User>, appts: seq<Appointment>, caller: Principal): (rows: seq<Row>)
    ensures forall k :: 0 <= k < |rows| ==>
      && rows[k].appt in appts
      && Mine(caller, rows[k].appt)
      && exists u :: UserOf(users, Counterpart(caller, rows[k].appt)) == Some(u)
           && rows[k].otherName == u.name && rows[k].otherEmail == u.email
    ensures forall a :: a in appts && Mine(caller, a) && HasUser(users, Counterpart(caller, a)) ==>
      exists k :: 0 <= k < |rows| && rows[k].appt == a
    ensures UniqueAppointmentIds(appts) ==> DistinctRows(rows)
  {
    if |appts| == 0 then []
    else
      var front := appts[..|appts| - 1];
      var rest := Listed(users, front, caller);
      var a := appts[|appts| - 1];
      assert forall b :: b in front ==> b in appts;
      if Mine(caller, a) then
        match UserOf(users, Counterpart(caller, a))
        case Some(u) =>
          var rows := rest + [Row(a, u.name, u.email)];
          assert forall k :: 0 <= k < |rest| ==> rows[k] == rest[k];
          assert rows[|rest|].appt == a;
          ListedStepDistinct(appts, rest, Row(a, u.name, u.email));
          rows
        case None =>
        ListedFrontUnique(appts);
        rest
      else
        ListedFrontUnique(appts);
        rest
  }

  lemma ListedFrontUnique(appts: seq<Appointment>)
    requires |appts| > 0
    ensures UniqueAppointmentIds(appts) ==> UniqueAppointmentIds(appts[..|appts| - 1])
  {
    var front := appts[..|appts| - 1];
    assert forall i :: 0 <= i < |front| ==> front[i] == appts[i];
  }

  /** Appending the last row of the table keeps the listed ids distinct. */
  lemma ListedStepDistinct(appts: seq<Appointment>, rest: seq<Row>, row: Row)
    requires |appts| > 0 && row.appt == appts[|appts| - 1]
    requires forall k :: 0 <= k < |rest| ==> rest[k].appt in appts[..|appts| - 1]
    requires UniqueAppointmentIds(appts[..|appts| - 1]) ==> DistinctRows(rest)
    ensures UniqueAppointmentIds(appts) ==> DistinctRows(rest + [row])
  {
    var front := appts[..|appts| - 1];
    if UniqueAppointmentIds(appts) {
      ListedFrontUnique(appts);
      var rows := rest + [row];
      forall j, k | 0 <= j < k < |rows| ensures rows[j].appt.id != rows[k].appt.id {
        assert rows[j] == rest[j];
        if k == |rest| {
          var m :| 0 <= m < |front| && front[m] == rest[j].appt;
          assert front[m] == appts[m];
        } else {
          assert rows[k] == rest[k];
        }
      }
    }
  }

  /** No appointment is listed twice. */
  predicate DistinctRows(rows: seq<Row>)
  {
    forall j, k :: 0 <= j < k < |rows| ==> rows[j].appt.id != rows[k].appt.id
  }

  predicate SortedByTimeDesc(rows: seq<Row>)
  {
    forall i, j :: 0 <= i < j < |rows| ==> rows[i].appt.time >= rows[j].appt.time
  }

  /** Inserts a row into a list sorted latest first. */
  function InsertByTimeDesc(x: Row, rows: seq<Row>): (r: seq<Row>)
    requires SortedByTimeDesc(rows)
    ensures SortedByTimeDesc(r)
    ensures multiset(r) == multiset(rows) + multiset{x}
    ensures forall k :: 0 <= k < |r| ==> r[k] == x || r[k] in rows
  {
    if |rows| == 0 then [x]
    else if x.appt.time >= rows[0].appt.time then [x] + rows
    else
      var tail := InsertByTimeDesc(x, rows[1..]);
      assert rows == [rows[0]] + rows[1..];
      [rows[0]] + tail
  }

  /** Inserting a row whose appointment is not yet listed keeps every
      appointment listed at most once. */
  lemma {:induction false} InsertKeepsDistinct(x: Row, rows: seq<Row>)
    requires SortedByTimeDesc(rows)
    requires DistinctRows(rows)
    requires forall k :: 0 <= k < |rows| ==> rows[k].appt.id != x.appt.id
    ensures DistinctRows(InsertByTimeDesc(x, rows))
  {
    if |rows| == 0 {
    } else if x.appt.time >= rows[0].appt.time {
      ConsDistinct(x, rows);
    } else {
      assert forall k :: 0 <= k < |rows[1..]| ==> rows[1..][k] == rows[k + 1];
      InsertKeepsDistinct(x, rows[1..]);
      InsertStepDistinct(x, rows, InsertByTimeDesc(x, rows[1..]));
    }
  }

  lemma InsertStepDistinct(x: Row, rows: seq<Row>, tail: seq<Row>)
    requires |rows| > 0
    requires forall k :: 0 <= k < |tail| ==> tail[k] == x || tail[k] in rows[1..]
    requires DistinctRows(rows[1..]) && (forall k :: 0 <= k < |rows[1..]| ==> rows[1..][k].appt.id != x.appt.id)
             ==> DistinctRows(tail)
    ensures DistinctRows(rows) && (forall k :: 0 <= k < |rows| ==> rows[k].appt.id != x.appt.id)
            ==> DistinctRows([rows[0]] + tail)
  {
    if DistinctRows(rows) && (forall k :: 0 <= k < |rows| ==> rows[k].appt.id != x.appt.id) {
      assert forall k :: 0 <= k < |rows[1..]| ==> rows[1..][k] == rows[k + 1];
      forall k | 0 <= k < |tail| ensures tail[k].appt.id != rows[0].appt.id {
        if tail[k] != x {
          var m :| 0 <= m < |rows[1..]| && rows[1..][m] == tail[k];
        }
      }
      ConsDistinct(rows[0], tail);
    }
  }

  /** Putting a row with a new id in front keeps the ids distinct. */
  lemma ConsDistinct(y: Row, tail: seq<Row>)
    ensures DistinctRows(tail) && (forall k :: 0 <= k < |tail| ==> tail[k].appt.id != y.appt.id)
            ==> DistinctRows([y] + tail)
  {
    var rows := [y] + tail;
    if DistinctRows(tail) && (forall k :: 0 <= k < |tail| ==> tail[k].appt.id != y.appt.id) {
      forall j, k | 0 <= j < k < |rows| ensures rows[j].appt.id != rows[k].appt.id {
        assert rows[k] == tail[k - 1];
        if j > 0 {
          assert rows[j] == tail[j - 1];
        }
      }
    }
  }

  /** `ORDER BY appointment_time DESC`: the latest appointment first. */
  function SortByTimeDesc(rows: seq<Row>): (r: seq<Row>)
    ensures SortedByTimeDesc(r)
    ensures multiset(r) == multiset(rows)
    ensures DistinctRows(rows) ==> DistinctRows(r)
  {
    if |rows| == 0 then []
    else
      assert rows == [rows[0]] + rows[1..];
      var tail := SortByTimeDesc(rows[1..]);
      SortStepDistinct(rows, tail);
      InsertByTimeDesc(rows[0], tail)
  }

  lemma SortStepDistinct(rows: seq<Row>, tail: seq<Row>)
    requires |rows| > 0 && SortedByTimeDesc(tail)
    requires multiset(tail) == multiset(rows[1..])
    requires DistinctRows(rows[1..]) ==> DistinctRows(tail)
    ensures DistinctRows(rows) ==> DistinctRows(InsertByTimeDesc(rows[0], tail))
  {
    if DistinctRows(rows) {
      assert forall k :: 0 <= k < |rows[1..]| ==> rows[1..][k] == rows[k + 1];
      forall k | 0 <= k < |tail| ensures tail[k].appt.id != rows[0].appt.id {
        SameMultisetIndex(tail, rows[1..], k);
      }
      InsertKeepsDistinct(rows[0], tail);
    }
  }

  /** `GET /appointments/me`: the caller's appointments with the other
      party's name and e-mail, latest first. */
  function MyAppointments(s: Store, caller: Principal): (rows: seq<Row>)
    ensures SortedByTimeDesc(rows)
    ensures multiset(rows) == multiset(Listed(s.users, s.appointments, caller))
    ensures UniqueAppointmentIds(s.appointments) ==> DistinctRows(rows)
  {
    SortByTimeDesc(Listed(s.users, s.appointments, caller))
  }

  /** Under the integrity rules the list holds exactly the caller's
      appointments: every listed row is the caller's, every appointment of
      the caller is listed, and each carries the other party's details. */
  lemma MyAppointmentsExact(s: Store, caller: Principal, a: Appointment)
    requires Valid(s)
    requires a in s.appointments
    ensures Mine(caller, a) <==> exists k :: 0 <= k < |MyAppointments(s, caller)| && MyAppointments(s, caller)[k].appt == a
  {
    var rows := MyAppointments(s, caller);
    var listed := Listed(s.users, s.appointments, caller);
    if Mine(caller, a) {
      var i :| 0 <= i < |s.appointments| && s.appointments[i] == a;
      assert HasUser(s.users, Counterpart(caller, a));
      var k :| 0 <= k < |listed| && listed[k].appt == a;
      SameMultisetIndex(listed, rows, k);
    }
    if exists k :: 0 <= k < |rows| && rows[k].appt == a {
      var k :| 0 <= k < |rows| && rows[k].appt == a;
      SameMultisetIndex(rows, listed, k);
    }
  }

  /** An element of one ordering of a multiset sits somewhere in any other. */
  lemma SameMultisetIndex<T>(a: seq<T>, b: seq<T>, k: nat)
    requires multiset(a) == multiset(b)
    requires k < |a|
    ensures exists m :: 0 <= m < |b| && b[m] == a[k]
  {
    assert a[k] in multiset(b);
  }

  /** Every listed row names the other party as stored. */
  lemma MyAppointmentsCounterpart(s: Store, caller: Principal, k: nat)
    requires k < |MyAppointments(s, caller)|
    ensures var row := MyAppointments(s, caller)[k];
      && row.appt in s.appointments
      && Mine(caller, row.appt)
      && exists u :: UserOf(s.users, Counterpart(caller, row.appt)) == Some(u)
           && row.otherName == u.name && row.otherEmail == u.email
  {
    var rows := MyAppointments(s, caller);
    var listed := Listed(s.users, s.appointments, caller);
    SameMultisetIndex(rows, listed, k);
  }

  // ---------------------------------------------------------------------
  // PATCH /appointments/:id/status

  /** The targets the status update accepts; `expired` is not among them. */
  function PatchTarget(status: string): (t: Option<Status>)
    ensures t.Some? <==> status in ["booked", "completed", "cancelled"]
    ensures t.Some? ==> StatusName(t.value) == status && t.value != Expired
  {
    match ParseStatus(status)
    case Some(st) => if st == Expired then None else Some(st)
    case None => None
  }

  /** `UPDATE appointments SET status = ? WHERE id = ?`. */
  function SetStatus(appts: seq<Appointment>, id: Id, target: Status): (r: seq<Appointment>)
    ensures |r| == |appts|
    ensures forall i :: 0 <= i < |appts| && appts[i].id != id ==> r[i] == appts[i]
    ensures forall i :: 0 <= i < |appts| && appts[i].id == id ==>
      r[i].status == target && r[i] == appts[i].(status := r[i].status)
  {
    seq(|appts|, i requires 0 <= i < |appts| =>
      if appts[i].id == id then appts[i].(status := target) else appts[i])
  }

  /** `PATCH /appointments/:id/status`, after `authRequired`. The checks
      run in the handler's order: role, target, existence, ownership. The
      current status is not consulted. */
  function UpdateStatus(s: Store, caller: Principal, id: Id, status: string): (r: Result<Store, ApiError>)
    ensures caller.role == Patient ==> r == Err(Forbidden)
    ensures r == Err(Forbidden) <==> caller.role !in [Doctor, Admin]
    ensures r == Err(InvalidStatus) <==> caller.role in [Doctor, Admin] && PatchTarget(status).None?
    ensures r == Err(NotFound) <==>
      caller.role in [Doctor, Admin] && PatchTarget(status).Some? && !HasAppointment(s.appointments, id)
    ensures r.Ok? ==> caller.role in [Doctor, Admin] && HasAppointment(s.appointments, id)
    ensures r.Ok? ==> r.value == s.(appointments := SetStatus(s.appointments, id, PatchTarget(status).value))
  {
    if !RequireRole(Some(caller), [Doctor, Admin]) then Err(Forbidden)
    else
      match PatchTarget(status)
      case None => Err(InvalidStatus)
      case Some(target) =>
        match AppointmentIndex(s.appointments, id)
        case None => Err(NotFound)
        case Some(i) =>
          if caller.role == Doctor && s.appointments[i].doctorId != caller.id then Err(NotOwnAppointment)
          else Ok(s.(appointments := SetStatus(s.appointments, id, target)))
  }

  /** Under the integrity rules, the ownership refusal is exactly a doctor
      naming an existing appointment of another doctor, and an update
      succeeds exactly for an admin, or for the row's own doctor. */
  lemma UpdateStatusOwnership(s: Store, caller: Principal, id: Id, status: string, i: nat)
    requires Valid(s)
    requires i < |s.appointments| && s.appointments[i].id == id
    requires PatchTarget(status).Some?
    ensures UpdateStatus(s, caller, id, status) == Err(NotOwnAppointment) <==>
      caller.role == Doctor && s.appointments[i].doctorId != caller.id
    ensures UpdateStatus(s, caller, id, status).Ok? <==>
      caller.role == Admin || (caller.role == Doctor && s.appointments[i].doctorId == caller.id)
  {
    var k := AppointmentIndex(s.appointments, id).value;
    assert k == i;
  }

  /** A successful update rewrites the status of the one named row and
      nothing else: other rows, `message_sent`, the other tables and the
      counters are untouched, and the integrity rules still hold. */
  lemma UpdateStatusFrame(s: Store, caller: Principal, id: Id, status: string, i: nat)
    requires Valid(s)
    requires UpdateStatus(s, caller, id, status).Ok?
    requires i < |s.appointments|
    ensures var t := UpdateStatus(s, caller, id, status).value;
      && |t.appointments| == |s.appointments|
      && t.users == s.users && t.notifications == s.notifications
      && t.nextUserId == s.nextUserId && t.nextAppointmentId == s.nextAppointmentId
      && t.nextNotificationId == s.nextNotificationId
      && (s.appointments[i].id != id ==> t.appointments[i] == s.appointments[i])
      && (s.appointments[i].id == id ==>
            t.appointments[i] == s.appointments[i].(status := PatchTarget(status).value))
      && Valid(t)
  {
    var t := UpdateStatus(s, caller, id, status).value;
    forall n | 0 <= n < |t.notifications|
      ensures HasAppointment(t.appointments, t.notifications[n].appointmentId)
    {
      HasAppointmentSameIds(s.appointments, t.appointments, t.notifications[n].appointmentId);
    }
  }

  /** The status update with the terminal-state rule added: a row that is
      completed, cancelled or expired keeps its status. Every other answer
      is the handler's. */
  function GuardedUpdateStatus(s: Store, caller: Principal, id: Id, status: string): (r: Result<Store, ApiError>)
    ensures UpdateStatus(s, caller, id, status).Err? ==> r == UpdateStatus(s, caller, id, status)
    ensures r.Ok? ==> r == UpdateStatus(s, caller, id, status)
    ensures r.Ok? ==> exists i :: 0 <= i < |s.appointments| && s.appointments[i].id == id && s.appointments[i].status == Booked
    ensures r == Err(IllegalTransition) ==> exists i :: 0 <= i < |s.appointments| && s.appointments[i].id == id && s.appointments[i].status != Booked
    ensures UpdateStatus(s, caller, id, status).Ok? ==>
      && AppointmentIndex(s.appointments, id).Some?
      && (var row := s.appointments[AppointmentIndex(s.appointments, id).value];
          && (row.status == Booked ==> r == UpdateStatus(s, caller, id, status))
          && (row.status != Booked ==> r == Err(IllegalTransition)))
  {
    var r := UpdateStatus(s, caller, id, status);
    if r.Err? then r
    else
      var i := AppointmentIndex(s.appointments, id).value;
      if s.appointments[i].status != Booked then Err(IllegalTransition) else r
  }

  /** With distinct ids, the terminal-state rule decides on the one row the
      id names: the handler's success stands on a booked row and becomes the
      illegal-transition refusal on any other. */
  lemma GuardedUpdateAt(s: Store, caller: Principal, id: Id, status: string, i: nat)
    requires UniqueAppointmentIds(s.appointments)
    requires i < |s.appointments| && s.appointments[i].id == id
    requires UpdateStatus(s, caller, id, status).Ok?
    ensures GuardedUpdateStatus(s, caller, id, status)
         == if s.appointments[i].status == Booked then UpdateStatus(s, caller, id, status) else Err(IllegalTransition)
  {
    var k := AppointmentIndex(s.appointments, id).value;
    assert k == i;
  }

  /** The `requireRole` gates in front of the two guarded routes: whatever
      the store and the body, a caller is refused as forbidden exactly when
      the gate does not admit their role. A patient never reaches the status
      update, a doctor never books. */
  lemma RoleGates(s: Store, caller: Principal, doctorId: Id, time: string, reason: string,
                  parse: string -> Option<Instant>, id: Id, status: string)
    ensures Book(s, caller, doctorId, time, reason, parse) == Err(Forbidden)
        <==> !RequireRole(Some(caller), [Patient, Admin])
    ensures UpdateStatus(s, caller, id, status) == Err(Forbidden)
        <==> !RequireRole(Some(caller), [Doctor, Admin])
    ensures caller.role == Patient ==> UpdateStatus(s, caller, id, status) == Err(Forbidden)
    ensures caller.role == Doctor ==> Book(s, caller, doctorId, time, reason, parse) == Err(Forbidden)
  {
  }
}
