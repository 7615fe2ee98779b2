/** The appointment store: the three tables of the schema (users,
    appointments, notifications), their enumerations and defaults, and the
    integrity rules the database enforces on them. */
module Schema {

  datatype Option<+T> = None | Some(value: T)

  datatype Result<+T, +E> = Ok(value: T) | Err(error: E)

  /** Row identifiers: SQLite `INTEGER PRIMARY KEY AUTOINCREMENT`, starting at 1. */
  type Id = int

  /** A point in time. Stored times are normalised ISO-8601 UTC text, whose
      lexicographic order is chronological order; the model keeps the order. */
  type Instant = int

  /** The `role` column's CHECK constraint. */
  datatype Role = Patient | Doctor | Admin

  /** The `status` column's CHECK constraint. */
  datatype Status = Booked | Completed | Cancelled | Expired

  function RoleName(r: Role): string
  {
    match r
    case Patient => "patient"
    case Doctor => "doctor"
    case Admin => "admin"
  }

  function StatusName(st: Status): string
  {
    match st
    case Booked => "booked"
    case Completed => "completed"
    case Cancelled => "cancelled"
    case Expired => "expired"
  }

  /** The text values the `role` column accepts, and nothing else. */
  function ParseRole(s: string): (r: Option<Role>)
    ensures r.Some? ==> RoleName(r.value) == s
    ensures forall x :: RoleName(x) == s ==> r == Some(x)
  {
    if s == "patient" then Some(Patient)
    else if s == "doctor" then Some(Doctor)
    else if s == "admin" then Some(Admin)
    else None
  }

  /** The text values the `status` column accepts, and nothing else. */
  function ParseStatus(s: string): (r: Option<Status>)
    ensures r.Some? ==> StatusName(r.value) == s
    ensures forall x :: StatusName(x) == s ==> r == Some(x)
  {
    if s == "booked" then Some(Booked)
    else if s == "completed" then Some(Completed)
    else if s == "cancelled" then Some(Cancelled)
    else if s == "expired" then Some(Expired)
    else None
  }

  /** A row of `users`; the password hash and creation time are not modelled. */
  datatype User = User(id: Id, name: string, email: string, role: Role, phone: Option<string>)

  /** A row of `appointments`; `message_sent` (0 or 1) is a boolean here. */
  datatype Appointment = Appointment(
    id: Id,
    patientId: Id,
    doctorId: Id,
    time: Instant,
    reason: Option<string>,
    status: Status,
    messageSent: bool)

  /** A row of `notifications`; `kind` is the free-text `type` column. */
  datatype Notification = Notification(
    id: Id,
    userId: Id,
    appointmentId: Id,
    message: string,
    kind: string)

  /** The three tables plus the AUTOINCREMENT counter of each. */
  datatype Store = Store(
    users: seq<User>,
    appointments: seq<Appointment>,
    notifications: seq<Notification>,
    nextUserId: Id,
    nextAppointmentId: Id,
    nextNotificationId: Id)

  /** A freshly initialised database. */
  const EmptyStore := Store([], [], [], 1, 1, 1)

  /** The column defaults of a newly inserted appointment. */
  function NewAppointment(id: Id, patientId: Id, doctorId: Id, time: Instant, reason: Option<string>): (a: Appointment)
    ensures a.status == Booked && !a.messageSent
    ensures a.id == id && a.patientId == patientId && a.doctorId == doctorId
    ensures a.time == time && a.reason == reason
  {
    Appointment(id, patientId, doctorId, time, reason, Booked, false)
  }

  predicate HasUser(users: seq<User>, id: Id)
  {
    exists i :: 0 <= i < |users| && users[i].id == id
  }

  predicate HasAppointment(appts: seq<Appointment>, id: Id)
  {
    exists i :: 0 <= i < |appts| && appts[i].id == id
  }

  /** `SELECT ... FROM users WHERE id = ?`, first row. */
  function UserIndex(users: seq<User>, id: Id): (r: Option<nat>)
    ensures r.Some? ==> r.value < |users| && users[r.value].id == id
    ensures r.None? <==> !HasUser(users, id)
  {
    if |users| == 0 then None
    else if users[0].id == id then Some(0)
    else
      match UserIndex(users[1..], id)
      case Some(i) => Some(i + 1)
      case None => None
  }

  /** The user row with a given id, if any. */
  function UserOf(users: seq<User>, id: Id): (r: Option<User>)
    ensures r.Some? <==> HasUser(users, id)
    ensures r.Some? ==> r.value in users && r.value.id == id
  {
    match UserIndex(users, id)
    case Some(i) => Some(users[i])
    case None => None
  }

  /** `SELECT * FROM appointments WHERE id = ?`, first row. */
  function AppointmentIndex(appts: seq<Appointment>, id: Id): (r: Option<nat>)
    ensures r.Some? ==> r.value < |appts| && appts[r.value].id == id
    ensures r.None? <==> !HasAppointment(appts, id)
  {
    if |appts| == 0 then None
    else if appts[0].id == id then Some(0)
    else
      match AppointmentIndex(appts[1..], id)
      case Some(i) => Some(i + 1)
      case None => None
  }

  /** `SELECT id FROM users WHERE email = ?`. */
  predicate EmailTaken(users: seq<User>, email: string)
  {
    exists i :: 0 <= i < |users| && users[i].email == email
  }

  /** `SELECT id FROM users WHERE id = ? AND role = 'doctor'`. */
  predicate IsDoctor(users: seq<User>, id: Id)
  {
    exists i :: 0 <= i < |users| && users[i].id == id && users[i].role == Doctor
  }

  predicate UsersValid(s: Store)
  {
    && 1 <= s.nextUserId
    && (forall i :: 0 <= i < |s.users| ==> 1 <= s.users[i].id < s.nextUserId)
    && (forall i, j :: 0 <= i < j < |s.users| ==> s.users[i].id != s.users[j].id)
    && (forall i, j :: 0 <= i < j < |s.users| ==> s.users[i].email != s.users[j].email)
  }

  predicate UniqueAppointmentIds(appts: seq<Appointment>)
  {
    forall i, j :: 0 <= i < j < |appts| ==> appts[i].id != appts[j].id
  }

  predicate AppointmentsValid(s: Store)
  {
    && 1 <= s.nextAppointmentId
    && (forall i :: 0 <= i < |s.appointments| ==> 1 <= s.appointments[i].id < s.nextAppointmentId)
    && UniqueAppointmentIds(s.appointments)
    && (forall i :: 0 <= i < |s.appointments| ==> HasUser(s.users, s.appointments[i].patientId))
    && (forall i :: 0 <= i < |s.appointments| ==> HasUser(s.users, s.appointments[i].doctorId))
  }

  predicate NotificationsValid(s: Store)
  {
    && 1 <= s.nextNotificationId
    && (forall i :: 0 <= i < |s.notifications| ==> 1 <= s.notifications[i].id < s.nextNotificationId)
    && (forall i, j :: 0 <= i < j < |s.notifications| ==> s.notifications[i].id != s.notifications[j].id)
    && (forall i :: 0 <= i < |s.notifications| ==> HasUser(s.users, s.notifications[i].userId))
    && (forall i :: 0 <= i < |s.notifications| ==> HasAppointment(s.appointments, s.notifications[i].appointmentId))
  }

  /** Everything the schema enforces: primary keys below their AUTOINCREMENT
      counter and distinct, unique e-mail, and every foreign key resolving. */
  predicate Valid(s: Store)
  {
    UsersValid(s) && AppointmentsValid(s) && NotificationsValid(s)
  }

  /** Any id not below the counter is fresh. */
  lemma FreshUserId(s: Store, id: Id)
    requires Valid(s) && id >= s.nextUserId
    ensures !HasUser(s.users, id)
  {
  }

  lemma FreshAppointmentId(s: Store, id: Id)
    requires Valid(s) && id >= s.nextAppointmentId
    ensures !HasAppointment(s.appointments, id)
  {
  }

  lemma HasUserAppend(users: seq<User>, u: User, id: Id)
    requires HasUser(users, id)
    ensures HasUser(users + [u], id)
  {
    var i :| 0 <= i < |users| && users[i].id == id;
    assert (users + [u])[i] == users[i];
  }

  lemma HasAppointmentAppend(appts: seq<Appointment>, a: Appointment, id: Id)
    requires HasAppointment(appts, id)
    ensures HasAppointment(appts + [a], id)
  {
    var i :| 0 <= i < |appts| && appts[i].id == id;
    assert (appts + [a])[i] == appts[i];
  }

  /** Rewriting rows in place without touching their ids keeps every
      appointment reference resolving. */
  lemma HasAppointmentSameIds(appts: seq<Appointment>, appts': seq<Appointment>, id: Id)
    requires |appts| == |appts'|
    requires forall i :: 0 <= i < |appts| ==> appts'[i].id == appts[i].id
    requires HasAppointment(appts, id)
    ensures HasAppointment(appts', id)
  {
    var i :| 0 <= i < |appts| && appts[i].id == id;
    assert appts'[i].id == id;
  }

  /** A freshly initialised database satisfies the integrity rules. */
  lemma EmptyStoreValid()
    ensures Valid(EmptyStore)
  {
  }
}
