/** The expiration sweep: every appointment still booked whose time lies
    strictly before a reference instant is retired (status `expired`,
    `message_sent` set) and its patient receives one `appointment_expired`
    notification, all in one atomic step. */
module Sweep {
  import opened Schema

  /** The `type` tag of every notification the sweep writes. */
  const ExpiredKind := "appointment_expired"

  /** The selection predicate: `status = 'booked' AND appointment_time < now`. */
  predicate Expirable(a: Appointment, now: Instant)
  {
    a.status == Booked && a.time < now
  }

  /** The row after `UPDATE appointments SET status = 'expired', message_sent = 1`. */
  function Expire(a: Appointment): Appointment
  {
    a.(status := Expired, messageSent := true)
  }

  /** The body of the expiry notification. */
  function ExpiryMessage(name: string, when: string): string
  {
    "Hi " + name + ", your appointment scheduled at " + when + " has expired. Please book a new slot."
  }

  /** One row of the selection: the appointment and its patient. */
  datatype Candidate = Candidate(appt: Appointment, patient: User)

  /** One entry of the summary: the patient's address and the appointment id. */
  datatype Notified = Notified(email: string, appointmentId: Id)

  /** The new store and the summary `{ expiredCount, notified }`. */
  datatype Swept = Swept(store: Store, expiredCount: nat, notified: seq<Notified>)

  /** The selection query: the expirable rows, in table order, each joined
      with its patient (`JOIN users u ON u.id = a.patient_id`). */
  function Candidates(users: seq<User>, appts: seq<Appointment>, now: Instant): (c: seq<Candidate>)
    ensures forall j :: 0 <= j < |c| ==>
              && c[j].appt in appts
              && Expirable(c[j].appt, now)
              && UserOf(users, c[j].appt.patientId) == Some(c[j].patient)
    ensures forall a :: a in appts && Expirable(a, now) && HasUser(users, a.patientId) ==>
              exists j :: 0 <= j < |c| && c[j].appt == a
    decreases |appts|
  {
    if |appts| == 0 then []
    else
      var a := appts[0];
      var rest := Candidates(users, appts[1..], now);
      var p := UserOf(users, a.patientId);
      var c := if Expirable(a, now) && p.Some? then [Candidate(a, p.value)] + rest else rest;
      CandidatesStep(users, appts, now, rest, c);
      c
  }

  /** One step of the selection: keeping or dropping the first row
      extends the selection of the remaining rows to the whole table. */
  lemma CandidatesStep(users: seq<User>, appts: seq<Appointment>, now: Instant, rest: seq<Candidate>, c: seq<Candidate>)
    requires |appts| > 0
    requires forall j :: 0 <= j < |rest| ==>
               && rest[j].appt in appts[1..]
               && Expirable(rest[j].appt, now)
               && UserOf(users, rest[j].appt.patientId) == Some(rest[j].patient)
    requires forall a :: a in appts[1..] && Expirable(a, now) && HasUser(users, a.patientId) ==>
               exists j :: 0 <= j < |rest| && rest[j].appt == a
    requires c == if Expirable(appts[0], now) && UserOf(users, appts[0].patientId).Some?
                  then [Candidate(appts[0], UserOf(users, appts[0].patientId).value)] + rest else rest
    ensures forall j :: 0 <= j < |c| ==>
              && c[j].appt in appts
              && Expirable(c[j].appt, now)
              && UserOf(users, c[j].appt.patientId) == Some(c[j].patient)
    ensures forall a :: a in appts && Expirable(a, now) && HasUser(users, a.patientId) ==>
              exists j :: 0 <= j < |c| && c[j].appt == a
  {
    var a := appts[0];
    assert forall b :: b in appts ==> b == a || b in appts[1..];
    assert forall b :: b in appts[1..] ==> b in appts;
    if c != rest {
      assert forall j :: 0 <= j < |rest| ==> c[j + 1] == rest[j];
      forall b | b in appts && Expirable(b, now) && HasUser(users, b.patientId)
        ensures exists j :: 0 <= j < |c| && c[j].appt == b
      {
        if b == a {
          assert c[0].appt == b;
        } else {
          var j :| 0 <= j < |rest| && rest[j].appt == b;
          assert c[j + 1].appt == b;
        }
      }
    }
  }

  function CandidateIds(c: seq<Candidate>): set<Id>
  {
    set j | 0 <= j < |c| :: c[j].appt.id
  }

  predicate DistinctCandidates(c: seq<Candidate>)
  {
    forall j, k :: 0 <= j < k < |c| ==> c[j].appt.id != c[k].appt.id
  }

  /** `UPDATE ... WHERE id = ?`: every row carrying the id is expired. */
  function ExpireWhere(appts: seq<Appointment>, id: Id): seq<Appointment>
  {
    seq(|appts|, i requires 0 <= i < |appts| => if appts[i].id == id then Expire(appts[i]) else appts[i])
  }

  /** The notification inserted for one selected row. */
  function Notice(c: Candidate, noteId: Id, iso: Instant -> string): Notification
  {
    Notification(noteId, c.appt.patientId, c.appt.id, ExpiryMessage(c.patient.name, iso(c.appt.time)), ExpiredKind)
  }

  /** The notifications inserted for a run of selected rows, ids counting up. */
  function Notices(c: seq<Candidate>, firstId: Id, iso: Instant -> string): seq<Notification>
  {
    seq(|c|, j requires 0 <= j < |c| => Notice(c[j], firstId + j, iso))
  }

  /** One iteration of the transaction's loop: the UPDATE, then the INSERT. */
  function RetireOne(s: Store, c: Candidate, iso: Instant -> string): Store
  {
    s.(appointments := ExpireWhere(s.appointments, c.appt.id),
       notifications := s.notifications + [Notice(c, s.nextNotificationId, iso)],
       nextNotificationId := s.nextNotificationId + 1)
  }

  /** The whole transaction: the loop over the selected rows. Row by row it
      expires exactly the rows whose id was selected, and it appends one
      notification per selected row after the existing ones. */
  function RetireAll(s: Store, c: seq<Candidate>, iso: Instant -> string): (r: Store)
    ensures r.users == s.users
    ensures r.nextUserId == s.nextUserId && r.nextAppointmentId == s.nextAppointmentId
    ensures r.nextNotificationId == s.nextNotificationId + |c|
    ensures r.notifications == s.notifications + Notices(c, s.nextNotificationId, iso)
    ensures |r.appointments| == |s.appointments|
    ensures forall i :: 0 <= i < |s.appointments| ==>
              r.appointments[i] == if s.appointments[i].id in CandidateIds(c) then Expire(s.appointments[i]) else s.appointments[i]
    decreases |c|
  {
    if |c| == 0 then s
    else
      var s1 := RetireOne(s, c[0], iso);
      assert Notices(c, s.nextNotificationId, iso)
          == [Notice(c[0], s.nextNotificationId, iso)] + Notices(c[1..], s.nextNotificationId + 1, iso);
      assert CandidateIds(c) == {c[0].appt.id} + CandidateIds(c[1..]) by {
        forall x | x in CandidateIds(c) ensures x in {c[0].appt.id} + CandidateIds(c[1..]) {
          var j :| 0 <= j < |c| && c[j].appt.id == x;
          if j > 0 { assert c[1..][j - 1] == c[j]; }
        }
        forall x | x in CandidateIds(c[1..]) ensures x in CandidateIds(c) {
          var j :| 0 <= j < |c[1..]| && c[1..][j].appt.id == x;
          assert c[j + 1] == c[1..][j];
        }
      }
      RetireAll(s1, c[1..], iso)
  }

  /** `markExpiredAppointmentsAndNotify` at reference instant `now`; `iso`
      renders an instant as the stored ISO text the message embeds. */
  function MarkExpired(s: Store, now: Instant, iso: Instant -> string): (r: Swept)
    ensures r.expiredCount == |r.notified|
    ensures |s.notifications| <= |r.store.notifications|
    ensures r.expiredCount == |r.store.notifications| - |s.notifications|
    ensures r.store.notifications[..|s.notifications|] == s.notifications
    ensures r.store.users == s.users
    ensures |r.store.appointments| == |s.appointments|
    ensures r.expiredCount == 0 ==> r.store == s && r.notified == []
  {
    var c := Candidates(s.users, s.appointments, now);
    if |c| == 0 then Swept(s, 0, [])
    else
      var after := RetireAll(s, c, iso);
      assert after.notifications[..|s.notifications|] == s.notifications;
      Swept(after, |c|, seq(|c|, j requires 0 <= j < |c| => Notified(c[j].patient.email, c[j].appt.id)))
  }

  /** The number of expirable rows. */
  function CountExpirable(appts: seq<Appointment>, now: Instant): nat
  {
    if |appts| == 0 then 0
    else (if Expirable(appts[0], now) then 1 else 0) + CountExpirable(appts[1..], now)
  }

  /** The number of expiry notifications that refer to an appointment. */
  function ExpiryNotices(ns: seq<Notification>, id: Id): nat
  {
    if |ns| == 0 then 0
    else (if ns[0].appointmentId == id && ns[0].kind == ExpiredKind then 1 else 0) + ExpiryNotices(ns[1..], id)
  }

  predicate PatientsExist(users: seq<User>, appts: seq<Appointment>)
  {
    forall i :: 0 <= i < |appts| ==> HasUser(users, appts[i].patientId)
  }

  /** When every patient reference resolves, the selection has one row per
      expirable appointment. */
  lemma {:induction false} CandidatesCount(users: seq<User>, appts: seq<Appointment>, now: Instant)
    requires PatientsExist(users, appts)
    ensures |Candidates(users, appts, now)| == CountExpirable(appts, now)
    decreases |appts|
  {
    if |appts| > 0 {
      assert HasUser(users, appts[0].patientId);
      assert PatientsExist(users, appts[1..]) by {
        forall i | 0 <= i < |appts[1..]| ensures HasUser(users, appts[1..][i].patientId) {
          assert appts[1..][i] == appts[i + 1];
        }
      }
      CandidatesCount(users, appts[1..], now);
    }
  }

  /** Distinct appointment ids give distinct selected rows. */
  lemma {:induction false} CandidatesDistinct(users: seq<User>, appts: seq<Appointment>, now: Instant)
    requires UniqueAppointmentIds(appts)
    ensures DistinctCandidates(Candidates(users, appts, now))
    decreases |appts|
  {
    if |appts| > 0 {
      var rest := Candidates(users, appts[1..], now);
      assert UniqueAppointmentIds(appts[1..]) by {
        forall i, j | 0 <= i < j < |appts[1..]| ensures appts[1..][i].id != appts[1..][j].id {
          assert appts[1..][i] == appts[i + 1] && appts[1..][j] == appts[j + 1];
        }
      }
      CandidatesDistinct(users, appts[1..], now);
      forall j | 0 <= j < |rest| ensures rest[j].appt.id != appts[0].id {
        var k :| 0 <= k < |appts[1..]| && appts[1..][k] == rest[j].appt;
        assert appts[k + 1] == rest[j].appt;
      }
    }
  }

  /** What the sweep needs of the store: appointment ids are distinct and
      every patient reference resolves (both hold in a valid store). */
  predicate Joinable(s: Store)
  {
    UniqueAppointmentIds(s.appointments) && PatientsExist(s.users, s.appointments)
  }

  lemma ValidJoinable(s: Store)
    requires Valid(s)
    ensures Joinable(s)
  {
  }

  /** A row's id is selected exactly when the row is expirable. */
  lemma SelectedIffExpirable(s: Store, now: Instant, i: nat)
    requires Joinable(s) && i < |s.appointments|
    ensures s.appointments[i].id in CandidateIds(Candidates(s.users, s.appointments, now))
        <==> Expirable(s.appointments[i], now)
  {
    var appts := s.appointments;
    var c := Candidates(s.users, appts, now);
    if Expirable(appts[i], now) {
      assert appts[i] in appts;
      assert HasUser(s.users, appts[i].patientId);
      var j :| 0 <= j < |c| && c[j].appt == appts[i];
    }
    if appts[i].id in CandidateIds(c) {
      var j :| 0 <= j < |c| && c[j].appt.id == appts[i].id;
      var k :| 0 <= k < |appts| && appts[k] == c[j].appt;
      assert k == i;
    }
  }

  /** The sweep in terms of its selection: the store after the transaction,
      the count and the notified list, one entry per selected row. */
  lemma SweepShape(s: Store, now: Instant, iso: Instant -> string)
    ensures var c := Candidates(s.users, s.appointments, now);
      var r := MarkExpired(s, now, iso);
      && r.store == RetireAll(s, c, iso)
      && r.expiredCount == |c|
      && forall j :: 0 <= j < |c| ==> r.notified[j] == Notified(c[j].patient.email, c[j].appt.id)
  {
  }

  /** Selection and frame: after a sweep, every row that was booked with a
      time strictly before `now` is expired with `message_sent` set; every
      other row (not booked, or at or after `now`) is exactly as before. */
  lemma SweepRows(s: Store, now: Instant, iso: Instant -> string)
    requires Joinable(s)
    ensures var r := MarkExpired(s, now, iso);
      forall i :: 0 <= i < |s.appointments| ==>
        r.store.appointments[i] == if Expirable(s.appointments[i], now) then Expire(s.appointments[i]) else s.appointments[i]
  {
    var c := Candidates(s.users, s.appointments, now);
    var after := RetireAll(s, c, iso);
    SweepShape(s, now, iso);
    forall i | 0 <= i < |s.appointments|
      ensures after.appointments[i]
           == if Expirable(s.appointments[i], now) then Expire(s.appointments[i]) else s.appointments[i]
    {
      SelectedIffExpirable(s, now, i);
    }
  }

  /** The summary counts the expirable rows. */
  lemma SweepCount(s: Store, now: Instant, iso: Instant -> string)
    requires Joinable(s)
    ensures MarkExpired(s, now, iso).expiredCount == CountExpirable(s.appointments, now)
  {
    CandidatesCount(s.users, s.appointments, now);
    SweepShape(s, now, iso);
  }

  lemma NoticesAt(c: seq<Candidate>, firstId: Id, iso: Instant -> string, j: nat)
    requires j < |c|
    ensures Notices(c, firstId, iso)[j] == Notice(c[j], firstId + j, iso)
  {
  }

  lemma AppendedAt<T>(a: seq<T>, b: seq<T>, j: nat)
    requires j < |b|
    ensures (a + b)[|a| + j] == b[j]
  {
  }

  /** The notification the transaction inserts for the `j`-th selected row. */
  lemma RetireAllNoticeAt(s: Store, c: seq<Candidate>, iso: Instant -> string, j: nat)
    requires j < |c|
    ensures RetireAll(s, c, iso).notifications[|s.notifications| + j] == Notice(c[j], s.nextNotificationId + j, iso)
  {
    var ns := Notices(c, s.nextNotificationId, iso);
    assert RetireAll(s, c, iso).notifications == s.notifications + ns;
    NoticesAt(c, s.nextNotificationId, iso, j);
    AppendedAt(s.notifications, ns, j);
  }

  /** The notified list pairs each new notification with the e-mail address
      of the user it goes to. */
  lemma SweepNotified(s: Store, now: Instant, iso: Instant -> string)
    ensures var r := MarkExpired(s, now, iso);
      forall j :: 0 <= j < |r.notified| ==>
        var n := r.store.notifications[|s.notifications| + j];
        && r.notified[j].appointmentId == n.appointmentId
        && UserOf(s.users, n.userId).Some?
        && UserOf(s.users, n.userId).value.email == r.notified[j].email
  {
    var c := Candidates(s.users, s.appointments, now);
    var r := MarkExpired(s, now, iso);
    SweepShape(s, now, iso);
    forall j | 0 <= j < |r.notified|
      ensures var n := r.store.notifications[|s.notifications| + j];
        && r.notified[j].appointmentId == n.appointmentId
        && UserOf(s.users, n.userId).Some?
        && UserOf(s.users, n.userId).value.email == r.notified[j].email
    {
      RetireAllNoticeAt(s, c, iso, j);
      assert r.notified[j] == Notified(c[j].patient.email, c[j].appt.id);
      assert UserOf(s.users, c[j].appt.patientId) == Some(c[j].patient);
    }
  }

  /** Counting splits over concatenation. */
  lemma {:induction false} ExpiryNoticesAppend(a: seq<Notification>, b: seq<Notification>, id: Id)
    ensures ExpiryNotices(a + b, id) == ExpiryNotices(a, id) + ExpiryNotices(b, id)
    decreases |a|
  {
    if |a| == 0 {
      assert a + b == b;
    } else {
      assert (a + b)[1..] == a[1..] + b;
      ExpiryNoticesAppend(a[1..], b, id);
    }
  }

  /** Among the notices for distinct selected rows, an appointment is
      referred to once if it was selected and never otherwise. */
  lemma {:induction false} NoticesCount(c: seq<Candidate>, firstId: Id, iso: Instant -> string, id: Id)
    requires DistinctCandidates(c)
    ensures ExpiryNotices(Notices(c, firstId, iso), id) == if id in CandidateIds(c) then 1 else 0
    decreases |c|
  {
    if |c| > 0 {
      var ns := Notices(c, firstId, iso);
      assert ns[1..] == Notices(c[1..], firstId + 1, iso);
      assert DistinctCandidates(c[1..]) by {
        forall j, k | 0 <= j < k < |c[1..]| ensures c[1..][j].appt.id != c[1..][k].appt.id {
          assert c[1..][j] == c[j + 1] && c[1..][k] == c[k + 1];
        }
      }
      NoticesCount(c[1..], firstId + 1, iso, id);
      forall x | x in CandidateIds(c[1..]) ensures x in CandidateIds(c) && x != c[0].appt.id {
        var j :| 0 <= j < |c[1..]| && c[1..][j].appt.id == x;
        assert c[j + 1] == c[1..][j];
      }
      if id in CandidateIds(c) && id != c[0].appt.id {
        var j :| 0 <= j < |c| && c[j].appt.id == id;
        assert c[1..][j - 1] == c[j];
      }
    }
  }

  /** `n` is the expiry notification of appointment `a`: it has the type
      `appointment_expired`, goes to the appointment's patient, refers to the
      appointment, and says, in the fixed template, the patient's name and the
      scheduled time. */
  predicate IsExpiryNoticeOf(n: Notification, a: Appointment, users: seq<User>, iso: Instant -> string)
  {
    && n.kind == ExpiredKind
    && n.appointmentId == a.id
    && n.userId == a.patientId
    && UserOf(users, a.patientId).Some?
    && n.message == ExpiryMessage(UserOf(users, a.patientId).value.name, iso(a.time))
  }

  /** The notifications a sweep appends carry fresh ids counting up from the
      counter, and each is the expiry notification of an expirable row. */
  lemma SweepNoticeFields(s: Store, now: Instant, iso: Instant -> string)
    ensures var r := MarkExpired(s, now, iso);
      var added := r.store.notifications[|s.notifications|..];
      forall j :: 0 <= j < |added| ==>
        && added[j].id == s.nextNotificationId + j
        && exists i :: 0 <= i < |s.appointments| && Expirable(s.appointments[i], now)
                       && IsExpiryNoticeOf(added[j], s.appointments[i], s.users, iso)
  {
    var c := Candidates(s.users, s.appointments, now);
    SweepShape(s, now, iso);
    var added := RetireAll(s, c, iso).notifications[|s.notifications|..];
    forall j | 0 <= j < |added|
      ensures added[j] == Notice(c[j], s.nextNotificationId + j, iso)
      ensures exists i :: 0 <= i < |s.appointments| && Expirable(s.appointments[i], now)
                          && IsExpiryNoticeOf(added[j], s.appointments[i], s.users, iso)
    {
      RetireAllNoticeAt(s, c, iso, j);
      var i :| 0 <= i < |s.appointments| && s.appointments[i] == c[j].appt;
      assert IsExpiryNoticeOf(added[j], s.appointments[i], s.users, iso);
    }
  }

  /** Exactly one notification per retired appointment: among the appended
      notifications, each expirable row is referred to once and every other
      row never. */
  lemma SweepNoticesOnce(s: Store, now: Instant, iso: Instant -> string)
    requires Joinable(s)
    ensures var r := MarkExpired(s, now, iso);
      var added := r.store.notifications[|s.notifications|..];
      forall i :: 0 <= i < |s.appointments| ==>
        ExpiryNotices(added, s.appointments[i].id) == if Expirable(s.appointments[i], now) then 1 else 0
  {
    var c := Candidates(s.users, s.appointments, now);
    SweepShape(s, now, iso);
    var added := RetireAll(s, c, iso).notifications[|s.notifications|..];
    assert added == Notices(c, s.nextNotificationId, iso);
    CandidatesDistinct(s.users, s.appointments, now);
    forall i | 0 <= i < |s.appointments|
      ensures ExpiryNotices(added, s.appointments[i].id) == if Expirable(s.appointments[i], now) then 1 else 0
    {
      SelectedIffExpirable(s, now, i);
      NoticesCount(c, s.nextNotificationId, iso, s.appointments[i].id);
    }
  }

  /** A sweep leaves no expirable row behind. */
  lemma SweepLeavesNothingDue(s: Store, now: Instant, iso: Instant -> string)
    requires Joinable(s)
    ensures var r := MarkExpired(s, now, iso);
      forall i :: 0 <= i < |r.store.appointments| ==> !Expirable(r.store.appointments[i], now)
  {
    SweepRows(s, now, iso);
  }

  /** With no expirable row the selection is empty. */
  lemma {:induction false} NothingDueNothingSelected(users: seq<User>, appts: seq<Appointment>, now: Instant)
    requires forall i :: 0 <= i < |appts| ==> !Expirable(appts[i], now)
    ensures Candidates(users, appts, now) == []
    decreases |appts|
  {
    if |appts| > 0 {
      assert !Expirable(appts[0], now);
      assert forall i :: 0 <= i < |appts[1..]| ==> appts[1..][i] == appts[i + 1];
      NothingDueNothingSelected(users, appts[1..], now);
    }
  }

  /** Idempotence: a second sweep at the same instant retires nothing,
      reports nothing and leaves the store as the first sweep left it. */
  lemma SweepIdempotent(s: Store, now: Instant, iso: Instant -> string)
    requires Joinable(s)
    ensures var r1 := MarkExpired(s, now, iso);
      var r2 := MarkExpired(r1.store, now, iso);
      r2.expiredCount == 0 && r2.notified == [] && r2.store == r1.store
  {
    var r1 := MarkExpired(s, now, iso);
    SweepLeavesNothingDue(s, now, iso);
    NothingDueNothingSelected(r1.store.users, r1.store.appointments, now);
  }

  /** The appointment rows after a sweep keep their ids and references. */
  lemma SweepKeepsKeys(s: Store, now: Instant, iso: Instant -> string)
    requires Joinable(s)
    ensures var t := MarkExpired(s, now, iso).store;
      forall i :: 0 <= i < |t.appointments| ==>
        && t.appointments[i].id == s.appointments[i].id
        && t.appointments[i].patientId == s.appointments[i].patientId
        && t.appointments[i].doctorId == s.appointments[i].doctorId
  {
    SweepRows(s, now, iso);
  }

  /** Where each notification row after a sweep comes from: the old rows
      keep their place and id, the new ones take ids from the counter and
      refer to an existing patient and appointment. */
  lemma SweepNoticeAt(s: Store, now: Instant, iso: Instant -> string, i: nat)
    requires Valid(s)
    requires i < |MarkExpired(s, now, iso).store.notifications|
    ensures var t := MarkExpired(s, now, iso).store;
      && HasUser(t.users, t.notifications[i].userId)
      && HasAppointment(t.appointments, t.notifications[i].appointmentId)
      && (i < |s.notifications| ==> t.notifications[i] == s.notifications[i])
      && (i >= |s.notifications| ==> t.notifications[i].id == s.nextNotificationId + (i - |s.notifications|))
      && (i < |s.notifications| ==> 1 <= t.notifications[i].id < s.nextNotificationId)
      && s.nextNotificationId + (i - |s.notifications|) < t.nextNotificationId
  {
    ValidJoinable(s);
    var t := MarkExpired(s, now, iso).store;
    var n := |s.notifications|;
    SweepKeepsKeys(s, now, iso);
    SweepShape(s, now, iso);
    if i < n {
      assert t.notifications[i] == t.notifications[..n][i];
      HasAppointmentSameIds(s.appointments, t.appointments, t.notifications[i].appointmentId);
    } else {
      SweepNoticeFields(s, now, iso);
      var added := t.notifications[n..];
      assert t.notifications[i] == added[i - n];
      var k :| 0 <= k < |s.appointments| && Expirable(s.appointments[k], now)
               && IsExpiryNoticeOf(added[i - n], s.appointments[k], s.users, iso);
      assert t.appointments[k].id == s.appointments[k].id;
    }
  }

  lemma SweepKeepsAppointmentsValid(s: Store, now: Instant, iso: Instant -> string)
    requires Valid(s)
    ensures UsersValid(MarkExpired(s, now, iso).store)
    ensures AppointmentsValid(MarkExpired(s, now, iso).store)
  {
    ValidJoinable(s);
    var t := MarkExpired(s, now, iso).store;
    SweepKeepsKeys(s, now, iso);
    assert t.nextUserId == s.nextUserId && t.nextAppointmentId == s.nextAppointmentId by {
      SweepShape(s, now, iso);
    }
    forall i | 0 <= i < |t.appointments|
      ensures HasUser(t.users, t.appointments[i].patientId) && HasUser(t.users, t.appointments[i].doctorId)
    {
      assert HasUser(s.users, s.appointments[i].patientId) && HasUser(s.users, s.appointments[i].doctorId);
    }
  }

  lemma SweepNoticeIdsDistinct(s: Store, now: Instant, iso: Instant -> string, i: nat, j: nat)
    requires Valid(s)
    requires i < j < |MarkExpired(s, now, iso).store.notifications|
    ensures var t := MarkExpired(s, now, iso).store;
      t.notifications[i].id != t.notifications[j].id
  {
    SweepNoticeAt(s, now, iso, i);
    SweepNoticeAt(s, now, iso, j);
  }

  lemma SweepKeepsNotificationsValid(s: Store, now: Instant, iso: Instant -> string)
    requires Valid(s)
    ensures NotificationsValid(MarkExpired(s, now, iso).store)
  {
    var t := MarkExpired(s, now, iso).store;
    forall i | 0 <= i < |t.notifications|
      ensures HasUser(t.users, t.notifications[i].userId)
      ensures HasAppointment(t.appointments, t.notifications[i].appointmentId)
      ensures 1 <= t.notifications[i].id < t.nextNotificationId
    {
      SweepNoticeAt(s, now, iso, i);
    }
    forall i, j | 0 <= i < j < |t.notifications|
      ensures t.notifications[i].id != t.notifications[j].id
    {
      SweepNoticeIdsDistinct(s, now, iso, i, j);
    }
  }

  /** A sweep keeps every integrity rule: the appointments keep their ids and
      references, and the new notifications take fresh ids and refer to
      existing users and appointments. */
  lemma SweepPreservesValid(s: Store, now: Instant, iso: Instant -> string)
    requires Valid(s)
    ensures Valid(MarkExpired(s, now, iso).store)
  {
    SweepKeepsAppointmentsValid(s, now, iso);
    SweepKeepsNotificationsValid(s, now, iso);
  }
}
