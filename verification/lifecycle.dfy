/** The notification discipline across operations. The flag
    `message_sent` is meant to record that the one expiry notification of
    an appointment exists; this module states that discipline as an
    invariant of the store, proves which operations keep it, and shows the
    handler sequence that breaks it. */
module Lifecycle {
  import opened Schema
  import opened Auth
  import opened Sweep
  import opened Handlers

  /** Every appointment has exactly one expiry notification when its
      `message_sent` flag is set and none otherwise, a booked appointment
      has not been notified, and an expired one has. */
  predicate NoticeInvariant(s: Store)
  {
    forall i :: 0 <= i < |s.appointments| ==>
      && ExpiryNotices(s.notifications, s.appointments[i].id) == (if s.appointments[i].messageSent then 1 else 0)
      && (s.appointments[i].status == Booked ==> !s.appointments[i].messageSent)
      && (s.appointments[i].status == Expired ==> s.appointments[i].messageSent)
  }

  /** The empty database satisfies the discipline. */
  lemma EmptyStoreNotices()
    ensures NoticeInvariant(EmptyStore)
  {
  }

  /** No notification refers to an id that no appointment carries, when
      every notification's reference resolves. */
  lemma {:induction false} NoNoticesForFreshId(ns: seq<Notification>, appts: seq<Appointment>, id: Id)
    requires forall n :: 0 <= n < |ns| ==> HasAppointment(appts, ns[n].appointmentId)
    requires !HasAppointment(appts, id)
    ensures ExpiryNotices(ns, id) == 0
    decreases |ns|
  {
    if |ns| > 0 {
      assert HasAppointment(appts, ns[0].appointmentId);
      assert forall n :: 0 <= n < |ns[1..]| ==> ns[1..][n] == ns[n + 1];
      NoNoticesForFreshId(ns[1..], appts, id);
    }
  }

  /** A sweep keeps the discipline: each retired row gains its one notice
      together with its flag, and every other row keeps both. */
  lemma SweepPreservesNotices(s: Store, now: Instant, iso: Instant -> string)
    requires Joinable(s) && NoticeInvariant(s)
    ensures NoticeInvariant(MarkExpired(s, now, iso).store)
  {
    var t := MarkExpired(s, now, iso).store;
    var added := t.notifications[|s.notifications|..];
    assert t.notifications == s.notifications + added by {
      assert t.notifications[..|s.notifications|] == s.notifications;
    }
    SweepRows(s, now, iso);
    SweepNoticesOnce(s, now, iso);
    forall i | 0 <= i < |t.appointments|
      ensures ExpiryNotices(t.notifications, t.appointments[i].id) == (if t.appointments[i].messageSent then 1 else 0)
      ensures t.appointments[i].status == Booked ==> !t.appointments[i].messageSent
      ensures t.appointments[i].status == Expired ==> t.appointments[i].messageSent
    {
      var a := s.appointments[i];
      assert t.appointments[i].id == a.id;
      ExpiryNoticesAppend(s.notifications, added, a.id);
    }
  }

  /** Registration keeps the discipline: it touches neither appointments
      nor notifications. */
  lemma RegisterPreservesNotices(s: Store, name: string, email: string, password: string, role: string, phone: string)
    requires NoticeInvariant(s)
    requires Register(s, name, email, password, role, phone).Ok?
    ensures NoticeInvariant(Register(s, name, email, password, role, phone).value.store)
  {
  }

  /** Booking keeps the discipline: the new row is booked and unnotified,
      and no notification refers to its fresh id. */
  lemma BookPreservesNotices(s: Store, caller: Principal, doctorId: Id, time: string, reason: string, parse: string -> Option<Instant>)
    requires Valid(s) && NoticeInvariant(s)
    requires Book(s, caller, doctorId, time, reason, parse).Ok?
    ensures NoticeInvariant(Book(s, caller, doctorId, time, reason, parse).value.store)
  {
    var r := Book(s, caller, doctorId, time, reason, parse).value;
    var t := r.store;
    BookPreservesValid(s, caller, doctorId, time, reason, parse);
    NoNoticesForFreshId(s.notifications, s.appointments, r.appointment.id);
    forall i | 0 <= i < |t.appointments|
      ensures ExpiryNotices(t.notifications, t.appointments[i].id) == (if t.appointments[i].messageSent then 1 else 0)
      ensures t.appointments[i].status == Booked ==> !t.appointments[i].messageSent
      ensures t.appointments[i].status == Expired ==> t.appointments[i].messageSent
    {
      if i < |s.appointments| {
        assert t.appointments[i] == s.appointments[i];
      }
    }
  }

  /** The status update keeps the discipline except in one case: moving a
      row whose notification was already sent back to `booked`. */
  lemma UpdatePreservesNotices(s: Store, caller: Principal, id: Id, status: string)
    requires NoticeInvariant(s)
    requires UpdateStatus(s, caller, id, status).Ok?
    requires status == "booked" ==>
      forall i :: 0 <= i < |s.appointments| && s.appointments[i].id == id ==> !s.appointments[i].messageSent
    ensures NoticeInvariant(UpdateStatus(s, caller, id, status).value)
  {
    var t := UpdateStatus(s, caller, id, status).value;
    forall i | 0 <= i < |t.appointments|
      ensures ExpiryNotices(t.notifications, t.appointments[i].id) == (if t.appointments[i].messageSent then 1 else 0)
      ensures t.appointments[i].status == Booked ==> !t.appointments[i].messageSent
      ensures t.appointments[i].status == Expired ==> t.appointments[i].messageSent
    {
      assert t.appointments[i].id == s.appointments[i].id;
      assert t.appointments[i].messageSent == s.appointments[i].messageSent;
    }
  }

  /** The update with the terminal-state rule keeps the discipline
      unconditionally: it only ever rewrites a booked, unnotified row. */
  lemma GuardedUpdatePreservesNotices(s: Store, caller: Principal, id: Id, status: string)
    requires Valid(s) && NoticeInvariant(s)
    requires GuardedUpdateStatus(s, caller, id, status).Ok?
    ensures NoticeInvariant(GuardedUpdateStatus(s, caller, id, status).value)
    ensures Valid(GuardedUpdateStatus(s, caller, id, status).value)
  {
    var k :| 0 <= k < |s.appointments| && s.appointments[k].id == id && s.appointments[k].status == Booked;
    forall i | 0 <= i < |s.appointments| && s.appointments[i].id == id
      ensures !s.appointments[i].messageSent
    {
      assert i == k;
    }
    UpdatePreservesNotices(s, caller, id, status);
    UpdateStatusFrame(s, caller, id, status, k);
  }

  /** What the handlers can do between sweeps. */
  datatype Step =
    | SweepAt(now: Instant, iso: Instant -> string)
    | RegisterStep(name: string, email: string, password: string, role: string, phone: string)
    | BookStep(caller: Principal, doctorId: Id, time: string, reason: string, parse: string -> Option<Instant>)
    | PatchStep(caller: Principal, id: Id, status: string)

  /** One step; a refused request leaves the store as it was. With
      `guarded` the status update obeys the terminal-state rule, without it
      the update is the handler as written. */
  function ApplyStep(s: Store, st: Step, guarded: bool): Store
  {
    match st
    case SweepAt(now, iso) => MarkExpired(s, now, iso).store
    case RegisterStep(name, email, password, role, phone) =>
      var r := Register(s, name, email, password, role, phone);
      if r.Ok? then r.value.store else s
    case BookStep(caller, doctorId, time, reason, parse) =>
      var r := Book(s, caller, doctorId, time, reason, parse);
      if r.Ok? then r.value.store else s
    case PatchStep(caller, id, status) =>
      var r := if guarded then GuardedUpdateStatus(s, caller, id, status) else UpdateStatus(s, caller, id, status);
      if r.Ok? then r.value else s
  }

  function Run(s: Store, steps: seq<Step>, guarded: bool): Store
    decreases |steps|
  {
    if |steps| == 0 then s else Run(ApplyStep(s, steps[0], guarded), steps[1..], guarded)
  }

  /** No status update in the run asks for `booked`. */
  predicate NoRebook(steps: seq<Step>)
  {
    forall k :: 0 <= k < |steps| && steps[k].PatchStep? ==> steps[k].status != "booked"
  }

  lemma StepPreserves(s: Store, st: Step, guarded: bool)
    requires Valid(s) && NoticeInvariant(s)
    requires guarded || !st.PatchStep? || st.status != "booked"
    ensures Valid(ApplyStep(s, st, guarded)) && NoticeInvariant(ApplyStep(s, st, guarded))
  {
    match st
    case SweepAt(now, iso) =>
      ValidJoinable(s);
      SweepPreservesValid(s, now, iso);
      SweepPreservesNotices(s, now, iso);
    case RegisterStep(name, email, password, role, phone) =>
      if Register(s, name, email, password, role, phone).Ok? {
        RegisterPreservesValid(s, name, email, password, role, phone);
        RegisterPreservesNotices(s, name, email, password, role, phone);
      }
    case BookStep(caller, doctorId, time, reason, parse) =>
      if Book(s, caller, doctorId, time, reason, parse).Ok? {
        BookPreservesValid(s, caller, doctorId, time, reason, parse);
        BookPreservesNotices(s, caller, doctorId, time, reason, parse);
      }
    case PatchStep(caller, id, status) =>
      if guarded {
        if GuardedUpdateStatus(s, caller, id, status).Ok? {
          GuardedUpdatePreservesNotices(s, caller, id, status);
        }
      } else if UpdateStatus(s, caller, id, status).Ok? {
        var k :| 0 <= k < |s.appointments| && s.appointments[k].id == id;
        UpdateStatusFrame(s, caller, id, status, k);
        UpdatePreservesNotices(s, caller, id, status);
      }
  }

  /** At most one expiry notification per appointment, over any
      interleaving of sweeps, registrations, bookings and status updates
      from a store that keeps the rules: always with the terminal-state
      rule, and for the handler as written whenever no update asks for
      `booked`. */
  lemma {:induction false} RunAtMostOnce(s: Store, steps: seq<Step>, guarded: bool)
    requires Valid(s) && NoticeInvariant(s)
    requires guarded || NoRebook(steps)
    ensures Valid(Run(s, steps, guarded)) && NoticeInvariant(Run(s, steps, guarded))
    ensures forall i :: 0 <= i < |Run(s, steps, guarded).appointments| ==>
      ExpiryNotices(Run(s, steps, guarded).notifications, Run(s, steps, guarded).appointments[i].id) <= 1
    decreases |steps|
  {
    if |steps| > 0 {
      StepPreserves(s, steps[0], guarded);
      assert guarded || NoRebook(steps[1..]) by {
        if !guarded {
          forall k | 0 <= k < |steps[1..]| && steps[1..][k].PatchStep?
            ensures steps[1..][k].status != "booked"
          {
            assert steps[1..][k] == steps[k + 1];
          }
        }
      }
      RunAtMostOnce(ApplyStep(s, steps[0], guarded), steps[1..], guarded);
    }
  }

  /** The same from a freshly initialised database. */
  lemma FreshRunAtMostOnce(steps: seq<Step>, guarded: bool)
    requires guarded || NoRebook(steps)
    ensures forall i :: 0 <= i < |Run(EmptyStore, steps, guarded).appointments| ==>
      ExpiryNotices(Run(EmptyStore, steps, guarded).notifications, Run(EmptyStore, steps, guarded).appointments[i].id) <= 1
  {
    EmptyStoreValid();
    EmptyStoreNotices();
    RunAtMostOnce(EmptyStore, steps, guarded);
  }

  /** An expired appointment carries its flag and at least one expiry
      notification. Unlike the discipline above, this holds for the
      handlers as written, rebooking included. */
  predicate ExpiredNotified(s: Store)
  {
    forall i :: 0 <= i < |s.appointments| && s.appointments[i].status == Expired ==>
      s.appointments[i].messageSent && ExpiryNotices(s.notifications, s.appointments[i].id) >= 1
  }

  /** Every step keeps the schema's rules, whatever it asks for. */
  lemma StepKeepsValid(s: Store, st: Step, guarded: bool)
    requires Valid(s)
    ensures Valid(ApplyStep(s, st, guarded))
  {
    match st
    case SweepAt(now, iso) =>
      SweepPreservesValid(s, now, iso);
    case RegisterStep(name, email, password, role, phone) =>
      if Register(s, name, email, password, role, phone).Ok? {
        RegisterPreservesValid(s, name, email, password, role, phone);
      }
    case BookStep(caller, doctorId, time, reason, parse) =>
      if Book(s, caller, doctorId, time, reason, parse).Ok? {
        BookPreservesValid(s, caller, doctorId, time, reason, parse);
      }
    case PatchStep(caller, id, status) =>
      if UpdateStatus(s, caller, id, status).Ok? {
        var k :| 0 <= k < |s.appointments| && s.appointments[k].id == id;
        UpdateStatusFrame(s, caller, id, status, k);
      }
  }

  /** A sweep expires a row only while appending its notice, and never
      removes a notice. */
  lemma SweepKeepsExpiredNotified(s: Store, now: Instant, iso: Instant -> string)
    requires Valid(s) && ExpiredNotified(s)
    ensures ExpiredNotified(MarkExpired(s, now, iso).store)
  {
    ValidJoinable(s);
    var t := MarkExpired(s, now, iso).store;
    var added := t.notifications[|s.notifications|..];
    assert t.notifications == s.notifications + added by {
      assert t.notifications[..|s.notifications|] == s.notifications;
    }
    SweepRows(s, now, iso);
    SweepNoticesOnce(s, now, iso);
    forall i | 0 <= i < |t.appointments| && t.appointments[i].status == Expired
      ensures t.appointments[i].messageSent && ExpiryNotices(t.notifications, t.appointments[i].id) >= 1
    {
      ExpiryNoticesAppend(s.notifications, added, s.appointments[i].id);
    }
  }

  /** A status update never writes `expired` and leaves notifications
      alone. */
  lemma UpdateKeepsExpiredNotified(s: Store, caller: Principal, id: Id, status: string)
    requires Valid(s) && ExpiredNotified(s)
    requires UpdateStatus(s, caller, id, status).Ok?
    ensures ExpiredNotified(UpdateStatus(s, caller, id, status).value)
  {
    var t := UpdateStatus(s, caller, id, status).value;
    forall i | 0 <= i < |t.appointments| && t.appointments[i].status == Expired
      ensures t.appointments[i].messageSent && ExpiryNotices(t.notifications, t.appointments[i].id) >= 1
    {
      UpdateStatusFrame(s, caller, id, status, i);
    }
  }

  lemma StepKeepsExpiredNotified(s: Store, st: Step, guarded: bool)
    requires Valid(s) && ExpiredNotified(s)
    ensures ExpiredNotified(ApplyStep(s, st, guarded))
  {
    match st
    case SweepAt(now, iso) =>
      SweepKeepsExpiredNotified(s, now, iso);
    case RegisterStep(name, email, password, role, phone) =>
    case BookStep(caller, doctorId, time, reason, parse) =>
      if Book(s, caller, doctorId, time, reason, parse).Ok? {
        var t := Book(s, caller, doctorId, time, reason, parse).value.store;
        forall i | 0 <= i < |t.appointments| && t.appointments[i].status == Expired
          ensures t.appointments[i].messageSent && ExpiryNotices(t.notifications, t.appointments[i].id) >= 1
        {
          assert t.appointments[i] == s.appointments[i];
        }
      }
    case PatchStep(caller, id, status) =>
      if UpdateStatus(s, caller, id, status).Ok? {
        UpdateKeepsExpiredNotified(s, caller, id, status);
      }
  }

  /** Over any run of the handlers as written, rebooking included, every
      expired appointment has been notified at least once. */
  lemma {:induction false} RunKeepsExpiredNotified(s: Store, steps: seq<Step>, guarded: bool)
    requires Valid(s) && ExpiredNotified(s)
    ensures Valid(Run(s, steps, guarded)) && ExpiredNotified(Run(s, steps, guarded))
    decreases |steps|
  {
    if |steps| > 0 {
      StepKeepsValid(s, steps[0], guarded);
      StepKeepsExpiredNotified(s, steps[0], guarded);
      RunKeepsExpiredNotified(ApplyStep(s, steps[0], guarded), steps[1..], guarded);
    }
  }

  /** The same from a freshly initialised database. */
  lemma FreshRunExpiredNotified(steps: seq<Step>, guarded: bool)
    ensures ExpiredNotified(Run(EmptyStore, steps, guarded))
  {
    EmptyStoreValid();
    RunKeepsExpiredNotified(EmptyStore, steps, guarded);
  }

  /** A sweep over an expirable row adds exactly one expiry notice for it. */
  lemma SweepAddsOneNotice(s: Store, now: Instant, iso: Instant -> string, i: nat)
    requires Joinable(s)
    requires i < |s.appointments| && Expirable(s.appointments[i], now)
    ensures var t := MarkExpired(s, now, iso).store;
      && i < |t.appointments|
      && t.appointments[i] == Expire(s.appointments[i])
      && ExpiryNotices(t.notifications, s.appointments[i].id) == ExpiryNotices(s.notifications, s.appointments[i].id) + 1
  {
    var id := s.appointments[i].id;
    var t := MarkExpired(s, now, iso).store;
    var added := t.notifications[|s.notifications|..];
    assert t.notifications == s.notifications + added by {
      assert t.notifications[..|s.notifications|] == s.notifications;
    }
    SweepRows(s, now, iso);
    SweepNoticesOnce(s, now, iso);
    ExpiryNoticesAppend(s.notifications, added, id);
  }

  /** An admin may set any existing row back to `booked`; the flag stays. */
  lemma AdminRebooks(s: Store, admin: Principal, i: nat)
    requires Valid(s)
    requires admin.role == Admin
    requires i < |s.appointments|
    ensures var t := UpdateStatus(s, admin, s.appointments[i].id, "booked");
      && t.Ok?
      && Valid(t.value)
      && t.value.notifications == s.notifications
      && i < |t.value.appointments|
      && t.value.appointments[i] == s.appointments[i].(status := Booked)
  {
    var id := s.appointments[i].id;
    assert HasAppointment(s.appointments, id);
    assert UpdateStatus(s, admin, id, "booked").Ok? by {
      UpdateStatusOwnership(s, admin, id, "booked", i);
    }
    UpdateStatusFrame(s, admin, id, "booked", i);
  }

  /** The handler as written: a sweep retires a row, an admin sets it back
      to `booked` (the handler never consults the current status), and the
      next sweep retires it again, so the appointment ends up with two
      expiry notifications. */
  lemma RebookThenSweepNotifiesTwice(s: Store, admin: Principal, i: nat, now: Instant, iso: Instant -> string)
    requires Valid(s) && NoticeInvariant(s)
    requires admin.role == Admin
    requires i < |s.appointments| && Expirable(s.appointments[i], now)
    ensures var id := s.appointments[i].id;
      var t1 := MarkExpired(s, now, iso).store;
      var t2 := UpdateStatus(t1, admin, id, "booked");
      && t2.Ok?
      && var t3 := MarkExpired(t2.value, now, iso).store;
      && ExpiryNotices(t1.notifications, id) == 1
      && ExpiryNotices(t3.notifications, id) == 2
      && !NoticeInvariant(t3)
  {
    var id := s.appointments[i].id;
    ValidJoinable(s);
    var t1 := MarkExpired(s, now, iso).store;
    SweepPreservesValid(s, now, iso);
    SweepAddsOneNotice(s, now, iso, i);
    assert ExpiryNotices(s.notifications, id) == 0;
    AdminRebooks(t1, admin, i);
    var t2 := UpdateStatus(t1, admin, id, "booked").value;
    ValidJoinable(t2);
    SweepAddsOneNotice(t2, now, iso, i);
    var t3 := MarkExpired(t2, now, iso).store;
    assert t3.appointments[i].id == id && t3.appointments[i].messageSent;
  }
}
