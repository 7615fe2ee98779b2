/** Times as the database compares them. `appointment_time` is a TEXT
    column and the sweep's `appointment_time < ?` compares it with the ISO
    text of the current instant under SQLite's BINARY collation, byte by
    byte. That order is chronological only while every stored time has the
    same ISO layout, which the handlers guarantee (`toISOString()`) but rows
    written with SQLite's own `datetime()` do not: its layout has a space
    where ISO has `T`. */
module TimeText {
  import opened Schema
  import opened Sweep

  /** SQLite's BINARY collation: compare code units left to right; a proper
      prefix sorts first. */
  predicate LexLess(a: string, b: string)
    decreases |a|
  {
    if |a| == 0 then |b| > 0
    else if |b| == 0 then false
    else if a[0] != b[0] then a[0] < b[0]
    else LexLess(a[1..], b[1..])
  }

  /** The order is strict. */
  lemma {:induction false} LexLessIrreflexive(a: string)
    ensures !LexLess(a, a)
    decreases |a|
  {
    if |a| > 0 {
      LexLessIrreflexive(a[1..]);
    }
  }

  /** A common prefix does not decide the comparison. */
  lemma {:induction false} LexLessCommonPrefix(p: string, a: string, b: string)
    ensures LexLess(p + a, p + b) <==> LexLess(a, b)
    decreases |p|
  {
    if |p| > 0 {
      assert (p + a)[0] == (p + b)[0];
      assert (p + a)[1..] == p[1..] + a;
      assert (p + b)[1..] == p[1..] + b;
      LexLessCommonPrefix(p[1..], a, b);
    } else {
      assert p + a == a && p + b == b;
    }
  }

  /** The first differing code unit decides the comparison. */
  lemma FirstDifferenceDecides(p: string, x: char, y: char, a: string, b: string)
    requires x < y
    ensures LexLess(p + [x] + a, p + [y] + b)
  {
    LexLessCommonPrefix(p, [x] + a, [y] + b);
    assert p + [x] + a == p + ([x] + a);
    assert p + [y] + b == p + ([y] + b);
  }

  /** SQLite's `datetime()` text layout, `YYYY-MM-DD HH:MM:SS`. */
  function SqliteDateTime(date: string, clock: string): (t: string)
    ensures |t| == |date| + 1 + |clock| && t[|date|] == ' '
  {
    date + " " + clock
  }

  /** The `toISOString()` layout, `YYYY-MM-DDTHH:MM:SS.sssZ`. */
  function IsoDateTime(date: string, clock: string, millis: string): (t: string)
    ensures |t| == |date| + 1 + |clock| + 1 + |millis| + 1 && t[|date|] == 'T'
  {
    date + "T" + clock + "." + millis + "Z"
  }

  /** The sweep's selection as written, on the stored text and the text of
      `now`. */
  predicate SelectedAsWritten(status: Status, stored: string, nowText: string)
  {
    status == Booked && LexLess(stored, nowText)
  }

  /** On the same date, a booked row stored in SQLite's layout is selected
      whatever its clock reads: it sorts before every ISO time of that day,
      including ones hours earlier than itself. */
  lemma SameDaySqliteTimeSelected(date: string, clock: string, nowClock: string, nowMillis: string)
    ensures SelectedAsWritten(Booked, SqliteDateTime(date, clock), IsoDateTime(date, nowClock, nowMillis))
  {
    FirstDifferenceDecides(date, ' ', 'T', clock, nowClock + "." + nowMillis + "Z");
    assert SqliteDateTime(date, clock) == date + [' '] + clock;
    assert IsoDateTime(date, nowClock, nowMillis) == date + ['T'] + (nowClock + "." + nowMillis + "Z");
  }

  /** The expiry test's second row: stored at noon plus two hours by
      `datetime('now', '+2 hour')`, it is selected by a sweep at noon, so
      that sweep retires both rows instead of one. */
  lemma FutureTestRowSelected()
    ensures SelectedAsWritten(Booked, "2026-10-09 14:00:00", "2026-10-09T12:00:00.000Z")
  {
    SameDaySqliteTimeSelected("2026-10-09", "14:00:00", "12:00:00", "000");
    assert SqliteDateTime("2026-10-09", "14:00:00") == "2026-10-09 14:00:00";
    assert IsoDateTime("2026-10-09", "12:00:00", "000") == "2026-10-09T12:00:00.000Z";
  }

  /** `toISOString()` writes a year outside 0000-9999 in the expanded
      layout `+YYYYYY-...`. Such a text sorts before every text of a
      four-digit year, so a booking far in the future is selected by every
      sweep as if it were already past. */
  lemma ExpandedYearSelected(stored: string, nowText: string)
    requires |stored| > 0 && stored[0] == '+'
    requires |nowText| > 0 && '0' <= nowText[0] <= '9'
    ensures SelectedAsWritten(Booked, stored, nowText)
  {
    FirstDifferenceDecides([], '+', nowText[0], stored[1..], nowText[1..]);
    assert [] + ['+'] + stored[1..] == stored;
    assert [] + [nowText[0]] + nowText[1..] == nowText;
  }

  /** The booking time 253402300800000 (milliseconds), stored as the year
      10000, is expired by a sweep on 2026-10-09. */
  lemma YearTenThousandSelected()
    ensures SelectedAsWritten(Booked, "+010000-01-01T00:00:00.000Z", "2026-10-09T12:00:00.000Z")
  {
    ExpandedYearSelected("+010000-01-01T00:00:00.000Z", "2026-10-09T12:00:00.000Z");
  }

  /** With times compared as instants, the same scenario comes out as the
      test expects: of a booked row `h` before `now` and a booked row `h`
      after it, the sweep retires the first alone, with one notification,
      and leaves the second booked with none. */
  lemma TestScenarioWithInstants(s: Store, now: Instant, h: nat, iso: Instant -> string)
    requires Joinable(s) && h > 0
    requires |s.appointments| == 2 && s.notifications == []
    requires s.appointments[0].status == Booked && s.appointments[0].time == now - h
    requires s.appointments[1].status == Booked && s.appointments[1].time == now + h
    ensures var r := MarkExpired(s, now, iso);
      && r.expiredCount == 1
      && r.store.appointments == [Expire(s.appointments[0]), s.appointments[1]]
      && r.store.appointments[0].messageSent
      && ExpiryNotices(r.store.notifications, s.appointments[0].id) == 1
      && ExpiryNotices(r.store.notifications, s.appointments[1].id) == 0
  {
    var r := MarkExpired(s, now, iso);
    SweepRows(s, now, iso);
    SweepCount(s, now, iso);
    var a := s.appointments;
    assert a[1..][0] == a[1] && a[1..][1..] == [];
    assert CountExpirable(a[1..], now) == 0;
    SweepNoticesOnce(s, now, iso);
    assert r.store.notifications[|s.notifications|..] == r.store.notifications;
  }
}
