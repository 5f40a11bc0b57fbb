/** The alarm schedule of common/apps/alarm/alarm.c. */
module BootAlarm {
  import opened Wrappers

  const DAY: int := 24 * 60 * 60
  const WEEK: int := 7 * DAY

  /** `struct tm`, as localtime fills it. */
  datatype Tm = Tm(wday: int, hour: int, min: int, sec: int)

  predicate IsTime(t: Tm) {
    0 <= t.wday < 7 && 0 <= t.hour < 24 && 0 <= t.min < 60 && 0 <= t.sec < 60
  }

  /** `struct alarm_db` and `struct alarm_sec`. A `day` of -1 marks an alarm that rings once. */
  datatype AlarmDb = AlarmDb(id: int, hour: int, min: int, dayOfWeek: int, enable: bool, vibrate: int, alert: string)

  datatype AlarmSec = AlarmSec(day: int, secs: int, dbId: int, vibrate: int, alert: string)

  /** Monday is 0. */
  function Weekday(t: Tm): int {
    if t.wday == 0 then 6 else t.wday - 1
  }

  function TimeOfDay(t: Tm): int {
    t.hour * 3600 + t.min * 60 + t.sec
  }

  /** get_secs_in_weeks(LOCALTIME_WEEKDAY_SECS): the seconds since Monday began. */
  function SecsInWeek(t: Tm): (s: int)
    ensures IsTime(t) ==> 0 <= s < WEEK
  {
    Weekday(t) * 24 * 60 * 60 + t.hour * 60 * 60 + t.min * 60 + t.sec
  }

  /** get_secs_in_weeks(LOCALTIME_WEEKDAY_REMAIN_SECS): what is left of the week. */
  function RemainSecs(t: Tm): (s: int)
    ensures s == WEEK - SecsInWeek(t)
  {
    (6 - Weekday(t)) * 24 * 60 * 60 + (23 - t.hour) * 60 * 60 + (59 - t.min) * 60 + (60 - t.sec)
  }

  /** They are the seconds of the week: day, hour, minute and second can be read off them. */
  lemma WeekClock(t: Tm)
    requires IsTime(t)
    ensures var s := SecsInWeek(t);
            && s / 86400 == (t.wday + 6) % 7 && s % 86400 / 3600 == t.hour
            && s % 3600 / 60 == t.min && s % 60 == t.sec
  {
    var s, hms, ms := SecsInWeek(t), t.hour * 3600 + t.min * 60 + t.sec, t.min * 60 + t.sec;
    DayPart(s, Weekday(t), hms);
    HourPart(hms, t.hour, ms);
    HourPart(s, Weekday(t) * 24 + t.hour, ms);
    MinutePart(ms, t.min, t.sec);
    MinutePart(s, (Weekday(t) * 24 + t.hour) * 60 + t.min, t.sec);
  }

  lemma DayPart(s: int, d: int, rest: int)
    requires s == d * 86400 + rest && 0 <= rest < 86400
    ensures s / 86400 == d && s % 86400 == rest
  {
  }

  lemma HourPart(s: int, h: int, rest: int)
    requires s == h * 3600 + rest && 0 <= rest < 3600
    ensures s / 3600 == h && s % 3600 == rest
  {
  }

  lemma MinutePart(s: int, m: int, rest: int)
    requires s == m * 60 + rest && 0 <= rest < 60
    ensures s / 60 == m && s % 60 == rest
  {
  }

  /** check_alarm_day. */
  function CheckAlarmDay(now: Tm, daySecs: int): (d: int)
    ensures IsTime(now) ==> 0 <= d < 7
  {
    var weekday := Weekday(now) + if GracedTime(now) > daySecs then 1 else 0;
    if weekday == 7 then 0 else weekday
  }

  /** The time of day less the forty seconds of grace. */
  function GracedTime(now: Tm): int {
    TimeOfDay(now) - 40
  }

  /**
    The day is the one on which the time comes next, counted from forty seconds ago: it comes within
    a day of then, and on no other day of the week does it.
  */
  lemma CheckAlarmDayIsNext(now: Tm, hour: int, min: int, d: int)
    requires IsTime(now) && 0 <= hour < 24 && 0 <= min < 60 && 0 <= d < 7
    ensures d == CheckAlarmDay(now, hour * 3600 + min * 60)
            <==> (d * DAY + hour * 3600 + min * 60 - (SecsInWeek(now) - 40)) % WEEK < DAY
  {
    var day := hour * 3600 + min * 60;
    var ahead := day - GracedTime(now);
    assert d * DAY + day - (SecsInWeek(now) - 40) == (d - Weekday(now)) * DAY + ahead;
    assert -DAY < ahead < DAY;
    var k := d - Weekday(now) + if ahead < 0 then -1 else 0;
    var rest := if ahead < 0 then ahead + DAY else ahead;
    assert 0 <= rest < DAY && (d - Weekday(now)) * DAY + ahead == k * DAY + rest;
    DaysApart(k, rest);
  }

  lemma DaysApart(k: int, rest: int)
    requires -8 < k < 7 && 0 <= rest < DAY
    ensures (k * DAY + rest) % WEEK < DAY <==> k == 0 || k == -7
  {
  }

  // ---- The specification of the list ----

  function Pow2(n: nat): (p: int)
    ensures p > 0
  {
    if n == 0 then 1 else 2 * Pow2(n - 1)
  }

  /** `((0x0001 << d) & mask) != 0`, also for a negative mask. */
  predicate HasDay(mask: int, d: nat) {
    mask / Pow2(d) % 2 == 1
  }

  /** The days are the bits of the mask. */
  lemma MaskIsItsDays(mask: int)
    ensures mask % 128
            == (if HasDay(mask, 0) then 1 else 0) + (if HasDay(mask, 1) then 2 else 0)
               + (if HasDay(mask, 2) then 4 else 0) + (if HasDay(mask, 3) then 8 else 0)
               + (if HasDay(mask, 4) then 16 else 0) + (if HasDay(mask, 5) then 32 else 0)
               + (if HasDay(mask, 6) then 64 else 0)
  {
    hide HasDay, Pow2, BitAt;
    Powers();
    DayBit(mask, 0, 1);
    DayBit(mask, 1, 2);
    DayBit(mask, 2, 4);
    DayBit(mask, 3, 8);
    DayBit(mask, 4, 16);
    DayBit(mask, 5, 32);
    DayBit(mask, 6, 64);
    LowBits2(mask);
    LowBits4(mask);
    LowBits8(mask);
    LowBits16(mask);
    LowBits32(mask);
    LowBits64(mask);
    LowBits128(mask);
  }

  lemma Powers()
    ensures Pow2(0) == 1 && Pow2(1) == 2 && Pow2(2) == 4 && Pow2(3) == 8
    ensures Pow2(4) == 16 && Pow2(5) == 32 && Pow2(6) == 64
  {
    assert Pow2(2) == 4;
    assert Pow2(4) == 16;
  }

  /** The bit of value `p`. */
  function BitAt(x: int, p: nat): (b: int)
    requires p > 0
    ensures b == 0 || b == 1
  {
    x / p % 2
  }

  lemma DayBit(mask: int, d: nat, p: nat)
    requires Pow2(d) == p
    ensures p > 0 && (HasDay(mask, d) <==> BitAt(mask, p) == 1)
  {
  }

  lemma LowBits2(x: int)
    ensures x % 2 == BitAt(x, 1)
  {
  }

  lemma LowBits4(x: int)
    ensures x % 4 == x % 2 + BitAt(x, 2) * 2
  {
  }

  lemma LowBits8(x: int)
    ensures x % 8 == x % 4 + BitAt(x, 4) * 4
  {
  }

  lemma LowBits16(x: int)
    ensures x % 16 == x % 8 + BitAt(x, 8) * 8
  {
  }

  lemma LowBits32(x: int)
    ensures x % 32 == x % 16 + BitAt(x, 16) * 16
  {
  }

  lemma LowBits64(x: int)
    ensures x % 64 == x % 32 + BitAt(x, 32) * 32
  {
  }

  lemma LowBits128(x: int)
    ensures x % 128 == x % 64 + BitAt(x, 64) * 64
  {
  }

  function Item(e: AlarmDb, day: int, startDay: int): AlarmSec {
    AlarmSec(day, startDay * DAY + e.hour * 3600 + e.min * 60, e.id, e.vibrate, e.alert)
  }

  /** The days of the mask from `d` on. */
  function Weekly(e: AlarmDb, d: nat): seq<AlarmSec>
    requires d <= 7
    decreases 7 - d
  {
    if d == 7 then [] else (if HasDay(e.dayOfWeek, d) then [Item(e, d, d)] else []) + Weekly(e, d + 1)
  }

  /** The times of one entry of the database, when it is looked at `now`. */
  function Times(e: AlarmDb, now: Tm): seq<AlarmSec> {
    if !e.enable then []
    else if e.dayOfWeek == 0 then [Item(e, -1, CheckAlarmDay(now, e.hour * 3600 + e.min * 60))]
    else Weekly(e, 0)
  }

  /** All entries in order; `clock(i)` is what the clock shows at entry `i`. */
  function Schedule(db: seq<AlarmDb>, clock: nat -> Tm): seq<AlarmSec> {
    if db == [] then [] else Schedule(db[..|db| - 1], clock) + Times(db[|db| - 1], clock(|db| - 1))
  }

  /** add_ring_file_time: the time from the ring file, unless the list already has that moment. */
  function RingFileTime(list: seq<AlarmSec>, ring: Option<Tm>): seq<AlarmSec> {
    if ring.None? || Rings(list, SecsInWeek(ring.value)) then []
    else [AlarmSec(Weekday(ring.value), SecsInWeek(ring.value), 12, 1, "0")]
  }

  predicate Rings(list: seq<AlarmSec>, secs: int) {
    exists i :: 0 <= i < |list| && list[i].secs == secs
  }

  /** With it the list has the moment of the ring file, and it is added only if it was missing. */
  lemma RingFileOnce(list: seq<AlarmSec>, ring: Tm)
    ensures var added := RingFileTime(list, Some(ring));
            && (exists i :: 0 <= i < |list + added| && (list + added)[i].secs == SecsInWeek(ring))
            && |added| == if (exists i :: 0 <= i < |list| && list[i].secs == SecsInWeek(ring)) then 0 else 1
  {
    hide SecsInWeek;
    var added := RingFileTime(list, Some(ring));
    if added == [] {
      var i :| 0 <= i < |list| && list[i].secs == SecsInWeek(ring);
      assert (list + added)[i].secs == SecsInWeek(ring);
    } else {
      assert (list + added)[|list|] == added[0];
    }
  }

  /** These are the days of the mask, from `d` on and in order. */
  ghost predicate OnDays(items: seq<AlarmSec>, e: AlarmDb, d: nat) {
    && (forall x :: x in items ==> d <= x.day < 7 && HasDay(e.dayOfWeek, x.day) && x == Item(e, x.day, x.day))
    && (forall i, j :: 0 <= i < j < |items| ==> items[i].day < items[j].day)
    && (forall k: nat :: d <= k < 7 && HasDay(e.dayOfWeek, k) ==> Item(e, k, k) in items)
  }

  /** A weekly entry appears once for each day of its mask, in the order of the week. */
  lemma {:induction false} WeeklyIsTheMask(e: AlarmDb, d: nat)
    requires d <= 7
    ensures OnDays(Weekly(e, d), e, d)
    decreases 7 - d
  {
    hide HasDay, OnDays, Item;
    if d == 7 {
      NoDays(e);
    } else {
      WeeklyIsTheMask(e, d + 1);
      OneMoreDay(Weekly(e, d + 1), e, d);
    }
  }

  lemma NoDays(e: AlarmDb)
    ensures OnDays([], e, 7)
  {
  }

  lemma OneMoreDay(items: seq<AlarmSec>, e: AlarmDb, d: nat)
    requires d < 7 && OnDays(items, e, d + 1)
    ensures HasDay(e.dayOfWeek, d) ==> OnDays([Item(e, d, d)] + items, e, d)
    ensures !HasDay(e.dayOfWeek, d) ==> OnDays([] + items, e, d)
  {
    hide HasDay;
    if HasDay(e.dayOfWeek, d) {
      PrependDay(items, e, d);
    } else {
      assert [] + items == items;
    }
  }

  lemma PrependDay(items: seq<AlarmSec>, e: AlarmDb, d: nat)
    requires d < 7 && OnDays(items, e, d + 1) && HasDay(e.dayOfWeek, d)
    ensures OnDays([Item(e, d, d)] + items, e, d)
  {
    hide HasDay;
    var all := [Item(e, d, d)] + items;
    forall x | x in all ensures d <= x.day < 7 && HasDay(e.dayOfWeek, x.day) && x == Item(e, x.day, x.day) {
      assert x == Item(e, d, d) || x in items;
    }
    forall i, j | 0 <= i < j < |all| ensures all[i].day < all[j].day {
      assert all[j] == items[j - 1] && all[j] in items;
      if i > 0 {
        assert all[i] == items[i - 1];
      }
    }
    forall k: nat | d <= k < 7 && HasDay(e.dayOfWeek, k) ensures Item(e, k, k) in all {
      if k == d {
        assert all[0] == Item(e, k, k);
      } else {
        assert Item(e, k, k) in items;
      }
    }
  }

  predicate SaneEntry(e: AlarmDb) {
    0 <= e.hour < 24 && 0 <= e.min < 60
  }

  predicate WithinWeek(list: seq<AlarmSec>) {
    forall i :: 0 <= i < |list| ==> 0 <= list[i].secs < WEEK
  }

  /** No time lies before the week. */
  predicate FromMonday(list: seq<AlarmSec>) {
    forall i :: 0 <= i < |list| ==> list[i].secs >= 0
  }

  lemma WithinIsFromMonday(list: seq<AlarmSec>)
    requires WithinWeek(list)
    ensures FromMonday(list)
  {
  }

  lemma TimesWithinWeek(e: AlarmDb, now: Tm)
    requires SaneEntry(e) && IsTime(now)
    ensures WithinWeek(Times(e, now))
  {
    hide Weekly, HasDay;
    if e.enable && e.dayOfWeek != 0 {
      WeeklyIsTheMask(e, 0);
    }
  }

  lemma Together(a: seq<AlarmSec>, b: seq<AlarmSec>)
    requires WithinWeek(a) && WithinWeek(b)
    ensures WithinWeek(a + b)
  {
  }

  /** Everything that is scheduled lies within one week. */
  lemma {:induction false} ScheduleWithinWeek(db: seq<AlarmDb>, clock: nat -> Tm)
    requires forall i :: 0 <= i < |db| ==> SaneEntry(db[i])
    requires forall i :: IsTime(clock(i))
    ensures WithinWeek(Schedule(db, clock))
  {
    hide WithinWeek, Times, SaneEntry, IsTime;
    if db == [] {
      Nothing();
    } else {
      var n := |db| - 1;
      ScheduleWithinWeek(db[..n], clock);
      TimesWithinWeek(db[n], clock(n));
      Together(Schedule(db[..n], clock), Times(db[n], clock(n)));
    }
  }

  lemma Nothing()
    ensures WithinWeek([])
  {
  }

  lemma RingWithinWeek(list: seq<AlarmSec>, ring: Option<Tm>)
    requires WithinWeek(list) && (ring.Some? ==> IsTime(ring.value))
    ensures WithinWeek(list + RingFileTime(list, ring))
  {
    hide Rings;
    Together(list, RingFileTime(list, ring));
  }

  /**
    Is `x` a time of entry `e`, when it is looked at `now`? A weekly entry rings on each day of its mask; one
    without days rings once, when its time comes within a day, counted from forty seconds ago.
  */
  predicate Due(e: AlarmDb, now: Tm, x: AlarmSec) {
    && e.enable && x.dbId == e.id && x.vibrate == e.vibrate && x.alert == e.alert
    && x.secs % 86400 == e.hour * 3600 + e.min * 60
    && 0 <= x.secs < 604800
    && if e.dayOfWeek == 0 then x.day == -1 && (x.secs - (SecsInWeek(now) - 40)) % 604800 < 86400
       else x.day >= 0 && x.secs / 86400 == x.day && HasDay(e.dayOfWeek, x.day)
  }

  lemma DayAndTime(d: int, h: int, m: int, secs: int)
    requires 0 <= h < 24 && 0 <= m < 60
    ensures secs == d * DAY + h * 3600 + m * 60 <==> secs / 86400 == d && secs % 86400 == h * 3600 + m * 60
    ensures secs / 86400 == d ==> (0 <= d < 7 <==> 0 <= secs < 604800)
  {
  }

  lemma TimesAreDue(e: AlarmDb, now: Tm, x: AlarmSec)
    requires SaneEntry(e) && IsTime(now)
    ensures x in Times(e, now) <==> Due(e, now, x)
  {
    hide Weekly, HasDay, SecsInWeek;
    var d := x.secs / 86400;
    DayAndTime(d, e.hour, e.min, x.secs);
    if e.enable && e.dayOfWeek == 0 {
      var day := CheckAlarmDay(now, e.hour * 3600 + e.min * 60);
      DayAndTime(day, e.hour, e.min, x.secs);
      CheckAlarmDayIsNext(now, e.hour, e.min, day);
      if Due(e, now, x) {
        CheckAlarmDayIsNext(now, e.hour, e.min, d);
      }
    } else if e.enable {
      WeeklyIsTheMask(e, 0);
      DayAndTime(x.day, e.hour, e.min, x.secs);
    }
  }

  /** What is scheduled, exactly: the times of the enabled entries. */
  lemma {:induction false} ScheduledIff(db: seq<AlarmDb>, clock: nat -> Tm, x: AlarmSec)
    requires forall i :: 0 <= i < |db| ==> SaneEntry(db[i])
    requires forall i :: IsTime(clock(i))
    ensures x in Schedule(db, clock) <==> exists i :: 0 <= i < |db| && Due(db[i], clock(i), x)
  {
    hide Due, Times, SaneEntry, IsTime;
    if db != [] {
      var n := |db| - 1;
      ScheduledIff(db[..n], clock, x);
      TimesAreDue(db[n], clock(n), x);
      assert forall i :: 0 <= i < n ==> db[..n][i] == db[i];
      if x in Schedule(db, clock) && x !in Times(db[n], clock(n)) {
        var i :| 0 <= i < n && Due(db[..n][i], clock(i), x);
        assert Due(db[i], clock(i), x);
      }
    }
  }

  lemma WeeklyNext(e: AlarmDb, d: nat)
    requires d < 7
    ensures Weekly(e, d) == if HasDay(e.dayOfWeek, d) then [Item(e, d, d)] + Weekly(e, d + 1) else Weekly(e, d + 1)
  {
  }

  lemma WeeklyItem(e: AlarmDb, d: nat)
    ensures Item(e, d, d) == AlarmSec(d, d * 24 * 60 * 60 + e.hour * 60 * 60 + e.min * 60, e.id, e.vibrate, e.alert)
  {
  }

  lemma TimesOnce(e: AlarmDb, now: Tm)
    requires e.enable && e.dayOfWeek == 0
    ensures var secs := e.hour * 60 * 60 + e.min * 60;
            Times(e, now)
            == [AlarmSec(-1, secs + CheckAlarmDay(now, secs) * 24 * 60 * 60, e.id, e.vibrate, e.alert)]
  {
  }

  lemma TimesWeekly(e: AlarmDb, now: Tm)
    requires e.enable && e.dayOfWeek != 0
    ensures Times(e, now) == Weekly(e, 0)
  {
  }

  lemma WeeklyEnd(e: AlarmDb)
    ensures Weekly(e, 7) == []
  {
  }

  lemma LinkedNone(list: seq<AlarmSec>, last: int)
    requires -1 <= last < |list|
    ensures Linked(list, last, []) == list
  {
  }

  /** A list after items were linked behind the one at `last`; the first link drops what followed it. */
  function Linked(list: seq<AlarmSec>, last: int, items: seq<AlarmSec>): (r: seq<AlarmSec>)
    requires -1 <= last < |list|
    ensures last + |items| < |r|
  {
    if items == [] then list else list[..last + 1] + items
  }

  lemma LinkedNext(list: seq<AlarmSec>, last: int, items: seq<AlarmSec>, item: AlarmSec)
    requires -1 <= last < |list|
    ensures Linked(Linked(list, last, items), last + |items|, [item]) == Linked(list, last, items + [item])
  {
  }

  // ---- The nearest alarm ----

  /** How long until the alarm rings, round the week. */
  function Distance(x: AlarmSec, now: int): (d: int)
    ensures 0 <= d < WEEK
  {
    (x.secs - now) % WEEK
  }

  ghost predicate IsNearest(list: seq<AlarmSec>, now: int, k: nat)
    requires k < |list|
  {
    && (forall i :: 0 <= i < |list| ==> Distance(list[k], now) <= Distance(list[i], now))
    && (forall i :: 0 <= i < k ==> Distance(list[k], now) < Distance(list[i], now))
  }

  /** How far ahead get_latest_alarm_time takes an alarm to be: one that is over comes next week. */
  function Ahead(x: AlarmSec, now: int): int {
    if x.secs >= now then x.secs - now else x.secs - now + WEEK
  }

  /** `k` is the first of the entries from `from` to `to` that are least far ahead. */
  ghost predicate NearestIn(list: seq<AlarmSec>, now: int, from: nat, to: nat, k: nat)
    requires to <= |list|
  {
    && from <= k < to
    && (forall i :: from <= i < to ==> Ahead(list[k], now) <= Ahead(list[i], now))
    && (forall i :: from <= i < k ==> Ahead(list[k], now) < Ahead(list[i], now))
  }

  /** Within a week, that is the distance round the week. */
  lemma NearestWithinWeek(list: seq<AlarmSec>, now: int, k: nat)
    requires WithinWeek(list) && 0 <= now < WEEK && NearestIn(list, now, 0, |list|, k)
    ensures IsNearest(list, now, k) && Ahead(list[k], now) == Distance(list[k], now)
  {
    hide Ahead, Distance;
    forall i | 0 <= i < |list| ensures Ahead(list[i], now) == Distance(list[i], now) {
      DistanceIs(list[i], now);
    }
  }

  lemma DistanceIs(x: AlarmSec, now: int)
    requires 0 <= x.secs < WEEK && 0 <= now < WEEK
    ensures Ahead(x, now) == Distance(x, now)
  {
  }

  /** No alarm rings before the nearest one, and that one rings when the time ahead is over. */
  lemma NearestRingsFirst(list: seq<AlarmSec>, now: int, k: nat)
    requires WithinWeek(list) && 0 <= now < WEEK && NearestIn(list, now, 0, |list|, k)
    ensures 0 <= Ahead(list[k], now) < 604800
    ensures forall i, m :: 0 <= i < |list| && now <= m < now + Ahead(list[k], now) ==> !RingsAt(list[i], m)
    ensures RingsAt(list[k], now + Ahead(list[k], now))
  {
    forall i, m | 0 <= i < |list| && now <= m < now + Ahead(list[k], now)
      ensures !RingsAt(list[i], m)
    {
      assert Ahead(list[k], now) <= Ahead(list[i], now);
      RingsAhead(list[i], now, m);
      RingsAhead(list[k], now, m);
    }
    RingsAhead(list[k], now, now + Ahead(list[k], now));
  }

  /** Does the alarm ring at that moment of this or a later week? */
  predicate RingsAt(x: AlarmSec, moment: int) {
    moment % 604800 == x.secs
  }

  lemma RingsAhead(x: AlarmSec, now: int, m: int)
    requires 0 <= x.secs < WEEK && 0 <= now < WEEK
    ensures 0 <= Ahead(x, now) < WEEK
    ensures now <= m < now + WEEK ==> (RingsAt(x, m) <==> m == now + Ahead(x, now))
  {
  }

  /** Did the alarm ring within the last minute? */
  predicate JustRang(x: AlarmSec, now: int) {
    -60 <= x.secs - now < 0
  }

  /** The first of the first `n` entries that just rang, or -1. */
  function FirstRang(list: seq<AlarmSec>, now: int, n: nat): (q: int)
    requires n <= |list|
    ensures -1 <= q < n && (q >= 0 ==> -60 <= list[q].secs - now < 0)
    ensures forall i :: 0 <= i < (if q < 0 then n else q) ==> !(-60 <= list[i].secs - now < 0)
  {
    if n == 0 then -1
    else
      var q := FirstRang(list, now, n - 1);
      if q < 0 && JustRang(list[n - 1], now) then n - 1 else q
  }

  /** What the search of get_latest_alarm_time has found: the static flag, the least value and where it is. */
  datatype Search = Search(firstAlarm: bool, min: int, current: Option<nat>)

  /** One pass of its loop, for entry `p`. */
  function Look(s: Search, x: AlarmSec, p: nat, now: int): Search {
    var late := x.secs - now < 0;
    var next := late && (s.firstAlarm || x.secs - now < -60);
    var tmp := if next then x.secs - now + WEEK else x.secs - now;
    var flag := s.firstAlarm || (late && !next);
    if s.min == -1 || s.min > tmp then Search(flag, tmp, Some(p)) else Search(flag, s.min, s.current)
  }

  /** The first `p` entries were searched, starting with flag `before`. */
  ghost predicate Searched(list: seq<AlarmSec>, now: int, before: bool, p: nat, s: Search)
    requires p <= |list|
  {
    var q := if before then -1 else FirstRang(list, now, p);
    && s.firstAlarm == (before || q >= 0)
    && if p == 0 then s.min == -1
       else
         && s.current.Some?
         && if q < 0 then NearestIn(list, now, 0, p, s.current.value) && s.min == Ahead(list[s.current.value], now)
            else if list[q].secs - now == -1 && q < p - 1 then
              NearestIn(list, now, q + 1, p, s.current.value) && s.min == Ahead(list[s.current.value], now)
            else s.current.value == q && s.min == list[q].secs - now
  }

  lemma SearchedNext(list: seq<AlarmSec>, now: int, before: bool, p: nat, s: Search)
    requires p < |list| && Searched(list, now, before, p, s)
    requires 0 <= now < WEEK && FromMonday(list)
    ensures Searched(list, now, before, p + 1, Look(s, list[p], p, now))
  {
    hide NearestIn;
    var q := if before then -1 else FirstRang(list, now, p);
    if p > 0 && (q < 0 || (list[q].secs - now == -1 && q < p - 1)) {
      NearestNext(list, now, q + 1, p, s.current.value);
    }
    NearestOne(list, now, p);
  }

  lemma NearestOne(list: seq<AlarmSec>, now: int, p: nat)
    requires p < |list|
    ensures NearestIn(list, now, p, p + 1, p)
  {
  }

  lemma NearestNext(list: seq<AlarmSec>, now: int, from: nat, p: nat, k: nat)
    requires p < |list| && NearestIn(list, now, from, p, k)
    ensures k < p
    ensures if Ahead(list[k], now) > Ahead(list[p], now) then NearestIn(list, now, from, p + 1, p)
            else NearestIn(list, now, from, p + 1, k)
  {
    hide Ahead;
  }

  // ---- The program ----

  class Alarms {
    /** g_alarm_db_list, g_alarm_sec_list, and alarm_cur as a place in the latter. */
    var db: seq<AlarmDb>
    var list: seq<AlarmSec>
    var current: Option<nat>

    /** The static flags of get_latest_alarm_time. */
    var firstRing: bool
    var firstAlarm: bool

    /** The database entries that were disabled, in order. */
    ghost var disabled: seq<int>

    constructor (db: seq<AlarmDb>)
      ensures this.db == db && list == [] && current == None && !firstRing && !firstAlarm && disabled == []
    {
      this.db, list, current, firstRing, firstAlarm, disabled := db, [], None, false, false, [];
    }

    /** Links an item behind the one at `last` (-1: there is none); what followed that one is lost. */
    method Link(last: int, item: AlarmSec) returns (last': int)
      requires -1 <= last < |list|
      modifies this`list
      ensures list == Linked(old(list), last, [item]) && last' == last + 1
    {
      list := list[..last + 1] + [item];
      last' := last + 1;
    }

    /** The inner loop of creat_alarm_sec_list: the days of one enabled entry. */
    method AddTimes(e: AlarmDb, now: Tm, last: int) returns (last': int)
      requires e.enable && -1 <= last < |list|
      modifies this`list
      ensures list == Linked(old(list), last, Times(e, now)) && last' == last + |Times(e, now)|
    {
      hide HasDay, Linked, Weekly, Times, CheckAlarmDay, Item;
      last' := last;
      ghost var done: seq<AlarmSec> := [];
      var dayth := 0;
      LinkedNone(list, last);
      while dayth < 7
        invariant 0 <= dayth <= 7
        invariant list == Linked(old(list), last, done) && last' == last + |done| < |list|
        invariant if e.dayOfWeek == 0 then dayth == 0 && done == [] else done + Weekly(e, dayth) == Weekly(e, 0)
      {
        if e.dayOfWeek == 0 {
          TimesOnce(e, now);
          var secs := e.hour * 60 * 60 + e.min * 60;
          dayth := CheckAlarmDay(now, secs);
          secs := secs + dayth * 24 * 60 * 60;
          last' := Link(last', AlarmSec(-1, secs, e.id, e.vibrate, e.alert));
          return;
        }
        WeeklyNext(e, dayth);
        WeeklyItem(e, dayth);
        if HasDay(e.dayOfWeek, dayth) {
          var item := AlarmSec(dayth, dayth * 24 * 60 * 60 + e.hour * 60 * 60 + e.min * 60, e.id, e.vibrate, e.alert);
          LinkedNext(old(list), last, done, item);
          last' := Link(last', item);
          assert done + ([item] + Weekly(e, dayth + 1)) == done + [item] + Weekly(e, dayth + 1);
          done := done + [item];
        }
        dayth := dayth + 1;
      }
      WeeklyEnd(e);
      TimesWeekly(e, now);
      assert done == Weekly(e, 0);
    }

    /**
      creat_alarm_sec_list. The new items go behind the head of an old list, whose other items are
      lost; from an empty list, the list becomes the schedule and the time from the ring file.
    */
    method CreateAlarmSecList(clock: nat -> Tm, ring: Option<Tm>) returns (created: bool)
      modifies this`list
      ensures db == [] ==> !created && list == old(list)
      ensures db != [] ==> created == (list != [])
      ensures db != [] && old(list) == []
              ==> list == Schedule(db, clock) + RingFileTime(Schedule(db, clock), ring)
      ensures db != [] && old(list) != []
              ==> var linked := Linked(old(list), 0, Schedule(db, clock));
                  list == linked[..1 + |Schedule(db, clock)|] + RingFileTime(linked, ring)
    {
      hide Times, RingFileTime;
      if db == [] {
        return false;
      }
      var first := if list == [] then -1 else 0;
      var last, n := first, 0;
      while n < |db|
        invariant 0 <= n <= |db|
        invariant list == Linked(old(list), first, Schedule(db[..n], clock))
        invariant last == first + |Schedule(db[..n], clock)| < |list|
      {
        assert db[..n + 1][..n] == db[..n];
        ghost var done := Schedule(db[..n], clock);
        LinkedMore(old(list), first, done, Times(db[n], clock(n)));
        if db[n].enable {
          last := AddTimes(db[n], clock(n), last);
        } else {
          NotEnabled(db[n], clock(n));
        }
        n := n + 1;
      }
      assert db[..n] == db;
      if old(list) == [] {
        assert Linked(old(list), -1, Schedule(db, clock)) == Schedule(db, clock);
        assert list[..last + 1] == list;
      }
      list := list[..last + 1] + RingFileTime(list, ring);
      created := list != [];
    }

    /** Starting from an empty list and a sane database, the nearest alarm is found among what was scheduled. */
    method CreateAndFind(clock: nat -> Tm, ring: Option<Tm>, now: Tm) returns (min: int)
      requires db != [] && list == [] && IsTime(now)
      requires forall i :: 0 <= i < |db| ==> SaneEntry(db[i])
      requires forall i :: IsTime(clock(i))
      requires ring.Some? ==> IsTime(ring.value)
      modifies this
      ensures list == Schedule(db, clock) + RingFileTime(Schedule(db, clock), ring)
      ensures list == [] ==> min == -1
      ensures list != [] && (old(firstAlarm) || FirstRang(list, SecsInWeek(now), |list|) < 0)
              ==> current.Some? && current.value < |list| && IsNearest(list, SecsInWeek(now), current.value)
                  && min == Distance(list[current.value], SecsInWeek(now))
                  && RingsAt(list[current.value], SecsInWeek(now) + min)
                  && forall i, m :: 0 <= i < |list| && SecsInWeek(now) <= m < SecsInWeek(now) + min ==> !RingsAt(list[i], m)
    {
      hide RingsAt;
      hide NearestIn, IsNearest, Distance, Ahead, SecsInWeek, RemainSecs, FirstRang, FromMonday, WithinWeek;
      hide Schedule, RingFileTime, SaneEntry;
      ScheduleWithinWeek(db, clock);
      RingWithinWeek(Schedule(db, clock), ring);
      var created := CreateAlarmSecList(clock, ring);
      var fire;
      WithinIsFromMonday(list);
      min, fire := GetLatestAlarmTime(now);
      if list != [] && (old(firstAlarm) || FirstRang(list, SecsInWeek(now), |list|) < 0) {
        NearestWithinWeek(list, SecsInWeek(now), current.value);
        NearestRingsFirst(list, SecsInWeek(now), current.value);
      }
    }

    /**
      get_latest_alarm_time. `fire`: the place of the alarm that is due. Before the first call that
      meets an alarm less than a minute old (`q`), and for ever after it, the nearest alarm is found.
      On that call the late alarm itself is taken, unless it is just one second late and not the last
      entry: its -1 then passes for the mark of an empty search, and the nearest of the rest is found.
    */
    method GetLatestAlarmTime(now: Tm) returns (min: int, fire: Option<nat>)
      requires IsTime(now)
      modifies this`current, this`firstRing, this`firstAlarm, this`disabled
      ensures list == []
              ==> min == -1 && fire == None && current == old(current) && disabled == old(disabled)
                  && firstRing == old(firstRing) && firstAlarm == old(firstAlarm)
      ensures list != []
              ==> && current.Some? && current.value < |list|
                  && fire == (if min == 0 then current else None)
                  && disabled == old(disabled) + (if min == 0 && list[current.value].day == -1 then [list[current.value].dbId] else [])
      ensures list != [] && FromMonday(list)
              ==> var t := SecsInWeek(now);
                  var q := if old(firstAlarm) then -1 else FirstRang(list, t, |list|);
                  && firstAlarm == (old(firstAlarm) || q >= 0)
                  && if q >= 0 && (list[q].secs - t < -1 || q == |list| - 1) then
                       && current.value == q && firstRing
                       && min == if old(firstRing) then list[q].secs - t + RemainSecs(now) else 0
                     else
                       && NearestIn(list, t, q + 1, |list|, current.value) && firstRing == old(firstRing)
                       && min == Ahead(list[current.value], t)
    {
      hide NearestIn, SecsInWeek, RemainSecs, FirstRang, Searched, FromMonday, Ahead;
      min, fire := -1, None;
      var curTime := SecsInWeek(now);
      if list == [] {
        return;
      }
      ghost var before := firstAlarm;
      ghost var plain := FromMonday(list);
      SearchedNone(list, curTime, before, current);
      var p := 0;
      while p < |list|
        invariant 0 <= p <= |list|
        invariant disabled == old(disabled) && firstRing == old(firstRing)
        invariant if p == 0 then min == -1 else current.Some? && current.value < p
        invariant plain ==> Searched(list, curTime, before, p, Search(firstAlarm, min, current))
      {
        if plain {
          SearchedNext(list, curTime, before, p, Search(firstAlarm, min, current));
        }
        var tmp := list[p].secs - curTime;
        if tmp < 0 {
          if firstAlarm || tmp < -60 {
            tmp := tmp + 7 * 24 * 60 * 60;
          } else {
            firstAlarm := true;
          }
        }
        if min == -1 {
          min, current := tmp, Some(p);
        } else if min > tmp {
          min, current := tmp, Some(p);
        }
        p := p + 1;
      }
      if plain {
        SearchedAll(list, curTime, before, Search(firstAlarm, min, current));
      }
      if min < 0 {
        if firstRing {
          min := min + RemainSecs(now);
        } else {
          min, firstRing := 0, true;
        }
      }
      if min == 0 {
        fire := current;
        if list[current.value].day == -1 {
          disabled := disabled + [list[current.value].dbId];
        }
        return 0, fire;
      }
    }
  }

  lemma SearchedNone(list: seq<AlarmSec>, now: int, before: bool, current: Option<nat>)
    ensures Searched(list, now, before, 0, Search(before, -1, current))
  {
  }

  /** After the last entry; a negative value is left only by a late alarm. */
  lemma SearchedAll(list: seq<AlarmSec>, now: int, before: bool, s: Search)
    requires list != [] && Searched(list, now, before, |list|, s)
    requires 0 <= now < WEEK && FromMonday(list)
    ensures var q := if before then -1 else FirstRang(list, now, |list|);
            && s.firstAlarm == (before || q >= 0)
            && s.current.Some? && s.current.value < |list|
            && if q >= 0 && (list[q].secs - now < -1 || q == |list| - 1) then
                 s.current.value == q && s.min == list[q].secs - now < 0
               else
                 && NearestIn(list, now, q + 1, |list|, s.current.value)
                 && s.min == Ahead(list[s.current.value], now) >= 0
  {
  }

  lemma LinkedMore(list: seq<AlarmSec>, last: int, done: seq<AlarmSec>, items: seq<AlarmSec>)
    requires -1 <= last < |list|
    ensures Linked(Linked(list, last, done), last + |done|, items) == Linked(list, last, done + items)
  {
  }

  lemma NotEnabled(e: AlarmDb, now: Tm)
    requires !e.enable
    ensures Times(e, now) == []
  {
  }
}
