/** Integer model of the proleptic Gregorian calendar in UTC, as seen through
    the moment/Date setters the scheduler uses. As in JavaScript's Date, an
    instant stands for a time value (here in seconds since 1 January 2000): a
    setter computes a new time value from the instant's fields and the new
    field value, which may be out of range, and the fields are read back from
    that time value, so that excess carries into the coarser fields. Months
    are 0-based as in moment. Milliseconds are left out: no operation modelled
    here changes them. */
module Calendar {

  /** Month index 12 * year + month of January 2000, the origin of day counts. */
  const EpochMonth: int := 24000

  datatype Instant = Instant(year: int, month: int, date: int, hour: int, minute: int, second: int)

  predicate IsLeap(y: int) {
    y % 4 == 0 && (y % 100 != 0 || y % 400 == 0)
  }

  /** Length of month mo (0..11) of year y. */
  function DaysIn(y: int, mo: int): (n: int)
    ensures 28 <= n <= 31
  {
    if mo == 1 then (if IsLeap(y) then 29 else 28)
    else if mo == 3 || mo == 5 || mo == 8 || mo == 10 then 30
    else 31
  }

  /** Months are numbered continuously: m = 12 * year + month. */
  function MonthIndex(t: Instant): int {
    t.year * 12 + t.month
  }

  /** Length of the month with index m. */
  function DaysInMonth(m: int): (n: int)
    ensures 28 <= n <= 31
  {
    DaysIn(m / 12, m % 12)
  }

  /** Number of days from 1 January 2000 to the first day of month m. */
  function DaysBeforeMonth(m: int): int
    decreases if m >= EpochMonth then m - EpochMonth else EpochMonth - m
  {
    if m == EpochMonth then 0
    else if m > EpochMonth then DaysBeforeMonth(m - 1) + DaysInMonth(m - 1)
    else DaysBeforeMonth(m + 1) - DaysInMonth(m)
  }

  lemma DaysBeforeMonthStep(m: int)
    ensures DaysBeforeMonth(m + 1) == DaysBeforeMonth(m) + DaysInMonth(m)
  {
  }

  /** Proof helpers, plain integer arithmetic: the remainder of w by 12, 24
      or 60 is the s of any split w == q * n + s with s in 0..n-1. */
  lemma Remainder12(w: int, q: int, s: int)
    requires 0 <= s < 12 && w == q * 12 + s
    ensures w % 12 == s
  {
  }

  lemma Remainder24(w: int, q: int, s: int)
    requires 0 <= s < 24 && w == q * 24 + s
    ensures w % 24 == s
  {
  }

  lemma Remainder60(w: int, q: int, s: int)
    requires 0 <= s < 60 && w == q * 60 + s
    ensures w % 60 == s
  {
  }

  lemma MonthIndexSplit(y: int, mo: int)
    requires 0 <= mo < 12
    ensures (y * 12 + mo) / 12 == y && (y * 12 + mo) % 12 == mo
  {
  }

  predicate Valid(t: Instant) {
    && 0 <= t.month < 12
    && 1 <= t.date <= DaysIn(t.year, t.month)
    && 0 <= t.hour < 24
    && 0 <= t.minute < 60
    && 0 <= t.second < 60
  }

  /** Days since 1 January 2000 of the day holding t. */
  function DayNumber(t: Instant): int {
    DaysBeforeMonth(MonthIndex(t)) + t.date - 1
  }

  /** Seconds since 1 January 2000 00:00:00 UTC: the time value of t. */
  function Seconds(t: Instant): int {
    DayNumber(t) * 86400 + t.hour * 3600 + t.minute * 60 + t.second
  }

  /** Day d of month m, where d may lie outside the month: the day is counted
      on from the first day of m, into later or earlier months. */
  function NormDate(m: int, d: int): (r: (int, int))
    ensures 1 <= r.1 <= DaysInMonth(r.0)
    ensures DaysBeforeMonth(r.0) + r.1 == DaysBeforeMonth(m) + d
    decreases if d < 1 then 1 else 0, if d < 1 then -d else d
  {
    if d < 1 then
      DaysBeforeMonthStep(m - 1);
      NormDate(m - 1, d + DaysInMonth(m - 1))
    else if d > DaysInMonth(m) then
      DaysBeforeMonthStep(m);
      NormDate(m + 1, d - DaysInMonth(m))
    else (m, d)
  }

  /** The fields of the instant at time value x, computed by carrying seconds
      into minutes, minutes into hours, hours into days and days into months. */
  function Decompose(x: int): (r: Instant)
    ensures Valid(r) && Seconds(r) == x
  {
    var mi := x / 60;
    var h := mi / 60;
    var d := h / 24;
    var md := NormDate(EpochMonth, d + 1);
    assert DaysBeforeMonth(EpochMonth) == 0;
    var r := Instant(md.0 / 12, md.0 % 12, md.1, h % 24, mi % 60, x % 60);
    assert MonthIndex(r) == md.0;
    r
  }

  /** Distinct months hold disjoint ranges of day numbers. */
  lemma {:induction false} MonthsDisjoint(m: int, n: int, d: int, e: int)
    requires 1 <= d <= DaysInMonth(m) && 1 <= e <= DaysInMonth(n)
    requires DaysBeforeMonth(m) + d == DaysBeforeMonth(n) + e
    ensures m == n && d == e
  {
    if m < n {
      DaysBeforeMonthGrows(m + 1, n);
      DaysBeforeMonthStep(m);
      assert false;
    } else if n < m {
      DaysBeforeMonthGrows(n + 1, m);
      DaysBeforeMonthStep(n);
      assert false;
    }
  }

  lemma {:induction false} DaysBeforeMonthGrows(m: int, n: int)
    requires m <= n
    ensures DaysBeforeMonth(m) <= DaysBeforeMonth(n)
    decreases n - m
  {
    if m < n {
      DaysBeforeMonthStep(m);
      DaysBeforeMonthGrows(m + 1, n);
    }
  }

  /** Two valid instants with the same time value are the same instant. */
  lemma SecondsInjective(t: Instant, u: Instant)
    requires Valid(t) && Valid(u)
    requires Seconds(t) == Seconds(u)
    ensures t == u
  {
    var dt, du := DayNumber(t), DayNumber(u);
    assert dt * 86400 + t.hour * 3600 + t.minute * 60 + t.second == du * 86400 + u.hour * 3600 + u.minute * 60 + u.second;
    assert dt == du && t.hour == u.hour && t.minute == u.minute && t.second == u.second;
    MonthIndexSplit(t.year, t.month);
    MonthIndexSplit(u.year, u.month);
    MonthsDisjoint(MonthIndex(t), MonthIndex(u), t.date, u.date);
  }

  lemma SecondsInjectiveAll()
    ensures forall t, u :: Valid(t) && Valid(u) && Seconds(t) == Seconds(u) ==> t == u
  {
    forall t, u | Valid(t) && Valid(u) && Seconds(t) == Seconds(u) ensures t == u {
      SecondsInjective(t, u);
    }
  }

  /** The instant at time value x: the valid instant whose time value is x,
      which exists (Decompose builds it) and is unique. */
  function FromSeconds(x: int): (r: Instant)
    ensures Valid(r) && Seconds(r) == x
  {
    SecondsInjectiveAll();
    assert Valid(Decompose(x)) && Seconds(Decompose(x)) == x;
    var r :| Valid(r) && Seconds(r) == x;
    r
  }

  /** A valid instant's time value determines its day, hour, minute and second. */
  lemma SecondsSplit(r: Instant, day: int, h: int, mi: int, s: int)
    requires Valid(r)
    requires 0 <= h < 24 && 0 <= mi < 60 && 0 <= s < 60
    requires Seconds(r) == day * 86400 + h * 3600 + mi * 60 + s
    ensures DayNumber(r) == day && r.hour == h && r.minute == mi && r.second == s
  {
  }

  /** A valid instant's day number determines its year, month and day. */
  lemma DayNumberSplit(r: Instant, y: int, mo: int, d: int)
    requires Valid(r) && 0 <= mo < 12 && 1 <= d <= DaysIn(y, mo)
    requires DayNumber(r) == DaysBeforeMonth(y * 12 + mo) + d - 1
    ensures r.year == y && r.month == mo && r.date == d
  {
    var m, n := MonthIndex(r), y * 12 + mo;
    MonthIndexSplit(y, mo);
    MonthIndexSplit(r.year, r.month);
    assert DaysInMonth(n) == DaysIn(y, mo);
    assert DaysInMonth(m) == DaysIn(r.year, r.month);
    assert DaysBeforeMonth(m) + r.date == DaysBeforeMonth(n) + d;
    MonthsDisjoint(m, n, r.date, d);
  }

  // ---- moment's UTC setters -------------------------------------------------

  /** The seconds since midnight of t. */
  function TimeOfDay(t: Instant): int {
    t.hour * 3600 + t.minute * 60 + t.second
  }

  /** set("year", v): on 29 February of a leap year moment clamps the day to
      the length of February in year v; otherwise Date keeps month and day. */
  function SetYear(t: Instant, v: int): (r: Instant)
    requires Valid(t)
    ensures Valid(r) && r.year == v
    ensures r.month == t.month && r.hour == t.hour && r.minute == t.minute && r.second == t.second
    ensures t.date <= DaysIn(v, t.month) ==> r.date == t.date
    ensures t.date > DaysIn(v, t.month) ==> r.date == DaysIn(v, t.month)
  {
    var d := if IsLeap(t.year) && t.month == 1 && t.date == 29 then DaysIn(v, 1) else t.date;
    t.(year := v, date := d)
  }

  /** set("month", v): moment first clamps the day to the length of the target
      month, then Date counts v outside 0..11 on into later or earlier years. */
  function SetMonth(t: Instant, v: int): (r: Instant)
    requires Valid(t)
    ensures Valid(r) && MonthIndex(r) == t.year * 12 + v
    ensures 0 <= v < 12 ==> r.year == t.year && r.month == v
    ensures r.date == Min(t.date, DaysIn(r.year, r.month))
    ensures r.hour == t.hour && r.minute == t.minute && r.second == t.second
  {
    var target := t.year * 12 + v;
    var d := Min(t.date, DaysInMonth(target));
    var r := FromSeconds((DaysBeforeMonth(target) + d - 1) * 86400 + TimeOfDay(t));
    SecondsSplit(r, DaysBeforeMonth(target) + d - 1, t.hour, t.minute, t.second);
    MonthIndexSplit(t.year + v / 12, v % 12);
    assert target == (t.year + v / 12) * 12 + v % 12;
    DayNumberSplit(r, t.year + v / 12, v % 12, d);
    r
  }

  function Min(a: int, b: int): int {
    if a < b then a else b
  }

  /** set("date", v): the day is counted on from the first of t's month. */
  function SetDate(t: Instant, v: int): (r: Instant)
    requires Valid(t)
    ensures Valid(r) && r.hour == t.hour && r.minute == t.minute && r.second == t.second
    ensures DayNumber(r) == DaysBeforeMonth(MonthIndex(t)) + v - 1
  {
    var r := FromSeconds((DaysBeforeMonth(MonthIndex(t)) + v - 1) * 86400 + TimeOfDay(t));
    SecondsSplit(r, DaysBeforeMonth(MonthIndex(t)) + v - 1, t.hour, t.minute, t.second);
    r
  }

  /** A day inside t's month is stored as it is. */
  lemma SetDateInRange(t: Instant, v: int)
    requires Valid(t) && 1 <= v <= DaysIn(t.year, t.month)
    ensures SetDate(t, v) == t.(date := v)
  {
    DayNumberSplit(SetDate(t, v), t.year, t.month, v);
  }

  /** set("hour", v): hours counted on from the start of t's day. */
  function SetHour(t: Instant, v: int): (r: Instant)
    requires Valid(t)
    ensures Valid(r) && r.minute == t.minute && r.second == t.second
    ensures DayNumber(r) * 24 + r.hour == DayNumber(t) * 24 + v
  {
    var r := FromSeconds(DayNumber(t) * 86400 + v * 3600 + t.minute * 60 + t.second);
    SecondsSplit(r, DayNumber(t) + v / 24, v % 24, t.minute, t.second);
    r
  }

  /** In range, an hour is stored as it is. */
  lemma SetHourInRange(t: Instant, v: int)
    requires Valid(t) && 0 <= v < 24
    ensures SetHour(t, v) == t.(hour := v)
  {
    assert Seconds(t.(hour := v)) == Seconds(t) + (v - t.hour) * 3600;
    SecondsInjective(SetHour(t, v), t.(hour := v));
  }

  /** set("minute", v): minutes counted on from the start of t's hour. */
  function SetMinute(t: Instant, v: int): (r: Instant)
    requires Valid(t)
    ensures Valid(r) && r.second == t.second
    ensures (DayNumber(r) * 24 + r.hour) * 60 + r.minute == (DayNumber(t) * 24 + t.hour) * 60 + v
  {
    var r := FromSeconds(DayNumber(t) * 86400 + t.hour * 3600 + v * 60 + t.second);
    var hours := DayNumber(t) * 24 + t.hour + v / 60;
    SecondsSplit(r, hours / 24, hours % 24, v % 60, t.second);
    r
  }

  /** In range, a minute is stored as it is. */
  lemma SetMinuteInRange(t: Instant, v: int)
    requires Valid(t) && 0 <= v < 60
    ensures SetMinute(t, v) == t.(minute := v)
  {
    assert Seconds(t.(minute := v)) == Seconds(t) + (v - t.minute) * 60;
    SecondsInjective(SetMinute(t, v), t.(minute := v));
  }

  /** set("second", v): seconds counted on from the start of t's minute. */
  function SetSecond(t: Instant, v: int): (r: Instant)
    requires Valid(t)
    ensures Valid(r) && Seconds(r) == Seconds(t) - t.second + v
  {
    var r := FromSeconds(DayNumber(t) * 86400 + t.hour * 3600 + t.minute * 60 + v);
    var minutes := (DayNumber(t) * 24 + t.hour) * 60 + t.minute + v / 60;
    SecondsSplit(r, minutes / 60 / 24, minutes / 60 % 24, minutes % 60, v % 60);
    r
  }

  /** In range, a second is stored as it is. */
  lemma SetSecondInRange(t: Instant, v: int)
    requires Valid(t) && 0 <= v < 60
    ensures SetSecond(t, v) == t.(second := v)
  {
    assert Seconds(t.(second := v)) == Seconds(t) + v - t.second;
    SecondsInjective(SetSecond(t, v), t.(second := v));
  }

  /** add(n, "minutes"): the time value grows by 60 * n seconds; the fields
      other than the minute move only when the minutes overflow. */
  function AddMinutes(t: Instant, n: int): (r: Instant)
    requires Valid(t)
    ensures Valid(r) && Seconds(r) == Seconds(t) + 60 * n && r.second == t.second
  {
    var r := FromSeconds(Seconds(t) + 60 * n);
    var hours := DayNumber(t) * 24 + t.hour + (t.minute + n) / 60;
    SecondsSplit(r, hours / 24, hours % 24, (t.minute + n) % 60, t.second);
    r
  }
}
