/** The local-to-UTC recurrence translator: a per-field recurrence spec is
    turned into integer lists, a reference instant t0 is built from the first
    value of each field, t0 is shifted by the machine offset plus the target
    offset to give t1, and every value of a field is moved by the difference
    of t0 and t1 truncated to that field, wrapping through the calendar. */
module Schedule {
  import opened Wrappers
  import opened Calendar

  datatype Field = Year | Month | Date | Hour | Minute | Second | DayOfWeek

  /** The order in which the fields of the values object are visited. */
  const AllFields: seq<Field> := [Year, Month, Date, Hour, Minute, Second, DayOfWeek]

  function FieldIndex(f: Field): (i: nat)
    ensures i < |AllFields| && AllFields[i] == f
  {
    match f
    case Year => 0
    case Month => 1
    case Date => 2
    case Hour => 3
    case Minute => 4
    case Second => 5
    case DayOfWeek => 6
  }

  /** A recurrence definition: an exact number, an array owned by the caller,
      or a TimeRange(start, end, step), whose step defaults to 1. */
  datatype RecurrenceDef = Exact(n: int) | List(arr: array<int>) | TimeRange(start: int, end: int, step: int)

  /** The job spec object; its fields map holds the fields that are defined. */
  class JobSpec {
    var fields: map<Field, RecurrenceDef>

    constructor (fields: map<Field, RecurrenceDef>)
      ensures this.fields == fields
    {
      this.fields := fields;
    }
  }

  // ---- valueToArray ---------------------------------------------------------

  /** The range loop ends: either it does not run at all or the offset grows. */
  predicate Terminates(d: RecurrenceDef) {
    d.TimeRange? ==> d.end <= 0 || d.step > 0
  }

  /** The values start + i for i = from, from + step, ... while i < end. */
  function RangeFrom(start: int, from: int, end: int, step: int): seq<int>
    requires from >= end || step > 0
    decreases end - from
  {
    if from < end then [start + from] + RangeFrom(start, from + step, end, step) else []
  }

  function RangeValues(start: int, end: int, step: int): seq<int>
    requires end <= 0 || step > 0
  {
    RangeFrom(start, 0, end, step)
  }

  /** The integer list a defined field stands for. */
  function DefValues(d: RecurrenceDef): seq<int>
    requires Terminates(d)
    reads if d.List? then {d.arr} else {}
  {
    match d
    case Exact(n) => [n]
    case List(a) => a[..]
    case TimeRange(start, end, step) => RangeValues(start, end, step)
  }

  /** valueToArray: undefined gives a new empty array, a number a new
      one-element array, a range a new array of its values, and an array is
      returned itself, not copied. */
  method ValueToArray(value: Option<RecurrenceDef>) returns (r: array<int>)
    requires value.Some? ==> Terminates(value.value)
    ensures value.Some? && value.value.List? ==> r == value.value.arr
    ensures !(value.Some? && value.value.List?) ==> fresh(r)
    ensures r[..] == if value.Some? then DefValues(value.value) else []
  {
    var result: seq<int> := [];
    if value.None? {
      r := new int[0];
      return;
    }
    match value.value
    case Exact(n) =>
      r := new int[1];
      r[0] := n;
    case List(a) =>
      r := a;
    case TimeRange(start, end, step) =>
      var i := 0;
      while i < end
        invariant i >= end || step > 0
        invariant result + RangeFrom(start, i, end, step) == RangeValues(start, end, step)
        decreases end - i
      {
        result := result + [start + i];
        i := i + step;
      }
      r := new int[|result|](k requires 0 <= k < |result| => result[k]);
      assert r[..] == result;
  }

  lemma {:induction false} RangeFromShape(start: int, from: int, end: int, step: int)
    requires from >= end || step > 0
    ensures var r := RangeFrom(start, from, end, step);
      && (|r| == 0 <==> from >= end)
      && (|r| > 0 ==> r[0] == start + from && r[|r| - 1] - start < end <= r[|r| - 1] - start + step)
      && forall k :: 0 <= k < |r| - 1 ==> r[k + 1] == r[k] + step
    decreases end - from
  {
    if from < end {
      RangeFromShape(start, from + step, end, step);
    }
  }

  /** A TimeRange yields start, start + step, ... : the bound end applies to
      the offset from start, not to the value, and the list is empty exactly
      when end <= 0. */
  lemma RangeShape(start: int, end: int, step: int)
    requires end <= 0 || step > 0
    ensures var r := RangeValues(start, end, step);
      && (|r| == 0 <==> end <= 0)
      && (|r| > 0 ==> r[0] == start && r[|r| - 1] - start < end <= r[|r| - 1] - start + step)
      && forall k :: 0 <= k < |r| - 1 ==> r[k + 1] == r[k] + step
  {
    RangeFromShape(start, 0, end, step);
  }

  lemma {:induction false} RangeFromUnit(start: int, from: int, end: int)
    ensures var r := RangeFrom(start, from, end, 1);
      && |r| == (if from < end then end - from else 0)
      && forall k :: 0 <= k < |r| ==> r[k] == start + from + k
    decreases end - from
  {
    if from < end {
      RangeFromUnit(start, from + 1, end);
    }
  }

  /** With the default step 1 a TimeRange(start, end) holds the end values
      start, start + 1, ..., start + end - 1. */
  lemma RangeUnitStep(start: int, end: int)
    ensures var r := RangeValues(start, end, 1);
      && |r| == (if end > 0 then end else 0)
      && forall k :: 0 <= k < |r| ==> r[k] == start + k
  {
    RangeFromUnit(start, 0, end);
  }

  /** TimeRange(1, 5), the working days of the week, stands for 1..5. */
  lemma WorkDaysRange()
    ensures RangeValues(1, 5, 1) == [1, 2, 3, 4, 5]
  {
    RangeUnitStep(1, 5);
  }

  // ---- setting and reading one field of an instant ----------------------------

  function Set(f: Field, t: Instant, v: int): (r: Instant)
    requires f != DayOfWeek && Valid(t)
    ensures Valid(r)
  {
    match f
    case Year => SetYear(t, v)
    case Month => SetMonth(t, v)
    case Date => SetDate(t, v)
    case Hour => SetHour(t, v)
    case Minute => SetMinute(t, v)
    case Second => SetSecond(t, v)
  }

  function Get(f: Field, t: Instant): int
    requires f != DayOfWeek
  {
    match f
    case Year => t.year
    case Month => t.month
    case Date => t.date
    case Hour => t.hour
    case Minute => t.minute
    case Second => t.second
  }

  // ---- t0 ---------------------------------------------------------------------

  /** moment's set with the first value of a list: an empty list gives
      undefined, which makes the setter a getter and leaves t as it is. */
  function SetFirst(f: Field, t: Instant, vs: seq<int>): (r: Instant)
    requires f != DayOfWeek && Valid(t)
    ensures Valid(r)
  {
    if |vs| > 0 then Set(f, t, vs[0]) else t
  }

  /** Sets field f of t to the first value given for f, if f is defined. */
  function SetIfGiven(t: Instant, vals: map<Field, seq<int>>, f: Field): (r: Instant)
    requires f != DayOfWeek && Valid(t)
    ensures Valid(r)
  {
    if f in vals then SetFirst(f, t, vals[f]) else t
  }

  /** t0: the current UTC instant with the first value of every defined field
      set on it, from year down to second; dayOfWeek is not among them. */
  function T0(now: Instant, vals: map<Field, seq<int>>): (t: Instant)
    requires Valid(now)
    ensures Valid(t)
  {
    var t := SetIfGiven(now, vals, Year);
    var t := SetIfGiven(t, vals, Month);
    var t := SetIfGiven(t, vals, Date);
    var t := SetIfGiven(t, vals, Hour);
    var t := SetIfGiven(t, vals, Minute);
    SetIfGiven(t, vals, Second)
  }

  /** The value field f takes in t0: its first value, or the current one. */
  function FirstOr(vals: map<Field, seq<int>>, f: Field, current: int): int {
    if f in vals && |vals[f]| > 0 then vals[f][0] else current
  }

  predicate InFieldRange(f: Field, v: int) {
    match f
    case Year => true
    case Month => 0 <= v < 12
    case Date => 1 <= v <= 31
    case Hour => 0 <= v < 24
    case Minute | Second => 0 <= v < 60
    case DayOfWeek => true
  }

  /** When the first values are in range (and the day fits the resulting
      month), t0 carries them unchanged; fields not given keep the current
      instant's values, and dayOfWeek has no say. The one case left out is a
      current day of 29 February with no date given: setting a year clamps
      it to the 28th before the month is set. */
  lemma T0TakesFirstValues(now: Instant, vals: map<Field, seq<int>>)
    requires Valid(now)
    requires forall f :: f in vals && |vals[f]| > 0 ==> InFieldRange(f, vals[f][0])
    requires FirstOr(vals, Date, now.date) <= DaysIn(FirstOr(vals, Year, now.year), FirstOr(vals, Month, now.month))
    requires !(Date in vals && |vals[Date]| > 0) ==> !(now.month == 1 && now.date == 29)
    ensures T0(now, vals) == Instant(FirstOr(vals, Year, now.year), FirstOr(vals, Month, now.month),
                                     FirstOr(vals, Date, now.date), FirstOr(vals, Hour, now.hour),
                                     FirstOr(vals, Minute, now.minute), FirstOr(vals, Second, now.second))
  {
    var t1 := SetIfGiven(now, vals, Year);
    var t2 := SetIfGiven(t1, vals, Month);
    assert t2.year == FirstOr(vals, Year, now.year) && t2.month == FirstOr(vals, Month, now.month);
    assert t2.hour == now.hour && t2.minute == now.minute && t2.second == now.second;
    assert FirstOr(vals, Date, t2.date) == FirstOr(vals, Date, now.date);
    GivenDate(t2, vals);
    var t3 := SetIfGiven(t2, vals, Date);
    GivenHour(t3, vals);
    var t4 := SetIfGiven(t3, vals, Hour);
    GivenMinute(t4, vals);
    var t5 := SetIfGiven(t4, vals, Minute);
    GivenSecond(t5, vals);
  }

  lemma GivenDate(t: Instant, vals: map<Field, seq<int>>)
    requires Valid(t) && 1 <= FirstOr(vals, Date, t.date) <= DaysIn(t.year, t.month)
    ensures SetIfGiven(t, vals, Date) == t.(date := FirstOr(vals, Date, t.date))
  {
    if Date in vals && |vals[Date]| > 0 {
      SetDateInRange(t, vals[Date][0]);
    }
  }

  lemma GivenHour(t: Instant, vals: map<Field, seq<int>>)
    requires Valid(t) && 0 <= FirstOr(vals, Hour, t.hour) < 24
    ensures SetIfGiven(t, vals, Hour) == t.(hour := FirstOr(vals, Hour, t.hour))
  {
    if Hour in vals && |vals[Hour]| > 0 {
      SetHourInRange(t, vals[Hour][0]);
    }
  }

  lemma GivenMinute(t: Instant, vals: map<Field, seq<int>>)
    requires Valid(t) && 0 <= FirstOr(vals, Minute, t.minute) < 60
    ensures SetIfGiven(t, vals, Minute) == t.(minute := FirstOr(vals, Minute, t.minute))
  {
    if Minute in vals && |vals[Minute]| > 0 {
      SetMinuteInRange(t, vals[Minute][0]);
    }
  }

  lemma GivenSecond(t: Instant, vals: map<Field, seq<int>>)
    requires Valid(t) && 0 <= FirstOr(vals, Second, t.second) < 60
    ensures SetIfGiven(t, vals, Second) == t.(second := FirstOr(vals, Second, t.second))
  {
    if Second in vals && |vals[Second]| > 0 {
      SetSecondInRange(t, vals[Second][0]);
    }
  }

  // ---- the diffs table ------------------------------------------------------

  function StartOfYear(t: Instant): Instant { t.(month := 0, date := 1, hour := 0, minute := 0, second := 0) }
  function StartOfMonth(t: Instant): Instant { t.(date := 1, hour := 0, minute := 0, second := 0) }
  function StartOfDay(t: Instant): Instant { t.(hour := 0, minute := 0, second := 0) }
  function StartOfHour(t: Instant): Instant { t.(minute := 0, second := 0) }
  /** Only the minute is kept: the rest is set to 1 January 2000, 00:xx:00. */
  function MinuteOnly(t: Instant): Instant { t.(year := 2000, month := 0, date := 1, hour := 0, second := 0) }
  /** Only the second is kept: the rest is set to 1 January 2000, 00:00:xx. */
  function SecondOnly(t: Instant): Instant { t.(year := 2000, month := 0, date := 1, hour := 0, minute := 0) }

  /** How much field f is moved by going from t0 to t1: the difference of the
      two instants after both are truncated to the field's boundary, in the
      field's unit. dayOfWeek is measured like the date, in days. */
  function Diff(f: Field, t0: Instant, t1: Instant): int {
    match f
    case Year => (MonthIndex(StartOfYear(t1)) - MonthIndex(StartOfYear(t0))) / 12
    case Month => MonthIndex(StartOfMonth(t1)) - MonthIndex(StartOfMonth(t0))
    case Date | DayOfWeek => (Seconds(StartOfDay(t1)) - Seconds(StartOfDay(t0))) / 86400
    case Hour => (Seconds(StartOfHour(t1)) - Seconds(StartOfHour(t0))) / 3600
    case Minute => (Seconds(MinuteOnly(t1)) - Seconds(MinuteOnly(t0))) / 60
    case Second => Seconds(SecondOnly(t1)) - Seconds(SecondOnly(t0))
  }

  /** The instant n whole hours later keeps the minute and second and moves
      the hour count by n. */
  lemma WholeHourInstant(t0: Instant, n: int)
    requires Valid(t0)
    ensures var t1 := AddMinutes(t0, 60 * n);
      && t1.minute == t0.minute && t1.second == t0.second
      && DayNumber(t1) * 24 + t1.hour == DayNumber(t0) * 24 + t0.hour + n
  {
    var t1 := AddMinutes(t0, 60 * n);
    var hours := DayNumber(t0) * 24 + t0.hour + n;
    assert Seconds(t1) == hours * 3600 + t0.minute * 60 + t0.second;
    SecondsSplit(t1, hours / 24, hours % 24, t0.minute, t0.second);
  }

  /** For a shift by n whole hours: the hour moves by n, minutes and seconds do
      not move, and the date (and with it the day of the week) moves by the
      number of midnights crossed, (hour + n) / 24 rounded down. */
  lemma WholeHourShift(t0: Instant, n: int)
    requires Valid(t0)
    ensures var t1 := AddMinutes(t0, 60 * n);
      && Diff(Hour, t0, t1) == n
      && Diff(Minute, t0, t1) == 0
      && Diff(Second, t0, t1) == 0
      && Diff(Date, t0, t1) == (t0.hour + n) / 24
      && Diff(DayOfWeek, t0, t1) == Diff(Date, t0, t1)
  {
    var t1 := AddMinutes(t0, 60 * n);
    WholeHourInstant(t0, n);
    assert DayNumber(t1) == DayNumber(t0) + (t0.hour + n) / 24;
    assert Seconds(StartOfHour(t1)) - Seconds(StartOfHour(t0)) == n * 3600;
    assert Seconds(StartOfDay(t1)) - Seconds(StartOfDay(t0)) == (DayNumber(t1) - DayNumber(t0)) * 86400;
  }

  /** The day counts of the first of December 2000 and of January 2001:
      2000 is a leap year of 366 days. */
  lemma Days2000()
    ensures DaysBeforeMonth(24011) == 335 && DaysBeforeMonth(24012) == 366
  {
    assert DaysBeforeMonth(24001) == 31;
    assert DaysBeforeMonth(24002) == 60;
    assert DaysBeforeMonth(24003) == 91;
    assert DaysBeforeMonth(24004) == 121;
    assert DaysBeforeMonth(24005) == 152;
    assert DaysBeforeMonth(24006) == 182;
    assert DaysBeforeMonth(24007) == 213;
    assert DaysBeforeMonth(24008) == 244;
    assert DaysBeforeMonth(24009) == 274;
    assert DaysBeforeMonth(24010) == 305;
  }

  /** One hour after 31 December 2000, 23:30 it is 1 January 2001, 00:30. */
  lemma YearEndInstant()
    ensures AddMinutes(Instant(2000, 11, 31, 23, 30, 0), 60) == Instant(2001, 0, 1, 0, 30, 0)
  {
    var t0 := Instant(2000, 11, 31, 23, 30, 0);
    var u := Instant(2001, 0, 1, 0, 30, 0);
    Days2000();
    assert DayNumber(t0) == 365 && DayNumber(u) == 366;
    SecondsInjective(AddMinutes(t0, 60), u);
  }

  /** The year and month rows of the table at a year's end: across the
      midnight of 31 December 2000 year, month, date and hour each move by
      one, and a scheduled month 11 (December) becomes month 0 (January). */
  lemma YearEndShift()
    ensures var t0 := Instant(2000, 11, 31, 23, 30, 0);
      var t1 := AddMinutes(t0, 60);
      && Diff(Year, t0, t1) == 1 && Diff(Month, t0, t1) == 1
      && Diff(Date, t0, t1) == 1 && Diff(Hour, t0, t1) == 1
      && Adjusted(Month, [11], t0, Diff(Month, t0, t1)).0 == [0]
  {
    var t0 := Instant(2000, 11, 31, 23, 30, 0);
    YearEndInstant();
    var t1 := Instant(2001, 0, 1, 0, 30, 0);
    Days2000();
    assert Seconds(StartOfDay(t1)) - Seconds(StartOfDay(t0)) == 86400;
    assert Seconds(StartOfHour(t1)) - Seconds(StartOfHour(t0)) == 3600;
    assert Adjusted(Month, [11], t0, 1).0 == [Get(Month, SetMonth(t0, 12))] by {
      assert [11][..0] == [];
    }
    MonthReadBack(t0, 12);
  }

  // ---- the per-field adjustment -----------------------------------------------

  /** JavaScript's %: the remainder of truncating division, with the sign of a. */
  function JsRem(a: int, b: int): (r: int)
    requires b > 0
    ensures -b < r < b
    ensures r == 0 || (r < 0 <==> a < 0)
  {
    if a >= 0 then a % b else -((-a) % b)
  }

  /** The JavaScript remainder by 7 differs from a by a multiple of 7: it
      names the same weekday, but in -6..-1 for negative a. */
  lemma JsRemWeekday(a: int)
    ensures (a - JsRem(a, 7)) % 7 == 0
    ensures a < 0 && JsRem(a, 7) != 0 ==> JsRem(a, 7) == a % 7 - 7
  {
    if a < 0 {
      var q := (-a) / 7;
      assert -a == 7 * q + (-a) % 7;
    }
  }

  /** The adjusted values of field f, with the copy t2 of t0 that the loop
      threads through them: each value v is replaced by field f read back after
      setting v + diff on t2, which keeps the carries of earlier values; a
      dayOfWeek value becomes (v + diff) % 7. */
  function Adjusted(f: Field, vs: seq<int>, t0: Instant, diff: int): (r: (seq<int>, Instant))
    requires Valid(t0)
    ensures |r.0| == |vs| && Valid(r.1)
    decreases |vs|
  {
    if vs == [] then ([], t0)
    else
      var prev := Adjusted(f, vs[..|vs| - 1], t0, diff);
      var time := vs[|vs| - 1];
      if f == DayOfWeek then (prev.0 + [JsRem(time + diff, 7)], prev.1)
      else
        var t2 := Set(f, prev.1, time + diff);
        (prev.0 + [Get(f, t2)], t2)
  }

  /** What reading field f back after setting it to w gives: years come back
      as set, months, hours, minutes and seconds wrap into their range, and
      dates land in 1..31. */
  predicate ReadsBackAs(f: Field, w: int, out: int) {
    match f
    case Year => out == w
    case Month => out == w % 12
    case Date => 1 <= out <= 31
    case Hour => out == w % 24
    case Minute | Second => out == w % 60
    case DayOfWeek => true
  }

  lemma ReadBack(f: Field, t: Instant, w: int)
    requires Valid(t) && f != DayOfWeek
    ensures ReadsBackAs(f, w, Get(f, Set(f, t, w)))
  {
    match f
    case Year =>
    case Month => MonthReadBack(t, w);
    case Date =>
    case Hour => HourReadBack(t, w);
    case Minute => MinuteReadBack(t, w);
    case Second => SecondReadBack(t, w);
  }

  lemma MonthReadBack(t: Instant, w: int)
    requires Valid(t)
    ensures SetMonth(t, w).month == w % 12
  {
    var r := SetMonth(t, w);
    assert w == (r.year - t.year) * 12 + r.month;
    Remainder12(w, r.year - t.year, r.month);
  }

  lemma HourReadBack(t: Instant, w: int)
    requires Valid(t)
    ensures SetHour(t, w).hour == w % 24
  {
    var r := SetHour(t, w);
    assert w == (DayNumber(r) - DayNumber(t)) * 24 + r.hour;
    Remainder24(w, DayNumber(r) - DayNumber(t), r.hour);
  }

  lemma MinuteReadBack(t: Instant, w: int)
    requires Valid(t)
    ensures SetMinute(t, w).minute == w % 60
  {
    var r := SetMinute(t, w);
    var q := (DayNumber(r) - DayNumber(t)) * 24 + r.hour - t.hour;
    assert w == q * 60 + r.minute;
    Remainder60(w, q, r.minute);
  }

  lemma SecondReadBack(t: Instant, w: int)
    requires Valid(t)
    ensures SetSecond(t, w).second == w % 60
  {
    var r := SetSecond(t, w);
    var q := ((DayNumber(r) - DayNumber(t)) * 24 + r.hour - t.hour) * 60 + r.minute - t.minute;
    assert w == q * 60 + r.second;
    Remainder60(w, q, r.second);
  }

  /** What one adjusted value is: a dayOfWeek value becomes the JavaScript
      remainder of v + diff by 7, any other value reads back as v + diff. */
  predicate AdjustedAs(f: Field, v: int, diff: int, out: int) {
    if f == DayOfWeek then out == JsRem(v + diff, 7) else ReadsBackAs(f, v + diff, out)
  }

  lemma {:induction false} AdjustedValue(f: Field, vs: seq<int>, t0: Instant, diff: int, k: int)
    requires Valid(t0) && 0 <= k < |vs|
    ensures AdjustedAs(f, vs[k], diff, Adjusted(f, vs, t0, diff).0[k])
    decreases |vs|
  {
    var init := vs[..|vs| - 1];
    var prev := Adjusted(f, init, t0, diff);
    if k < |vs| - 1 {
      AdjustedValue(f, init, t0, diff, k);
      assert Adjusted(f, vs, t0, diff).0[k] == prev.0[k];
    } else if f != DayOfWeek {
      ReadBack(f, prev.1, vs[k] + diff);
    }
  }

  /** A date value whose shifted day is 1..28 fits every month, so it comes
      back unchanged whatever month the earlier values carried t2 into. */
  lemma {:induction false} AdjustedDateFits(vs: seq<int>, t0: Instant, diff: int, k: int)
    requires Valid(t0) && 0 <= k < |vs| && 1 <= vs[k] + diff <= 28
    ensures Adjusted(Date, vs, t0, diff).0[k] == vs[k] + diff
    decreases |vs|
  {
    var init := vs[..|vs| - 1];
    var prev := Adjusted(Date, init, t0, diff);
    if k < |vs| - 1 {
      AdjustedDateFits(init, t0, diff, k);
      assert Adjusted(Date, vs, t0, diff).0[k] == prev.0[k];
    } else {
      SetDateInRange(prev.1, vs[k] + diff);
    }
  }

  /** With a whole-hour shift the minute and second diffs are 0, so minute and
      second values in 0..59 come out as they went in. */
  lemma MinutesAndSecondsKept(vs: seq<int>, t0: Instant, n: int, f: Field)
    requires Valid(t0) && (f == Minute || f == Second)
    requires forall k :: 0 <= k < |vs| ==> 0 <= vs[k] < 60
    ensures Adjusted(f, vs, t0, Diff(f, t0, AddMinutes(t0, 60 * n))).0 == vs
  {
    WholeHourShift(t0, n);
    UnshiftedKept(vs, t0, f);
  }

  lemma UnshiftedKept(vs: seq<int>, t0: Instant, f: Field)
    requires Valid(t0) && (f == Minute || f == Second)
    requires forall k :: 0 <= k < |vs| ==> 0 <= vs[k] < 60
    ensures Adjusted(f, vs, t0, 0).0 == vs
  {
    forall k | 0 <= k < |vs| ensures Adjusted(f, vs, t0, 0).0[k] == vs[k] {
      UnshiftedKeptAt(vs, t0, f, k);
    }
  }

  lemma UnshiftedKeptAt(vs: seq<int>, t0: Instant, f: Field, k: int)
    requires Valid(t0) && (f == Minute || f == Second)
    requires 0 <= k < |vs| && 0 <= vs[k] < 60
    ensures Adjusted(f, vs, t0, 0).0[k] == vs[k]
  {
    AdjustedValue(f, vs, t0, 0, k);
    UnshiftedValue(f, vs[k], Adjusted(f, vs, t0, 0).0[k]);
  }

  /** A minute or second value in range, set with diff 0, reads back as itself. */
  lemma UnshiftedValue(f: Field, v: int, out: int)
    requires (f == Minute || f == Second) && 0 <= v < 60 && AdjustedAs(f, v, 0, out)
    ensures out == v
  {
  }

  /** One more value: the adjusted prefix grows by the value read back after
      setting it on the t2 the prefix left behind. */
  lemma AdjustedStep(f: Field, vs: seq<int>, k: int, t0: Instant, diff: int)
    requires Valid(t0) && 0 <= k < |vs|
    ensures var prev := Adjusted(f, vs[..k], t0, diff);
      var next := Adjusted(f, vs[..k + 1], t0, diff);
      && (f != DayOfWeek ==> next == (prev.0 + [Get(f, Set(f, prev.1, vs[k] + diff))], Set(f, prev.1, vs[k] + diff)))
      && (f == DayOfWeek ==> next == (prev.0 + [JsRem(vs[k] + diff, 7)], prev.1))
  {
    assert vs[..k + 1][..k] == vs[..k];
  }

  /** Writing x over the first element after a prefix moves the prefix's end
      one place on. */
  lemma Splice(done: seq<int>, rest: seq<int>, x: int)
    requires |rest| > 0
    ensures (done + rest)[|done| := x] == (done + [x]) + rest[1..]
  {
  }

  /** The loop that rewrites the list of a calendar field f in place; t2 is
      one copy of t0 reused for every value of the field. */
  method AdjustCalendarField(f: Field, value: array<int>, t0: Instant, diff: int)
    requires Valid(t0) && f != DayOfWeek
    modifies value
    ensures value[..] == Adjusted(f, old(value[..]), t0, diff).0
  {
    ghost var input := value[..];
    ghost var out := [];
    var t2 := t0;
    var index := 0;
    while index < value.Length
      invariant 0 <= index <= value.Length
      invariant value[..] == out + input[index..]
      invariant (out, t2) == Adjusted(f, input[..index], t0, diff)
    {
      t2, out := AdjustAt(f, value, index, t2, t0, diff, input, out);
      index := index + 1;
    }
    assert input[..index] == input;
  }

  /** One turn of that loop: the value at index, moved by diff, is set on the
      running copy t2, which keeps the result, and is read back into the list. */
  method AdjustAt(f: Field, value: array<int>, index: int, t2: Instant, t0: Instant, diff: int,
                  ghost input: seq<int>, ghost out: seq<int>) returns (t3: Instant, ghost out2: seq<int>)
    requires Valid(t0) && f != DayOfWeek && 0 <= index < value.Length == |input|
    requires value[..] == out + input[index..]
    requires (out, t2) == Adjusted(f, input[..index], t0, diff)
    modifies value
    ensures value[..] == out2 + input[index + 1..]
    ensures (out2, t3) == Adjusted(f, input[..index + 1], t0, diff)
  {
    var time := value[index];
    AdjustedStep(f, input, index, t0, diff);
    t3 := Set(f, t2, time + diff);
    value[index] := Get(f, t3);
    Splice(out, input[index..], Get(f, t3));
    assert input[index..][1..] == input[index + 1..];
    out2 := out + [Get(f, t3)];
  }

  /** The loop that rewrites the dayOfWeek list in place. */
  method AdjustDayOfWeek(value: array<int>, t0: Instant, diff: int)
    requires Valid(t0)
    modifies value
    ensures value[..] == Adjusted(DayOfWeek, old(value[..]), t0, diff).0
  {
    ghost var input := value[..];
    ghost var out := [];
    var index := 0;
    while index < value.Length
      invariant 0 <= index <= value.Length
      invariant value[..] == out + input[index..]
      invariant out == Adjusted(DayOfWeek, input[..index], t0, diff).0
    {
      var time := value[index];
      AdjustedStep(DayOfWeek, input, index, t0, diff);
      value[index] := JsRem(time + diff, 7);
      Splice(out, input[index..], JsRem(time + diff, 7));
      assert input[index..][1..] == input[index + 1..];
      out := out + [JsRem(time + diff, 7)];
      index := index + 1;
    }
    assert input[..index] == input;
  }

  /** The body run for each field of the values object: the calendar fields
      go through t2, dayOfWeek through the remainder by 7. */
  method AdjustField(f: Field, value: array<int>, t0: Instant, diff: int)
    requires Valid(t0)
    modifies value
    ensures value[..] == Adjusted(f, old(value[..]), t0, diff).0
  {
    if f != DayOfWeek {
      AdjustCalendarField(f, value, t0, diff);
    } else {
      AdjustDayOfWeek(value, t0, diff);
    }
  }

  // ---- scheduleJobUtc ---------------------------------------------------------

  const FieldSet: set<Field> := {Year, Month, Date, Hour, Minute, Second, DayOfWeek}

  lemma FieldSetComplete(f: Field)
    ensures f in FieldSet
  {
  }

  lemma AllInFieldSet()
    ensures forall f: Field :: f in FieldSet
  {
    forall f: Field ensures f in FieldSet {
      FieldSetComplete(f);
    }
  }

  function ListArrays(fields: map<Field, RecurrenceDef>): set<array<int>> {
    set f | f in fields && fields[f].List? :: fields[f].arr
  }

  predicate AllTerminate(fields: map<Field, RecurrenceDef>) {
    forall f :: f in fields ==> Terminates(fields[f])
  }

  /** No array is given for two fields. */
  predicate DistinctLists(fields: map<Field, RecurrenceDef>) {
    forall f, g :: f in fields && g in fields && f != g && fields[f].List? && fields[g].List? ==>
      fields[f].arr != fields[g].arr
  }

  /** An undefined second is defined as 0. */
  function WithDefaultSecond(fields: map<Field, RecurrenceDef>): (r: map<Field, RecurrenceDef>)
    ensures Second in r && r.Keys == fields.Keys + {Second}
    ensures forall f :: f in fields ==> r[f] == fields[f]
  {
    if Second in fields then fields else fields[Second := Exact(0)]
  }

  /** The values object: the integer list of every field, empty when the field
      is not defined. */
  function InputValues(fields: map<Field, RecurrenceDef>): (vals: map<Field, seq<int>>)
    requires AllTerminate(fields)
    reads ListArrays(fields)
    ensures forall f: Field :: f in vals
  {
    AllInFieldSet();
    map f | f in FieldSet :: ValuesOf(Lookup(fields, f))
  }

  /** Every array of the values object holds the list vals gives its field. */
  predicate HoldsLists(values: map<Field, array<int>>, vals: map<Field, seq<int>>)
    reads set f | f in values :: values[f]
  {
    forall f :: f in values ==> f in vals && values[f][..] == vals[f]
  }

  /** No array serves two fields of the values object. */
  predicate Injective(values: map<Field, array<int>>) {
    forall f, g :: f in values && g in values && f != g ==> values[f] != values[g]
  }

  /** When the spec gives no array twice, no array serves two fields of the
      values object: a given array serves its own field, and every other
      field has an array made for it alone (made maps each such array to its
      field, and holds none of the given ones). */
  lemma InjectiveValues(fields: map<Field, RecurrenceDef>, values: map<Field, array<int>>,
                        made: map<array<int>, Field>)
    requires DistinctLists(fields)
    requires forall f :: f in values && f in fields && fields[f].List? ==>
      values[f] == fields[f].arr && values[f] !in made
    requires forall f :: f in values && !(f in fields && fields[f].List?) ==>
      values[f] in made && made[values[f]] == f
    ensures Injective(values)
  {
  }

  /** A field of the spec, or undefined. */
  function Lookup(fields: map<Field, RecurrenceDef>, f: Field): (r: Option<RecurrenceDef>)
    ensures r.Some? <==> f in fields
    ensures r.Some? ==> r.value == fields[f]
  {
    if f in fields then Some(fields[f]) else None
  }

  /** The integer list valueToArray gives for a field that may be undefined. */
  function ValuesOf(value: Option<RecurrenceDef>): seq<int>
    requires value.Some? ==> Terminates(value.value)
    reads if value.Some? && value.value.List? then {value.value.arr} else {}
  {
    if value.Some? then DefValues(value.value) else []
  }

  /** Building the values object: every field gets the array valueToArray
      returns for it, an array given by the spec itself and a new one
      otherwise. */
  method MakeValues(fields: map<Field, RecurrenceDef>)
    returns (values: map<Field, array<int>>, ghost made: map<array<int>, Field>)
    requires AllTerminate(fields)
    ensures forall f: Field :: f in values
    ensures HoldsLists(values, InputValues(fields))
    ensures forall f :: f in values && f in fields && fields[f].List? ==>
      values[f] == fields[f].arr && values[f] !in made
    ensures forall f :: f in values && !(f in fields && fields[f].List?) ==>
      fresh(values[f]) && values[f] in made && made[values[f]] == f
    ensures forall f :: f in values && f !in fields ==> values[f].Length == 0
  {
    values, made := map[], map[];
    for i := 0 to |AllFields|
      invariant forall j :: 0 <= j < i ==> AllFields[j] in values
      invariant forall f :: f in values ==> values[f][..] == ValuesOf(Lookup(fields, f))
      invariant forall a :: a in made ==> fresh(a)
      invariant forall f :: f in values && f in fields && fields[f].List? ==>
        values[f] == fields[f].arr && values[f] !in made
      invariant forall f :: f in values && !(f in fields && fields[f].List?) ==>
        fresh(values[f]) && values[f] in made && made[values[f]] == f
      invariant forall f :: f in values && f !in fields ==> values[f].Length == 0
    {
      var f := AllFields[i];
      var arr := ValueToArray(Lookup(fields, f));
      made := if f in fields && fields[f].List? then made else made[arr := f];
      values := values[f := arr];
    }
    forall f: Field ensures f in values {
      assert AllFields[FieldIndex(f)] == f;
    }
  }

  /** Every list of a values object adjusted by its field's diff between t0
      and t1. */
  function AdjustedValues(vals: map<Field, seq<int>>, t0: Instant, t1: Instant): (r: map<Field, seq<int>>)
    requires Valid(t0)
    ensures r.Keys == vals.Keys
  {
    map f | f in vals :: Adjusted(f, vals[f], t0, Diff(f, t0, t1)).0
  }

  /** The lists scheduleJobUtc hands to the job engine for the values object
      vals, at the current instant now, when the clock is shifted by shift
      minutes: t0 takes the first values, t1 is t0 shifted, and every list is
      adjusted by its field's diff. */
  function Scheduled(vals: map<Field, seq<int>>, now: Instant, shift: int): (r: map<Field, seq<int>>)
    requires Valid(now)
    ensures r.Keys == vals.Keys
  {
    var t0 := T0(now, vals);
    AdjustedValues(vals, t0, AddMinutes(t0, shift))
  }

  lemma ScheduledFrom(vals: map<Field, seq<int>>, now: Instant, shift: int, t0: Instant, t1: Instant)
    requires Valid(now) && t0 == T0(now, vals) && t1 == AddMinutes(t0, shift)
    ensures Scheduled(vals, now, shift) == AdjustedValues(vals, t0, t1)
  {
  }

  /** The values object after the loop has handled the first i fields of
      AllFields: those fields hold their adjusted lists, the others their
      input lists. */
  predicate AdjustedUpTo(values: map<Field, array<int>>, input: map<Field, seq<int>>, t0: Instant, t1: Instant, i: int)
    requires Valid(t0)
    reads set f | f in values :: values[f]
  {
    forall f :: f in values ==>
      && f in input
      && values[f][..] == if FieldIndex(f) < i then Adjusted(f, input[f], t0, Diff(f, t0, t1)).0 else input[f]
  }

  /** The loop over the values object, rewriting each field's array. The
      arrays are shared with the caller's spec, so the result is stated when
      no array serves two fields. */
  method AdjustAll(values: map<Field, array<int>>, t0: Instant, t1: Instant, ghost vals: map<Field, seq<int>>)
    requires Valid(t0) && (forall f: Field :: f in values) && HoldsLists(values, vals)
    modifies set f | f in values :: values[f]
    ensures Injective(values) ==> HoldsLists(values, AdjustedValues(vals, t0, t1))
  {
    ghost var input := map f | f in values :: values[f][..];
    for i := 0 to |AllFields|
      invariant Injective(values) ==> AdjustedUpTo(values, input, t0, t1, i)
    {
      AdjustFieldAt(values, t0, t1, i, input);
    }
  }

  /** One turn of that loop: the i-th field's array is adjusted, and when no
      array serves two fields no other list changes. */
  method AdjustFieldAt(values: map<Field, array<int>>, t0: Instant, t1: Instant, i: int, ghost input: map<Field, seq<int>>)
    requires Valid(t0) && 0 <= i < |AllFields| && (forall f: Field :: f in values)
    requires Injective(values) ==> AdjustedUpTo(values, input, t0, t1, i)
    modifies values[AllFields[i]]
    ensures Injective(values) ==> AdjustedUpTo(values, input, t0, t1, i + 1)
  {
    var f := AllFields[i];
    assert FieldIndex(f) == i;
    AdjustField(f, values[f], t0, Diff(f, t0, t1));
    if Injective(values) {
      forall g | g in values && g != f
        ensures values[g][..] == old(values[g][..])
      {
        assert values[g] != values[f];
      }
    }
  }

  /** The instant t0: the current instant with the first value of every
      defined field set on it, from year down to second. A field whose list is
      empty leaves the instant alone (moment's setter then acts as a getter),
      and an undefined field's list is empty. */
  method InitialInstant(fields: map<Field, RecurrenceDef>, values: map<Field, array<int>>, now: Instant,
                        ghost vals: map<Field, seq<int>>)
    returns (t0: Instant)
    requires Valid(now) && (forall f: Field :: f in values) && HoldsLists(values, vals)
    requires forall f :: f in values && f !in fields ==> values[f].Length == 0
    ensures t0 == T0(now, vals) && HoldsLists(values, vals)
  {
    var t := now;
    if Year in fields { t := SetFirst(Year, t, values[Year][..]); }
    if Month in fields { t := SetFirst(Month, t, values[Month][..]); }
    if Date in fields { t := SetFirst(Date, t, values[Date][..]); }
    if Hour in fields { t := SetFirst(Hour, t, values[Hour][..]); }
    if Minute in fields { t := SetFirst(Minute, t, values[Minute][..]); }
    if Second in fields { t := SetFirst(Second, t, values[Second][..]); }
    t0 := t;
  }

  /** The values object's lists are the same in two states in which no array
      of the spec has changed. */
  twostate lemma InputValuesUnchanged(fields: map<Field, RecurrenceDef>)
    requires AllTerminate(fields)
    requires forall a :: a in ListArrays(fields) ==> old(allocated(a)) && unchanged(a)
    ensures old(InputValues(fields)) == InputValues(fields)
  {
    forall f: Field
      ensures old(ValuesOf(Lookup(fields, f))) == ValuesOf(Lookup(fields, f))
    {
      if f in fields && fields[f].List? {
        assert fields[f].arr in ListArrays(fields);
      }
    }
  }

  /** The clock shift t1 gets over t0, in minutes: the machine's offset from
      UTC (the timezone offset, UTC minus local time) plus utcOffset hours. */
  function Shift(machineOffsetMin: int, utcOffset: int): int {
    machineOffsetMin + 60 * utcOffset
  }

  /** The recurrence rule takes the arrays of the fields the spec defines. */
  function RuleOf(fields: map<Field, RecurrenceDef>, values: map<Field, array<int>>): (rule: map<Field, array<int>>)
    requires forall f: Field :: f in values
    ensures rule.Keys == fields.Keys
    ensures forall f :: f in rule ==> rule[f] == values[f]
  {
    map f | f in fields :: values[f]
  }

  /** The recurrence rule built from a spec's fields (second defined): the
      rule has exactly those fields, a field given as an array is that very
      array, rewritten in place, and when no array serves two fields the
      rule's lists are the Scheduled lists of the fields' values object. */
  method BuildRule(fields: map<Field, RecurrenceDef>, now: Instant, shift: int, ghost vals: map<Field, seq<int>>)
    returns (rule: map<Field, array<int>>)
    requires Valid(now) && AllTerminate(fields) && vals == InputValues(fields)
    modifies ListArrays(fields)
    ensures rule.Keys == fields.Keys
    ensures forall f :: f in rule && fields[f].List? ==> rule[f] == fields[f].arr
    ensures DistinctLists(fields) ==> HoldsLists(rule, Scheduled(vals, now, shift))
  {
    var values; ghost var made;
    values, made := MakeValues(fields);
    InputValuesUnchanged(fields);
    var t0 := InitialInstant(fields, values, now, vals);
    var t1 := AddMinutes(t0, shift);
    AdjustAll(values, t0, t1, vals);
    rule := RuleOf(fields, values);
    assert DistinctLists(fields) ==> HoldsLists(rule, Scheduled(vals, now, shift)) by {
      if DistinctLists(fields) {
        InjectiveValues(fields, values, made);
        ScheduledFrom(vals, now, shift, t0, t1);
      }
    }
  }

  /** scheduleJobUtc up to the recurrence rule handed to the job engine: the
      spec object gains second = 0 if it had no second, and the rule is built
      from its fields with the clock shifted by the machine's offset from UTC
      plus utcOffset hours. */
  method ScheduleJobUtc(spec: JobSpec, utcOffset: int, now: Instant, machineOffsetMin: int)
    returns (rule: map<Field, array<int>>)
    requires Valid(now) && AllTerminate(spec.fields)
    modifies spec, ListArrays(spec.fields)
    ensures spec.fields == WithDefaultSecond(old(spec.fields))
    ensures rule.Keys == spec.fields.Keys && Second in rule
    ensures forall f :: f in rule && spec.fields[f].List? ==> rule[f] == spec.fields[f].arr
    ensures DistinctLists(spec.fields) ==>
      var lists := Scheduled(old(InputValues(WithDefaultSecond(spec.fields))), now, Shift(machineOffsetMin, utcOffset));
      forall f :: f in rule ==> f in lists && rule[f][..] == lists[f]
  {
    ghost var vals := InputValues(WithDefaultSecond(spec.fields));
    var fields := spec.fields;
    if Second !in fields {
      fields := fields[Second := Exact(0)];
    }
    assert fields == WithDefaultSecond(spec.fields);
    var shift := Shift(machineOffsetMin, utcOffset);
    rule := BuildRule(fields, now, shift, vals);
    spec.fields := fields;
  }
}
