/**
 * Calendar dates as Python's `datetime.date` sees them: a (year, month, day) triple,
 * its proleptic-Gregorian day number (`toordinal()`), adding days (`+ timedelta(days=n)`),
 * and the two `strptime` formats the source parses.
 */
module Dates {
  import opened Wrappers
  import opened Strings

  datatype Ymd = Ymd(year: int, month: int, day: int)

  predicate IsLeap(y: int) {
    y % 4 == 0 && (y % 100 != 0 || y % 400 == 0)
  }

  function DaysInMonth(y: int, m: int): int
    requires 1 <= m <= 12
  {
    if m == 2 then (if IsLeap(y) then 29 else 28)
    else if m == 4 || m == 6 || m == 9 || m == 11 then 30
    else 31
  }

  /** `datetime.MAXYEAR`. */
  const MaxYear := 9999

  /** A triple `datetime.date` accepts: years 1 through `MaxYear`. */
  predicate Valid(d: Ymd) {
    1 <= d.year <= MaxYear && 1 <= d.month <= 12 && 1 <= d.day <= DaysInMonth(d.year, d.month)
  }

  /** `date.min` and `date.max`. */
  const FirstDay := Ymd(1, 1, 1)
  const LastDay := Ymd(MaxYear, 12, 31)

  function DaysBeforeYear(y: int): int
    requires y >= 1
  {
    var p := y - 1;
    p * 365 + p / 4 - p / 100 + p / 400
  }

  /** Days of year `y` before the first of month `m`; `m == 13` gives the length of the year. */
  function DaysBeforeMonth(y: int, m: int): int
    requires 1 <= m <= 13
  {
    var common :=
      if m == 1 then 0 else if m == 2 then 31 else if m == 3 then 59
      else if m == 4 then 90 else if m == 5 then 120 else if m == 6 then 151
      else if m == 7 then 181 else if m == 8 then 212 else if m == 9 then 243
      else if m == 10 then 273 else if m == 11 then 304 else if m == 12 then 334
      else 365;
    if m > 2 && IsLeap(y) then common + 1 else common
  }

  /** Python's `date.toordinal()`: 0001-01-01 is day 1. */
  function Ordinal(d: Ymd): int
    requires Valid(d)
  {
    DaysBeforeYear(d.year) + DaysBeforeMonth(d.year, d.month) + d.day
  }

  /** The day after `d`; `date.max` has none. */
  function NextDay(d: Ymd): Ymd
    requires Valid(d) && d != LastDay
  {
    if d.day < DaysInMonth(d.year, d.month) then Ymd(d.year, d.month, d.day + 1)
    else if d.month < 12 then Ymd(d.year, d.month + 1, 1)
    else Ymd(d.year + 1, 1, 1)
  }

  /** The day before `d`; `date.min` has none. */
  function PrevDay(d: Ymd): Ymd
    requires Valid(d) && d != FirstDay
  {
    if d.day > 1 then Ymd(d.year, d.month, d.day - 1)
    else if d.month > 1 then Ymd(d.year, d.month - 1, DaysInMonth(d.year, d.month - 1))
    else Ymd(d.year - 1, 12, 31)
  }

  lemma YearLength(y: int)
    requires y >= 1
    ensures DaysBeforeYear(y + 1) == DaysBeforeYear(y) + DaysBeforeMonth(y, 13)
  {
    var p := y - 1;
    assert y / 4 == p / 4 + (if y % 4 == 0 then 1 else 0);
    assert y / 100 == p / 100 + (if y % 100 == 0 then 1 else 0);
    assert y / 400 == p / 400 + (if y % 400 == 0 then 1 else 0);
  }

  lemma NextDayOrdinal(d: Ymd)
    requires Valid(d) && d != LastDay
    ensures Valid(NextDay(d)) && Ordinal(NextDay(d)) == Ordinal(d) + 1
  {
    if d.day == DaysInMonth(d.year, d.month) && d.month == 12 {
      YearLength(d.year);
    }
  }

  lemma PrevDayOrdinal(d: Ymd)
    requires Valid(d) && d != FirstDay
    ensures Valid(PrevDay(d)) && Ordinal(PrevDay(d)) == Ordinal(d) - 1
  {
    var p := PrevDay(d);
    assert p != LastDay && NextDay(p) == d;
    NextDayOrdinal(p);
  }

  /** Every valid date's day number lies between those of `date.min` and `date.max`. */
  lemma OrdinalBounds(d: Ymd)
    requires Valid(d)
    ensures Valid(LastDay) && 1 <= Ordinal(d) <= Ordinal(LastDay)
  {
    NotBeforeFirstDay(d);
    NotAfterLastDay(d);
  }

  lemma NotBeforeFirstDay(d: Ymd)
    requires Valid(d)
    ensures 1 <= Ordinal(d)
  {
    OrdinalInYear(d);
    YearsBefore(1, d.year);
  }

  lemma NotAfterLastDay(d: Ymd)
    requires Valid(d)
    ensures Valid(LastDay) && Ordinal(d) <= Ordinal(LastDay)
  {
    assert DateLe(d, LastDay);
    DateLeOrdinal(d, LastDay);
  }

  /** `d + timedelta(days=n)` for `n >= 0` within range: a valid date `n` day numbers later. */
  function AddDays(d: Ymd, n: nat): (r: Ymd)
    requires Valid(d) && Ordinal(d) + n <= Ordinal(LastDay)
    ensures Valid(r) && Ordinal(r) == Ordinal(d) + n
    decreases n
  {
    if n == 0 then d
    else
      NextDayOrdinal(d);
      AddDays(NextDay(d), n - 1)
  }

  /** `d - timedelta(days=n)` for `n >= 0` within range: a valid date `n` day numbers earlier. */
  function SubDays(d: Ymd, n: nat): (r: Ymd)
    requires Valid(d) && 1 <= Ordinal(d) - n
    ensures Valid(r) && Ordinal(r) == Ordinal(d) - n
    decreases n
  {
    if n == 0 then d
    else
      PrevDayOrdinal(d);
      SubDays(PrevDay(d), n - 1)
  }

  /**
   * `d + timedelta(days=n)` for any integer `n`: the date `n` day numbers away, or
   * `OverflowError` when that leaves `date.min .. date.max`.
   */
  function ShiftDays(d: Ymd, n: int): (r: Result<Ymd>)
    requires Valid(d)
    ensures r.Success? <==> 1 <= Ordinal(d) + n <= Ordinal(LastDay)
    ensures r.Failure? ==> r.error == OverflowError
    ensures r.Success? ==> Valid(r.value) && Ordinal(r.value) == Ordinal(d) + n
  {
    if !(1 <= Ordinal(d) + n <= Ordinal(LastDay)) then Failure(OverflowError)
    else if n >= 0 then Success(AddDays(d, n))
    else Success(SubDays(d, -n))
  }

  /** The day numbers name dates one to one: equal day numbers mean equal dates. */
  lemma OrdinalInjective(a: Ymd, b: Ymd)
    requires Valid(a) && Valid(b) && Ordinal(a) == Ordinal(b)
    ensures a == b
  {
    DateLeOrdinal(a, b);
    DateLeOrdinal(b, a);
  }

  /** Shifting by `n` and then by `-n` returns to the start. */
  lemma ShiftDaysBack(d: Ymd, n: int)
    requires Valid(d) && ShiftDays(d, n).Success?
    ensures ShiftDays(ShiftDays(d, n).value, -n) == Success(d)
  {
    var e := ShiftDays(d, n).value;
    OrdinalBounds(d);
    var back := ShiftDays(e, -n);
    OrdinalInjective(back.value, d);
  }

  // ---------------------------------------------------------------------------
  // strptime(s, "%Y-%m-%d") and strptime(s, "%Y-%m-%dT%H:%M:%SZ"), digits fixed-width
  // ---------------------------------------------------------------------------

  /** A fixed-width decimal field of `s`, if it is all digits. */
  function Field(s: string, lo: nat, hi: nat): Option<nat>
    requires lo <= hi <= |s|
  {
    if AllDigits(s[lo..hi]) then Some(DigitsValue(s[lo..hi])) else None
  }

  /**
   * `datetime.strptime(s, "%Y-%m-%d").date()` on the zero-padded spelling; `None` stands for
   * `ValueError`. Python also reads single-digit month and day fields, which this does not.
   */
  function ParseIsoDate(s: string): (r: Option<Ymd>)
    ensures r.Some? ==> Valid(r.value)
  {
    if |s| != 10 || s[4] != '-' || s[7] != '-' then None
    else
      match (Field(s, 0, 4), Field(s, 5, 7), Field(s, 8, 10))
      case (Some(y), Some(m), Some(dd)) =>
        if Valid(Ymd(y, m, dd)) then Some(Ymd(y, m, dd)) else None
      case _ => None
  }

  /** `date.isoformat()`: `YYYY-MM-DD`, zero-padded. */
  function FormatIsoDate(d: Ymd): (s: string)
    requires 0 <= d.year && 0 <= d.month && 0 <= d.day
    ensures |s| == 10
  {
    PadDigits(d.year, 4) + "-" + PadDigits(d.month, 2) + "-" + PadDigits(d.day, 2)
  }

  lemma {:induction false} DigitsValueBound(s: string)
    requires AllDigits(s)
    ensures DigitsValue(s) < Pow10(|s|)
    decreases |s|
  {
    if s != [] {
      DigitsValueBound(s[..|s| - 1]);
    }
  }

  lemma {:induction false} PadDigitsOfValue(s: string)
    requires AllDigits(s)
    ensures PadDigits(DigitsValue(s), |s|) == s
    decreases |s|
  {
    if s != [] {
      var init := s[..|s| - 1];
      var v := DigitsValue(s);
      assert v / 10 == DigitsValue(init);
      assert v % 10 == s[|s| - 1] as int - '0' as int;
      PadDigitsOfValue(init);
      assert init + [s[|s| - 1]] == s;
    }
  }

  /** A field holding a value written zero-padded reads back as that value. */
  lemma FieldOfPadded(s: string, lo: nat, w: nat, v: nat)
    requires lo + w <= |s| && v < Pow10(w) && s[lo..lo + w] == PadDigits(v, w)
    ensures Field(s, lo, lo + w) == Some(v)
  {
    PadDigitsValue(v, w);
  }

  /** Formatting then parsing gives the date back. */
  lemma ParseFormatIsoDate(d: Ymd)
    requires Valid(d)
    ensures ParseIsoDate(FormatIsoDate(d)) == Some(d)
  {
    var y, m, dd := PadDigits(d.year, 4), PadDigits(d.month, 2), PadDigits(d.day, 2);
    var s := FormatIsoDate(d);
    assert s == y + "-" + m + "-" + dd;
    assert Pow10(2) == 100 && Pow10(4) == 10000 by {
      assert Pow10(1) == 10 && Pow10(3) == 1000;
    }
    assert s[0..4] == y && s[4] == '-' && s[5..7] == m && s[7] == '-' && s[8..10] == dd;
    FieldOfPadded(s, 0, 4, d.year);
    FieldOfPadded(s, 5, 2, d.month);
    FieldOfPadded(s, 8, 2, d.day);
  }

  /** The parser accepts only the canonical spelling: what it reads formats back to the input. */
  lemma FormatParsedIsoDate(s: string, d: Ymd)
    requires ParseIsoDate(s) == Some(d)
    ensures Valid(d) && FormatIsoDate(d) == s
  {
    PadDigitsOfValue(s[0..4]);
    PadDigitsOfValue(s[5..7]);
    PadDigitsOfValue(s[8..10]);
    assert s == s[0..4] + "-" + s[5..7] + "-" + s[8..10];
  }

  /**
   * `datetime.strptime(s, "%Y-%m-%dT%H:%M:%SZ").date()` on the zero-padded spelling; `None`
   * stands for `ValueError`. Seconds run to 59: building the `datetime` rejects 60 and 61.
   */
  function ParseIsoTimestamp(s: string): (r: Option<Ymd>)
    ensures r.Some? ==> Valid(r.value)
  {
    if |s| != 20 || s[10] != 'T' || s[13] != ':' || s[16] != ':' || s[19] != 'Z' then None
    else
      match (ParseIsoDate(s[..10]), Field(s, 11, 13), Field(s, 14, 16), Field(s, 17, 19))
      case (Some(d), Some(hh), Some(mm), Some(ss)) =>
        if hh <= 23 && mm <= 59 && ss <= 59 then Some(d) else None
      case _ => None
  }

  /** A leap second is rejected, as `datetime` rejects second 60; second 59 of the same minute is read. */
  lemma LeapSecondRejected(d: Ymd)
    requires Valid(d)
    ensures ParseIsoTimestamp(FormatIsoDate(d) + "T23:59:60Z").None?
    ensures ParseIsoTimestamp(FormatIsoDate(d) + "T23:59:59Z") == Some(d)
  {
    ParseFormatIsoDate(d);
    var day := FormatIsoDate(d);
    var leap, last := day + "T23:59:60Z", day + "T23:59:59Z";
    assert leap[..10] == day && last[..10] == day;
    assert leap[11..13] == "23" && leap[14..16] == "59" && leap[17..19] == "60";
    assert last[11..13] == "23" && last[14..16] == "59" && last[17..19] == "59";
    assert DigitsValue("23") == 23 by { assert "23"[..1] == "2"; }
    assert DigitsValue("59") == 59 by { assert "59"[..1] == "5"; }
    assert DigitsValue("60") == 60 by { assert "60"[..1] == "6"; }
  }

  // ---------------------------------------------------------------------------
  // Comparing dates: `a <= b` on `datetime.date`
  // ---------------------------------------------------------------------------

  /** Python's `a <= b` on dates: by year, then month, then day. */
  predicate DateLe(a: Ymd, b: Ymd) {
    a.year < b.year || (a.year == b.year && (a.month < b.month || (a.month == b.month && a.day <= b.day)))
  }

  lemma MonthLength(y: int, m: int)
    requires 1 <= m <= 12
    ensures DaysBeforeMonth(y, m) + DaysInMonth(y, m) == DaysBeforeMonth(y, m + 1)
  {
  }

  lemma MonthsBefore(y: int, m: int, n: int)
    requires 1 <= m <= n <= 13
    ensures DaysBeforeMonth(y, m) <= DaysBeforeMonth(y, n)
  {
  }

  lemma {:induction false} YearsBefore(y: int, z: int)
    requires 1 <= y <= z
    ensures DaysBeforeYear(y) <= DaysBeforeYear(z)
    decreases z - y
  {
    if y < z {
      YearLength(y);
      YearsBefore(y + 1, z);
    }
  }

  /** A date's day number lies inside its own year. */
  lemma OrdinalInYear(d: Ymd)
    requires Valid(d)
    ensures DaysBeforeYear(d.year) < Ordinal(d) <= DaysBeforeYear(d.year + 1)
  {
    MonthLength(d.year, d.month);
    MonthsBefore(d.year, d.month + 1, 13);
    YearLength(d.year);
  }

  /** A date earlier in year-month-day order has a smaller day number. */
  lemma OrdinalStrict(a: Ymd, b: Ymd)
    requires Valid(a) && Valid(b) && DateLe(a, b) && a != b
    ensures Ordinal(a) < Ordinal(b)
  {
    if a.year < b.year {
      OrdinalInYear(a);
      OrdinalInYear(b);
      YearsBefore(a.year + 1, b.year);
    } else if a.month < b.month {
      MonthLength(a.year, a.month);
      MonthsBefore(a.year, a.month + 1, b.month);
    }
  }

  /** Comparing dates as Python does agrees with comparing their day numbers. */
  lemma DateLeOrdinal(a: Ymd, b: Ymd)
    requires Valid(a) && Valid(b)
    ensures DateLe(a, b) <==> Ordinal(a) <= Ordinal(b)
  {
    if DateLe(a, b) && a != b {
      OrdinalStrict(a, b);
    } else if !DateLe(a, b) {
      OrdinalStrict(b, a);
    }
  }
}
