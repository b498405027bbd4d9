/**
 * The Gregorian calendar as the core uses it: `calendar.isleap`,
 * `calendar.monthrange(y, m)[1]`, the date texts the application writes
 * (`f"{year}-{month:02d}-{day:02d}"`) and the dates `datetime.strptime(s, "%Y-%m-%d")`
 * accepts.
 */
module Calendar {
  import opened Wrappers
  import opened Text

  predicate IsLeapYear(y: int) {
    y % 4 == 0 && (y % 100 != 0 || y % 400 == 0)
  }

  /** `calendar.monthrange(y, m)[1]`; Python raises for a month outside 1..12. */
  function DaysInMonth(y: int, m: int): (r: nat)
    requires 1 <= m <= 12
    ensures 28 <= r <= 31
    ensures m == 2 ==> (r == 29 <==> IsLeapYear(y))
    ensures m != 2 ==> (r == 30 <==> m in {4, 6, 9, 11})
  {
    if m == 2 then (if IsLeapYear(y) then 29 else 28)
    else if m == 4 || m == 6 || m == 9 || m == 11 then 30
    else 31
  }

  /** The number of days in the first n months of year y. */
  function DaysBefore(y: int, n: nat): nat
    requires n <= 12
  {
    if n == 0 then 0 else DaysBefore(y, n - 1) + DaysInMonth(y, n)
  }

  lemma YearLength(y: int)
    ensures DaysBefore(y, 12) == if IsLeapYear(y) then 366 else 365
  {
    var feb := if IsLeapYear(y) then 29 else 28;
    assert DaysBefore(y, 1) == 31;
    assert DaysBefore(y, 2) == 31 + feb;
    assert DaysBefore(y, 3) == 62 + feb;
    assert DaysBefore(y, 4) == 92 + feb;
    assert DaysBefore(y, 5) == 123 + feb;
    assert DaysBefore(y, 6) == 153 + feb;
    assert DaysBefore(y, 7) == 184 + feb;
    assert DaysBefore(y, 8) == 215 + feb;
    assert DaysBefore(y, 9) == 245 + feb;
    assert DaysBefore(y, 10) == 276 + feb;
    assert DaysBefore(y, 11) == 306 + feb;
  }

  // ---------------------------------------------------------------------------
  // Calendar dates and their texts
  // ---------------------------------------------------------------------------

  datatype Date = Date(year: int, month: int, day: int)

  /** What `datetime.date` accepts. */
  predicate ValidDate(d: Date) {
    1 <= d.year <= 9999 && 1 <= d.month <= 12 && 1 <= d.day <= DaysInMonth(d.year, d.month)
  }

  /** `f"{y}-{m:02d}-{d:02d}"` */
  function DateString(y: nat, m: nat, d: nat): string {
    NatToString(y) + "-" + Pad2(m) + "-" + Pad2(d)
  }

  /** `f"{y}-{m:02d}"`, the key of a month's theme. */
  function MonthKey(y: nat, m: nat): string {
    NatToString(y) + "-" + Pad2(m)
  }

  /** `f"{y}-{m:02d}-"`, the prefix the tools use to select a month's dates. */
  function MonthPrefix(y: nat, m: nat): string {
    MonthKey(y, m) + "-"
  }

  /** `f"{y}-{m:02d}-01"` */
  function FirstOfMonth(y: nat, m: nat): string {
    MonthPrefix(y, m) + "01"
  }

  /** The field `strptime`'s `%m` accepts: `1[0-2]|0[1-9]|[1-9]`. */
  function MonthToken(t: string): Option<int> {
    if |t| == 1 && '1' <= t[0] <= '9' then Some(DigitValue(t[0]))
    else if |t| == 2 && t[0] == '1' && '0' <= t[1] <= '2' then Some(10 + DigitValue(t[1]))
    else if |t| == 2 && t[0] == '0' && '1' <= t[1] <= '9' then Some(DigitValue(t[1]))
    else None
  }

  /** The field `strptime`'s `%d` accepts: `3[01]|[12]\d|0[1-9]|[1-9]| [1-9]`. */
  function DayToken(t: string): Option<int> {
    if |t| == 1 && '1' <= t[0] <= '9' then Some(DigitValue(t[0]))
    else if |t| == 2 && t[0] == '3' && '0' <= t[1] <= '1' then Some(30 + DigitValue(t[1]))
    else if |t| == 2 && '1' <= t[0] <= '2' && IsDigit(t[1]) then Some(10 * DigitValue(t[0]) + DigitValue(t[1]))
    else if |t| == 2 && (t[0] == '0' || t[0] == ' ') && '1' <= t[1] <= '9' then Some(DigitValue(t[1]))
    else None
  }

  /**
   * `datetime.strptime(s, "%Y-%m-%d")`: four digits, `-`, a month field, `-`, a day
   * field, nothing after it, and a real calendar date; `None` where it raises.
   * Unpadded fields (`2026-1-5`) are accepted, as Python accepts them.
   */
  function ParseDate(s: string): (r: Option<Date>)
    ensures r.Some? ==> ValidDate(r.value) && |s| >= 8
  {
    if |s| < 8 || s[4] != '-' || !AllDigits(s[..4]) then None
    else
      var rest := s[5..];
      var cut := if rest[1] == '-' then 1 else if rest[2] == '-' then 2 else 0;
      if cut == 0 then None
      else
        var month := MonthToken(rest[..cut]);
        var day := DayToken(rest[cut + 1..]);
        if month.None? || day.None? then None
        else
          var d := Date(DigitsValue(s[..4]), month.value, day.value);
          if ValidDate(d) then Some(d) else None
  }

  /** The date-format check every mutation performs. */
  predicate IsDateText(s: string) {
    ParseDate(s).Some?
  }

  lemma MonthTokenOfPad2(m: nat)
    requires 1 <= m <= 12
    ensures MonthToken(Pad2(m)) == Some(m)
  {
    if m >= 10 {
      assert NatToString(m) == NatToString(m / 10) + [DigitChar(m % 10)];
    }
  }

  lemma DayTokenOfPad2(d: nat)
    requires 1 <= d <= 31
    ensures DayToken(Pad2(d)) == Some(d)
  {
    if d >= 10 {
      assert NatToString(d) == NatToString(d / 10) + [DigitChar(d % 10)];
    }
  }

  /**
   * Every date text the application writes for a four-digit year is one that
   * `strptime` reads back as the same date.
   */
  lemma ParseDateString(y: nat, m: nat, d: nat)
    requires 1000 <= y <= 9999 && ValidDate(Date(y, m, d))
    ensures ParseDate(DateString(y, m, d)) == Some(Date(y, m, d))
  {
    FourDigitYear(y);
    NatToStringValue(y);
    MonthTokenOfPad2(m);
    DayTokenOfPad2(d);
    var s := DateString(y, m, d);
    assert s[..4] == NatToString(y);
    assert s[5..][..2] == Pad2(m);
    assert s[5..][3..] == Pad2(d);
  }

  /** The day field of a date key: `int(s.split("-")[2])`, `None` where Python raises. */
  function DayField(s: string): Option<int> {
    var parts := Split(s, '-');
    if |parts| < 3 then None else PyInt(parts[2])
  }

  lemma SplitDateString(y: nat, m: nat, d: nat)
    ensures Split(DateString(y, m, d), '-') == [NatToString(y), Pad2(m), Pad2(d)]
  {
    var ys, ms, ds := NatToString(y), Pad2(m), Pad2(d);
    assert '-' !in ys && '-' !in ms && '-' !in ds by {
      assert forall s: string :: AllDigits(s) ==> '-' !in s;
    }
    assert DateString(y, m, d) == ys + ['-'] + (ms + ['-'] + ds);
    SplitAtSeparator(ys, '-', ms + ['-'] + ds);
    SplitAtSeparator(ms, '-', ds);
    SplitWithoutSeparator(ds, '-');
  }

  /** The tools read back the day they wrote. */
  lemma DayFieldOfDateString(y: nat, m: nat, d: nat)
    ensures DayField(DateString(y, m, d)) == Some(d)
  {
    SplitDateString(y, m, d);
    PyIntOfPad2(d);
  }

  lemma DateStringInMonth(y: nat, m: nat, d: nat)
    ensures MonthPrefix(y, m) <= DateString(y, m, d)
    ensures DateString(y, m, d) == MonthPrefix(y, m) + Pad2(d)
  {
  }
}
