/** js/editor-core.js: the three pure helpers of the chapter editor, `two`,
    `isValidDateYMD` and `isValidTimeHM`. The validity test of a date goes
    through `Date.UTC` and reads the fields back; `Date.UTC` is modelled as
    the calendar arithmetic it performs (two-digit years mapped into the
    1900s, months carried into years, days carried into months), which is
    what ECMAScript's `MakeDay` computes. */
module EditorCore {
  import opened Strings
  import opened Utils

  // ---------------------------------------------------------------- two

  /** `s.padStart(len, c)`. */
  function PadStart(s: string, len: nat, c: char): (r: string)
    ensures |r| == if |s| >= len then |s| else len
    ensures r[|r| - |s|..] == s
    ensures forall k :: 0 <= k < |r| - |s| ==> r[k] == c
  {
    if |s| >= len then s else seq(len - |s|, _ => c) + s
  }

  /** `two(n)`: `String(n)` padded on the left with '0' to at least two
      characters. */
  function Two(n: int): (r: string)
    ensures |r| >= 2
  {
    PadStart(IntToString(n), 2, '0')
  }

  /** Every number of one or two digits is written with exactly two digits,
      which read back as the number. */
  lemma TwoRoundTrip(n: int)
    requires 0 <= n < 100
    ensures |Two(n)| == 2 && AllDigits(Two(n)) && DigitsValue(Two(n)) == n
  {
    var t := NatToString(n);
    NatToStringRoundTrip(n);
    NatToStringLength(n, 2);
    if n < 10 {
      var r := Two(n);
      assert r == ['0'] + t;
      assert r[..1] == "0" && r[1..] == t;
      assert DigitsValue(r[..1]) == 0;
    }
  }

  /** `two(5)` is "05" and `two(42)` is "42". */
  lemma TwoExamples()
    ensures Two(5) == "05" && Two(42) == "42"
  {
    assert NatToString(5) == "5";
    assert NatToString(42) == "42";
  }

  /** Numbers of two or more digits are written as `String(n)`, unpadded. */
  lemma TwoWide(n: int)
    requires n >= 10
    ensures Two(n) == NatToString(n)
  {
    NatToStringLength(n, 1);
  }

  // ----------------------------------------------------------- calendar

  predicate IsLeapYear(y: int) {
    (y % 4 == 0 && y % 100 != 0) || y % 400 == 0
  }

  /** The days of month `m` (1 to 12) of year `y` in the Gregorian
      calendar. */
  function DaysInMonth(y: int, m: int): (n: int)
    requires 1 <= m <= 12
    ensures 28 <= n <= 31
    ensures m == 2 ==> (n == 29 <==> IsLeapYear(y))
  {
    if m == 2 then (if IsLeapYear(y) then 29 else 28)
    else if m == 4 || m == 6 || m == 9 || m == 11 then 30
    else 31
  }

  /** A calendar day, as the `getUTCFullYear`, `getUTCMonth() + 1` and
      `getUTCDate` of a date read it back. */
  datatype Ymd = Ymd(year: int, month: int, day: int)

  /** Months counted from year 0, so that "a later month" is `>`. */
  function MonthIndex(y: int, m: int): int {
    12 * y + m
  }

  /** A day number below 1 counts back into the previous months. */
  function RollBack(y: int, m: int, d: int): (r: Ymd)
    requires 1 <= m <= 12
    decreases if d < 1 then 1 - d else 0
    ensures 1 <= r.month <= 12 && r.day >= 1
    ensures d < 1 ==> MonthIndex(r.year, r.month) < MonthIndex(y, m)
    ensures d >= 1 ==> r == Ymd(y, m, d)
    ensures d >= 0 ==> r.year >= y - 1
  {
    if d >= 1 then Ymd(y, m, d)
    else if m == 1 then RollBack(y - 1, 12, d + DaysInMonth(y - 1, 12))
    else RollBack(y, m - 1, d + DaysInMonth(y, m - 1))
  }

  /** A day number past the end of its month counts on into the following
      months. */
  function RollForward(y: int, m: int, d: int): (r: Ymd)
    requires 1 <= m <= 12 && d >= 1
    decreases d
    ensures 1 <= r.month <= 12 && 1 <= r.day <= DaysInMonth(r.year, r.month)
    ensures d > DaysInMonth(y, m) ==> MonthIndex(r.year, r.month) > MonthIndex(y, m)
    ensures d <= DaysInMonth(y, m) ==> r == Ymd(y, m, d)
    ensures r.year >= y
  {
    var n := DaysInMonth(y, m);
    if d <= n then Ymd(y, m, d)
    else if m == 12 then RollForward(y + 1, 1, d - n)
    else RollForward(y, m + 1, d - n)
  }

  /** `new Date(Date.UTC(y, m0, d))` read back in UTC: a year from 0 to 99
      means 1900 to 1999, the zero-based month `m0` carries into the year,
      and the day carries into the months. */
  function UtcFields(y: int, m0: int, d: int): (r: Ymd)
    ensures 1 <= r.month <= 12 && 1 <= r.day <= DaysInMonth(r.year, r.month)
  {
    var fullYear := if 0 <= y <= 99 then 1900 + y else y;
    var back := RollBack(fullYear + m0 / 12, m0 % 12 + 1, d);
    RollForward(back.year, back.month, back.day)
  }

  /** A real calendar day survives `Date.UTC` unchanged when its year is at
      least 100; any other combination of fields comes back different. */
  lemma UtcFieldsIdentity(y: int, m: int, d: int)
    requires 0 <= y && 0 <= m && 0 <= d
    ensures UtcFields(y, m - 1, d) == Ymd(y, m, d)
            <==> y >= 100 && 1 <= m <= 12 && 1 <= d <= DaysInMonth(y, m)
  {
    if y <= 99 {
      UtcTwoDigitYear(y, m, d);
    } else if 1 <= m <= 12 {
      UtcInRange(y, m, d);
    }
  }

  /** Within a month of a year from 100 on, `Date.UTC` moves a day only
      when the day is outside the month, and then to another month. */
  lemma UtcInRange(y: int, m: int, d: int)
    requires y >= 100 && 1 <= m <= 12 && 0 <= d
    ensures 1 <= d <= DaysInMonth(y, m) ==> UtcFields(y, m - 1, d) == Ymd(y, m, d)
    ensures !(1 <= d <= DaysInMonth(y, m)) ==>
      MonthIndex(UtcFields(y, m - 1, d).year, UtcFields(y, m - 1, d).month) != MonthIndex(y, m)
  {
    assert (m - 1) / 12 == 0 && (m - 1) % 12 + 1 == m;
    if d == 0 {
      DayZero(y, m);
    } else {
      assert RollBack(y, m, d) == Ymd(y, m, d);
    }
  }

  /** Day 0 is the last day of the month before. */
  lemma DayZero(y: int, m: int)
    requires y >= 100 && 1 <= m <= 12
    ensures MonthIndex(UtcFields(y, m - 1, 0).year, UtcFields(y, m - 1, 0).month) == MonthIndex(y, m) - 1
  {
    assert (m - 1) / 12 == 0 && (m - 1) % 12 + 1 == m;
    var py, pm := if m == 1 then y - 1 else y, if m == 1 then 12 else m - 1;
    var back := RollBack(y, m, 0);
    assert back == Ymd(py, pm, DaysInMonth(py, pm));
    assert RollForward(back.year, back.month, back.day) == back;
  }

  /** A year from 0 to 99 is read as 1900 to 1999 and never comes back. */
  lemma UtcTwoDigitYear(y: int, m: int, d: int)
    requires 0 <= y <= 99 && 0 <= m && 0 <= d
    ensures UtcFields(y, m - 1, d).year >= 1898
  {
    var fullYear := 1900 + y;
    assert (m - 1) / 12 >= -1;
    var back := RollBack(fullYear + (m - 1) / 12, (m - 1) % 12 + 1, d);
    assert back.year >= 1898;
  }

  // ------------------------------------------------------------ validators

  /** `^(\d{4})-(\d{2})-(\d{2})$` */
  predicate DateShape(s: string) {
    |s| == 10 && DateAt(s, 0)
  }

  function YearOf(s: string): nat requires DateShape(s) { DigitsValue(s[..4]) }
  function MonthOf(s: string): nat requires DateShape(s) { DigitsValue(s[5..7]) }
  function DayOf(s: string): nat requires DateShape(s) { DigitsValue(s[8..10]) }

  /** `isValidDateYMD`: the shape, then the fields read back through
      `Date.UTC` unchanged. */
  predicate IsValidDateYMD(s: string) {
    DateShape(s) && UtcFields(YearOf(s), MonthOf(s) - 1, DayOf(s)) == Ymd(YearOf(s), MonthOf(s), DayOf(s))
  }

  /** A date is valid exactly when it has the shape, a year of at least
      100, a month from 1 to 12 and a day within that month. Years 0000 to
      0099 are always refused. */
  lemma ValidDateIff(s: string)
    ensures IsValidDateYMD(s)
            <==> DateShape(s) && YearOf(s) >= 100 && 1 <= MonthOf(s) <= 12
                 && 1 <= DayOf(s) <= DaysInMonth(YearOf(s), MonthOf(s))
  {
    if DateShape(s) {
      UtcFieldsIdentity(YearOf(s), MonthOf(s), DayOf(s));
    }
  }

  /** `^(\d{2}):(\d{2})$` */
  predicate TimeShape(s: string) {
    |s| == 5 && DigitPairAt(s, 0) && s[2] == ':' && DigitPairAt(s, 3)
  }

  /** `isValidTimeHM`: the shape, hours below 24 and minutes below 60. */
  predicate IsValidTimeHM(s: string) {
    TimeShape(s) && DigitsValue(s[..2]) < 24 && DigitsValue(s[3..]) < 60
  }

  /** The time the editor fills in by default, `two(hours):two(minutes)`,
      passes its own validator exactly when the hour and minute are in
      range; every two-digit pair other than those is refused. */
  lemma TimeRoundTrip(h: int, m: int)
    requires 0 <= h < 100 && 0 <= m < 100
    ensures IsValidTimeHM(Two(h) + ":" + Two(m)) <==> h < 24 && m < 60
  {
    TwoRoundTrip(h);
    TwoRoundTrip(m);
    TimeOfPieces(Two(h), Two(m));
  }

  /** A time written from two pairs of digits is valid exactly when the
      pairs read as an hour and a minute in range. */
  lemma TimeOfPieces(hs: string, ms: string)
    requires |hs| == 2 && |ms| == 2 && AllDigits(hs) && AllDigits(ms)
    ensures IsValidTimeHM(hs + ":" + ms) <==> DigitsValue(hs) < 24 && DigitsValue(ms) < 60
  {
    var s := hs + ":" + ms;
    assert TimeShape(s) && s[..2] == hs && s[3..] == ms;
  }

  /** The date the editor fills in by default,
      `${year}-${two(month)}-${two(day)}`, passes its own validator for
      every real calendar day of a four-digit year. */
  lemma DefaultDateValid(y: int, m: int, d: int)
    requires 1000 <= y <= 9999 && 1 <= m <= 12 && 1 <= d <= DaysInMonth(y, m)
    ensures IsValidDateYMD(IntToString(y) + "-" + Two(m) + "-" + Two(d))
  {
    DateFields(IntToString(y) + "-" + Two(m) + "-" + Two(d), y, m, d);
  }

  lemma DatePieces(s: string, ys: string, ms: string, ds: string)
    requires |ys| == 4 && |ms| == 2 && |ds| == 2
    requires AllDigits(ys) && AllDigits(ms) && AllDigits(ds)
    requires s == ys + "-" + ms + "-" + ds
    ensures DateShape(s) && s[..4] == ys && s[5..7] == ms && s[8..10] == ds
  {
  }

  /** Whatever the digits look like, the leap day of 2024 is accepted; the
      leap day of a common year, of 1900 (a century not divisible by 400),
      the 31st of April and a thirteenth month are refused. */
  lemma DateExamples(s: string)
    requires DateShape(s)
    ensures Ymd(YearOf(s), MonthOf(s), DayOf(s)) == Ymd(2024, 2, 29) ==> IsValidDateYMD(s)
    ensures Ymd(YearOf(s), MonthOf(s), DayOf(s)) in {Ymd(2023, 2, 29), Ymd(1900, 2, 29), Ymd(2025, 4, 31), Ymd(2025, 13, 1)}
            ==> !IsValidDateYMD(s)
  {
    ValidDateIff(s);
  }

  /** The fields of a date written with `two` and four year digits. */
  lemma DateFields(s: string, y: int, m: int, d: int)
    requires 1000 <= y <= 9999 && 0 <= m < 100 && 0 <= d < 100
    requires s == IntToString(y) + "-" + Two(m) + "-" + Two(d)
    ensures DateShape(s) && YearOf(s) == y && MonthOf(s) == m && DayOf(s) == d
    ensures IsValidDateYMD(s) <==> 1 <= m <= 12 && 1 <= d <= DaysInMonth(y, m)
  {
    var ys := NatToString(y);
    NatToStringRoundTrip(y);
    NatToStringLength(y, 4);
    NatToStringLength(y, 3);
    TwoRoundTrip(m);
    TwoRoundTrip(d);
    DatePieces(s, ys, Two(m), Two(d));
    ValidDateIff(s);
  }
}
