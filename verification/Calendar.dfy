/** The date check of archived notes: scripts/archived-agent-notes.ts, `validDate`,
    with the date arithmetic of ECMA-262, section 21.4.1. */
module Calendar {

  /* ---- Years and months ---- */

  predicate Leap(y: int) {
    y % 4 == 0 && (y % 100 != 0 || y % 400 == 0)
  }

  /** The number of the first day of a year, counted from 1970. */
  function DayFromYear(y: int): int {
    365 * (y - 1970) + (y - 1969) / 4 - (y - 1901) / 100 + (y - 1601) / 400
  }

  /** Leap days before the year count its own leap day only in the next year. */
  lemma YearLength(y: int)
    ensures DayFromYear(y + 1) - DayFromYear(y) == if Leap(y) then 366 else 365
  {
    Every4(y);
    Every100(y);
    Every400(y);
    CenturiesAreFourths(y);
  }

  lemma CenturiesAreFourths(y: int)
    ensures y % 100 == 0 ==> y % 4 == 0
    ensures y % 400 == 0 ==> y % 100 == 0
  {
    if y % 100 == 0 {
      assert y == 4 * (25 * (y / 100));
    }
    if y % 400 == 0 {
      assert y == 100 * (4 * (y / 400));
    }
  }

  lemma Every4(y: int)
    ensures (y + 1 - 1969) / 4 - (y - 1969) / 4 == if y % 4 == 0 then 1 else 0
  {
  }

  lemma Every100(y: int)
    ensures (y + 1 - 1901) / 100 - (y - 1901) / 100 == if y % 100 == 0 then 1 else 0
  {
  }

  lemma Every400(y: int)
    ensures (y + 1 - 1601) / 400 - (y - 1601) / 400 == if y % 400 == 0 then 1 else 0
  {
  }

  /** Months count from 0. */
  function MonthLength(month: int, leap: bool): int {
    if month == 1 then (if leap then 29 else 28)
    else if month == 3 || month == 5 || month == 8 || month == 10 then 30 else 31
  }

  /** January to December. */
  lemma MonthLengths(leap: bool)
    ensures seq(12, month requires 0 <= month < 12 => MonthLength(month, leap)) ==
            [31, if leap then 29 else 28, 31, 30, 31, 30, 31, 31, 30, 31, 30, 31]
  {
  }

  /** The day of the year on which a month starts. */
  function MonthStart(month: nat, leap: bool): int {
    if month == 0 then 0 else MonthStart(month - 1, leap) + MonthLength(month - 1, leap)
  }

  lemma YearOfMonths(leap: bool)
    ensures MonthStart(12, leap) == if leap then 366 else 365
  {
    assert MonthStart(1, leap) == 31;
    assert MonthStart(2, leap) == if leap then 60 else 59;
    assert MonthStart(4, leap) == if leap then 121 else 120;
    assert MonthStart(6, leap) == if leap then 182 else 181;
    assert MonthStart(8, leap) == if leap then 244 else 243;
    assert MonthStart(10, leap) == if leap then 305 else 304;
  }

  lemma {:induction false} MonthStartGrows(m: nat, n: nat, leap: bool)
    requires m <= n
    ensures MonthStart(m, leap) + 28 * (n - m) <= MonthStart(n, leap)
  {
    if m < n {
      MonthStartGrows(m, n - 1, leap);
    }
  }

  /* ---- Date.UTC ---- */

  /** `MakeDay`: months beyond the year carry into it, days are just added. */
  function MakeDay(year: int, month: int, date: int): int {
    DayFromYear(year + month / 12) + MonthStart(month % 12, Leap(year + month / 12)) + date - 1
  }

  /** `MakeFullYear`: two-digit years mean the twentieth century. */
  function FullYear(year: int): int {
    if 0 <= year <= 99 then 1900 + year else year
  }

  /** The day of `Date.UTC(year, month, date)`. */
  function UtcDay(year: int, month: int, date: int): int {
    MakeDay(FullYear(year), month, date)
  }

  /** Days are counted from the first of January 1970, which two-digit years reach too. */
  lemma Epoch()
    ensures UtcDay(1970, 0, 1) == 0 && UtcDay(70, 0, 1) == 0
  {
    assert DayFromYear(1970) == 0;
  }

  /** The thirteenth month is the first of the next year. */
  lemma MonthsCarry(year: int, month: int, date: int)
    ensures MakeDay(year, month + 12, date) == MakeDay(year + 1, month, date)
  {
    NextTwelve(month);
  }

  lemma NextTwelve(month: int)
    ensures (month + 12) / 12 == month / 12 + 1 && (month + 12) % 12 == month % 12
  {
  }

  /* ---- The UTC fields of a day ---- */

  lemma YearsIncrease(y: int)
    ensures DayFromYear(y - 1) < DayFromYear(y) < DayFromYear(y + 1)
  {
    YearLength(y - 1);
    YearLength(y);
  }

  /** `YearFromTime`: search for the year whose days include this one. */
  function YearNear(day: int, y: int): (r: int)
    ensures DayFromYear(r) <= day < DayFromYear(r + 1)
    decreases if day < DayFromYear(y) then 1 else 0, if day < DayFromYear(y) then DayFromYear(y) - day
      else day - DayFromYear(y)
  {
    YearsIncrease(y);
    if day < DayFromYear(y) then YearNear(day, y - 1)
    else if day < DayFromYear(y + 1) then y
    else YearNear(day, y + 1)
  }

  function UtcFullYear(day: int): (r: int)
    ensures DayFromYear(r) <= day < DayFromYear(r + 1)
  {
    YearNear(day, 1970)
  }

  /** `MonthFromTime`: the last month that has started. */
  function MonthNear(dayOfYear: int, leap: bool, m: nat): (r: nat)
    requires m < 12 && MonthStart(m, leap) <= dayOfYear < MonthStart(12, leap)
    ensures m <= r < 12 && MonthStart(r, leap) <= dayOfYear < MonthStart(r + 1, leap)
    decreases 12 - m
  {
    if dayOfYear < MonthStart(m + 1, leap) then m else MonthNear(dayOfYear, leap, m + 1)
  }

  function UtcMonth(day: int): (r: int)
    ensures 0 <= r < 12
    ensures var y := UtcFullYear(day);
            DayFromYear(y) + MonthStart(r, Leap(y)) <= day < DayFromYear(y) + MonthStart(r + 1, Leap(y))
  {
    var y := UtcFullYear(day);
    YearLength(y);
    YearOfMonths(Leap(y));
    MonthNear(day - DayFromYear(y), Leap(y), 0)
  }

  function UtcDate(day: int): int {
    var y := UtcFullYear(day);
    day - DayFromYear(y) - MonthStart(UtcMonth(day), Leap(y)) + 1
  }

  /* ---- Normalisation ---- */

  lemma {:induction false} YearsGrow(y: int, z: int)
    requires y <= z
    ensures DayFromYear(y) + 365 * (z - y) <= DayFromYear(z)
    decreases z - y
  {
    if y < z {
      YearLength(z - 1);
      YearsGrow(y, z - 1);
    }
  }

  lemma YearIsUnique(day: int, y: int)
    requires DayFromYear(y) <= day < DayFromYear(y + 1)
    ensures UtcFullYear(day) == y
  {
    var r := UtcFullYear(day);
    if r < y {
      YearsGrow(r + 1, y);
    } else if y < r {
      YearsGrow(y + 1, r);
    }
  }

  /** A date that exists: a month from 0 to 11, and a day that month has. */
  predicate Exists(year: int, month: int, date: int) {
    0 <= month < 12 && 1 <= date <= MonthLength(month, Leap(year))
  }

  lemma FieldsExist(day: int)
    ensures Exists(UtcFullYear(day), UtcMonth(day), UtcDate(day))
    ensures MakeDay(UtcFullYear(day), UtcMonth(day), UtcDate(day)) == day
  {
    MakeInYear(UtcFullYear(day), UtcMonth(day), UtcDate(day));
  }

  lemma MakeInYear(year: int, month: int, date: int)
    requires 0 <= month < 12
    ensures MakeDay(year, month, date) == DayFromYear(year) + MonthStart(month, Leap(year)) + date - 1
  {
    assert month / 12 == 0 && month % 12 == month;
  }

  lemma ExistingDayOfYear(year: int, month: int, date: int)
    requires Exists(year, month, date)
    ensures 0 <= MonthStart(month, Leap(year)) + date - 1 < MonthStart(month + 1, Leap(year))
      <= MonthStart(12, Leap(year))
  {
    MonthStartGrows(0, month, Leap(year));
    MonthStartGrows(month + 1, 12, Leap(year));
  }

  lemma MonthIsUnique(dayOfYear: int, leap: bool, m: nat, n: nat)
    requires MonthStart(m, leap) <= dayOfYear < MonthStart(m + 1, leap)
    requires MonthStart(n, leap) <= dayOfYear < MonthStart(n + 1, leap)
    ensures m == n
  {
    if m < n {
      MonthStartGrows(m + 1, n, leap);
    } else if n < m {
      MonthStartGrows(n + 1, m, leap);
    }
  }

  /** Making a day from fields and reading its fields gives them back exactly for dates that exist. */
  lemma SameFieldsIffExists(year: int, month: int, date: int)
    ensures var day := MakeDay(year, month, date);
            UtcFullYear(day) == year && UtcMonth(day) == month && UtcDate(day) == date <==> Exists(year, month, date)
  {
    var day := MakeDay(year, month, date);
    FieldsExist(day);
    if Exists(year, month, date) {
      MakeInYear(year, month, date);
      ExistingDayOfYear(year, month, date);
      YearLength(year);
      YearOfMonths(Leap(year));
      YearIsUnique(day, year);
      MonthIsUnique(day - DayFromYear(year), Leap(year), month, UtcMonth(day));
    }
  }

  /* ---- validDate ---- */

  predicate IsDigit(c: char) {
    '0' <= c <= '9'
  }

  predicate AllDigits(s: string) {
    forall i :: 0 <= i < |s| ==> IsDigit(s[i])
  }

  function Number(s: string): (r: nat)
    requires AllDigits(s)
  {
    if s == "" then 0 else Number(s[..|s| - 1]) * 10 + (s[|s| - 1] as int - '0' as int)
  }

  /** Four digits, two digits, two digits, with dashes between. */
  predicate IsoFormat(s: string) {
    |s| == 10 && AllDigits(s[..4]) && s[4] == '-' && AllDigits(s[5..7]) && s[7] == '-' && AllDigits(s[8..])
  }

  /** `validDate` */
  predicate ValidDate(s: string) {
    && IsoFormat(s)
    && KeepsFields(Number(s[..4]), Number(s[5..7]), Number(s[8..]))
  }

  /** `Date.UTC` followed by reading the fields gives the same fields. */
  predicate KeepsFields(year: nat, month: nat, day: nat) {
    var date := UtcDay(year, month - 1, day);
    UtcFullYear(date) == year && UtcMonth(date) == month - 1 && UtcDate(date) == day
  }

  /** The last `width` decimal digits. */
  function Digits(n: nat, width: nat): (s: string)
    ensures |s| == width && AllDigits(s)
  {
    if width == 0 then "" else Digits(n / 10, width - 1) + [('0' as int + n % 10) as char]
  }

  function Power(n: nat): (r: nat)
    ensures r > 0
  {
    if n == 0 then 1 else 10 * Power(n - 1)
  }

  lemma {:induction false} DigitsThenNumber(n: nat, width: nat)
    requires n < Power(width)
    ensures Number(Digits(n, width)) == n
    decreases width
  {
    if width > 0 {
      DigitsThenNumber(n / 10, width - 1);
      var s := Digits(n, width);
      assert s[..|s| - 1] == Digits(n / 10, width - 1);
    }
  }

  lemma {:induction false} NumberThenDigits(s: string)
    requires AllDigits(s)
    ensures Number(s) < Power(|s|) && Digits(Number(s), |s|) == s
  {
    if s != "" {
      var front := s[..|s| - 1];
      NumberThenDigits(front);
      assert s == front + [s[|s| - 1]];
    }
  }

  /** Year, month from 1 to 12, and day, as written in a header. */
  function Iso(year: nat, month: nat, day: nat): (s: string)
    ensures |s| == 10
  {
    Digits(year, 4) + "-" + Digits(month, 2) + "-" + Digits(day, 2)
  }

  lemma IsoParts(year: nat, month: nat, day: nat)
    requires year < 10000 && month < 100 && day < 100
    ensures var s := Iso(year, month, day);
            IsoFormat(s) && Number(s[..4]) == year && Number(s[5..7]) == month && Number(s[8..]) == day
  {
    var s := Iso(year, month, day);
    assert s[..4] == Digits(year, 4) && s[5..7] == Digits(month, 2) && s[8..] == Digits(day, 2);
    assert Power(2) == 100 && Power(4) == 10000;
    DigitsThenNumber(year, 4);
    DigitsThenNumber(month, 2);
    DigitsThenNumber(day, 2);
  }

  /** Two-digit years never survive: they are read as years after 1898. */
  lemma EarlyYearIsMoved(year: nat, month: nat, day: nat)
    requires year < 100
    ensures UtcFullYear(UtcDay(year, month - 1, day)) != year
  {
    var date, ym := UtcDay(year, month - 1, day), FullYear(year) + (month - 1) / 12;
    MonthStartGrows(0, (month - 1) % 12, Leap(ym));
    YearsGrow(1899, ym);
    YearLength(1898);
    if UtcFullYear(date) < 1898 {
      YearsGrow(UtcFullYear(date) + 1, 1898);
    }
  }

  lemma ValidFields(year: nat, month: nat, day: nat)
    ensures KeepsFields(year, month, day) <==> year >= 100 && Exists(year, month - 1, day)
  {
    if year < 100 {
      EarlyYearIsMoved(year, month, day);
    } else {
      SameFieldsIffExists(year, month - 1, day);
    }
  }

  /** A Gregorian calendar date, with months from 1 to 12. */
  predicate GregorianDate(year: int, month: int, day: int) {
    Exists(year, month - 1, day)
  }

  /** The written form of a real date from the year 100 to the year 9999. */
  predicate WritesRealDate(s: string, year: nat, month: nat, day: nat) {
    100 <= year <= 9999 && GregorianDate(year, month, day) && s == Iso(year, month, day)
  }

  /** Text in the format is written by its numbers. */
  lemma IsoOfParts(s: string)
    requires IsoFormat(s)
    ensures Number(s[..4]) < 10000 && Number(s[5..7]) < 100 && Number(s[8..]) < 100
    ensures s == Iso(Number(s[..4]), Number(s[5..7]), Number(s[8..]))
  {
    NumberThenDigits(s[..4]);
    NumberThenDigits(s[5..7]);
    NumberThenDigits(s[8..]);
    assert Power(2) == 100 && Power(4) == 10000;
    assert s == s[..4] + [s[4]] + s[5..7] + [s[7]] + s[8..];
  }

  lemma ValidDateIsWritten(s: string)
    requires ValidDate(s)
    ensures WritesRealDate(s, Number(s[..4]), Number(s[5..7]), Number(s[8..]))
  {
    IsoOfParts(s);
    WritesKept(s, Number(s[..4]), Number(s[5..7]), Number(s[8..]));
  }

  lemma WritesKept(s: string, year: nat, month: nat, day: nat)
    requires s == Iso(year, month, day) && year < 10000 && KeepsFields(year, month, day)
    ensures WritesRealDate(s, year, month, day)
  {
    ValidFields(year, month, day);
  }

  lemma WrittenDateIsValid(s: string, year: nat, month: nat, day: nat)
    requires WritesRealDate(s, year, month, day)
    ensures ValidDate(s)
  {
    IsoParts(year, month, day);
    ValidFields(year, month, day);
  }

  /** Exactly the written forms of the real dates from the year 100 to the year 9999 are accepted. */
  lemma ValidDateIsReal(s: string)
    ensures ValidDate(s) <==> exists year, month, day :: WritesRealDate(s, year, month, day)
  {
    if ValidDate(s) {
      ValidDateIsWritten(s);
    }
    if year, month, day :| WritesRealDate(s, year, month, day) {
      WrittenDateIsValid(s, year, month, day);
    }
  }

  /* ---- Order ---- */

  /** `<` on strings. */
  predicate TextLess(a: string, b: string) {
    if b == "" then false
    else if a == "" then true
    else a[0] < b[0] || (a[0] == b[0] && TextLess(a[1..], b[1..]))
  }

  /** A text is less than every longer one that starts with it. */
  lemma {:induction false} PrefixIsLess(a: string, b: string)
    ensures TextLess(a, a + b) <==> b != ""
  {
    if a == "" {
      assert a + b == b;
    } else {
      assert (a + b)[1..] == a[1..] + b;
      PrefixIsLess(a[1..], b);
    }
  }

  lemma {:induction false} LessByParts(a: string, b: string, c: string, d: string)
    requires |a| == |c|
    ensures TextLess(a + b, c + d) <==> TextLess(a, c) || (a == c && TextLess(b, d))
  {
    if a == "" {
      assert a + b == b && c + d == d;
    } else {
      LessByParts(a[1..], b, c[1..], d);
      assert (a + b)[1..] == a[1..] + b && (c + d)[1..] == c[1..] + d;
      assert a == [a[0]] + a[1..] && c == [c[0]] + c[1..];
    }
  }

  lemma LessChar(a: char, b: char)
    ensures TextLess([a], [b]) <==> a < b
  {
  }

  lemma SameDigits(m: nat, n: nat, width: nat)
    requires m < Power(width) && n < Power(width)
    ensures Digits(m, width) == Digits(n, width) <==> m == n
  {
    DigitsThenNumber(m, width);
    DigitsThenNumber(n, width);
  }

  lemma {:induction false} LessDigits(m: nat, n: nat, width: nat)
    requires m < Power(width) && n < Power(width)
    ensures TextLess(Digits(m, width), Digits(n, width)) <==> m < n
    decreases width
  {
    if width > 0 {
      var x, y := ('0' as int + m % 10) as char, ('0' as int + n % 10) as char;
      LessDigits(m / 10, n / 10, width - 1);
      SameDigits(m / 10, n / 10, width - 1);
      LessByParts(Digits(m / 10, width - 1), [x], Digits(n / 10, width - 1), [y]);
      LessChar(x, y);
    }
  }

  /** Year before month before day. */
  predicate FieldsLess(year: nat, month: nat, day: nat, year': nat, month': nat, day': nat) {
    year < year' || (year == year' && (month < month' || (month == month' && day < day')))
  }

  lemma LessIso(year: nat, month: nat, day: nat, year': nat, month': nat, day': nat)
    requires year < 10000 && month < 100 && day < 100 && year' < 10000 && month' < 100 && day' < 100
    ensures TextLess(Iso(year, month, day), Iso(year', month', day')) <==>
      FieldsLess(year, month, day, year', month', day')
  {
    assert Power(2) == 100 && Power(4) == 10000;
    var y, m, d := Digits(year, 4), Digits(month, 2), Digits(day, 2);
    var y', m', d' := Digits(year', 4), Digits(month', 2), Digits(day', 2);
    LessByParts(y + "-" + m + "-", d, y' + "-" + m' + "-", d');
    LessByParts(y + "-" + m, "-", y' + "-" + m', "-");
    LessByParts(y + "-", m, y' + "-", m');
    LessByParts(y, "-", y', "-");
    SamePrefix(y, y', "-");
    SamePrefix(y + "-", y' + "-", m);
    LessDigits(year, year', 4);
    LessDigits(month, month', 2);
    LessDigits(day, day', 2);
    SameDigits(year, year', 4);
    SameDigits(month, month', 2);
    assert !TextLess("-", "-");
    SameTriple(y, m, y', m');
  }

  lemma SamePrefix(a: string, b: string, more: string)
    ensures a + more == b + more <==> a == b
  {
    assert |a| == |b| ==> (a + more)[..|a|] == a && (b + more)[..|b|] == b;
  }

  lemma SameTriple(y: string, m: string, y': string, m': string)
    requires |y| == |y'| && |m| == |m'|
    ensures y + "-" + m == y' + "-" + m' <==> y == y' && m == m'
    ensures y + "-" + m + "-" == y' + "-" + m' + "-" <==> y == y' && m == m'
  {
    SamePrefix(y + "-" + m, y' + "-" + m', "-");
    var a, b := y + "-" + m, y' + "-" + m';
    assert a[..|y|] == y && b[..|y|] == y' && a[|y| + 1..] == m && b[|y| + 1..] == m';
  }

  lemma DayInYear(year: nat, month: nat, day: nat)
    requires GregorianDate(year, month, day)
    ensures var date := MakeDay(year, month - 1, day);
            && DayFromYear(year) <= date < DayFromYear(year + 1)
            && date == DayFromYear(year) + MonthStart(month - 1, Leap(year)) + day - 1
            && date < DayFromYear(year) + MonthStart(month, Leap(year))
  {
    MakeInYear(year, month - 1, day);
    ExistingDayOfYear(year, month - 1, day);
    YearLength(year);
    YearOfMonths(Leap(year));
  }

  lemma EarlierYear(year: nat, month: nat, day: nat, year': nat, month': nat, day': nat)
    requires GregorianDate(year, month, day) && GregorianDate(year', month', day') && year < year'
    ensures MakeDay(year, month - 1, day) < MakeDay(year', month' - 1, day')
  {
    DayInYear(year, month, day);
    DayInYear(year', month', day');
    YearsGrow(year + 1, year');
  }

  lemma LaterInYear(year: nat, month: nat, day: nat, month': nat, day': nat)
    requires GregorianDate(year, month, day) && GregorianDate(year, month', day')
    requires month < month' || (month == month' && day < day')
    ensures MakeDay(year, month - 1, day) < MakeDay(year, month' - 1, day')
  {
    MakeInYear(year, month - 1, day);
    MakeInYear(year, month' - 1, day');
    LaterDayOfYear(month, day, month', day', Leap(year));
  }

  lemma LaterDayOfYear(month: nat, day: nat, month': nat, day': nat, leap: bool)
    requires 1 <= month && 1 <= month' && 1 <= day <= MonthLength(month - 1, leap) && 1 <= day'
    requires month < month' || (month == month' && day < day')
    ensures MonthStart(month - 1, leap) + day < MonthStart(month' - 1, leap) + day'
  {
    if month < month' {
      MonthStartGrows(month, month' - 1, leap);
    }
  }

  lemma LessDays(year: nat, month: nat, day: nat, year': nat, month': nat, day': nat)
    requires GregorianDate(year, month, day) && GregorianDate(year', month', day')
    requires FieldsLess(year, month, day, year', month', day')
    ensures MakeDay(year, month - 1, day) < MakeDay(year', month' - 1, day')
  {
    if year < year' {
      EarlierYear(year, month, day, year', month', day');
    } else {
      LaterInYear(year, month, day, month', day');
    }
  }

  /** Comparing two texts in the format, whether or not such dates exist, compares
      their years, months and days in turn. */
  lemma TextOrderIsFieldOrder(s: string, s': string)
    requires IsoFormat(s) && IsoFormat(s')
    ensures TextLess(s, s') <==>
            FieldsLess(Number(s[..4]), Number(s[5..7]), Number(s[8..]), Number(s'[..4]), Number(s'[5..7]),
              Number(s'[8..]))
  {
    IsoOfParts(s);
    IsoOfParts(s');
    LessIso(Number(s[..4]), Number(s[5..7]), Number(s[8..]), Number(s'[..4]), Number(s'[5..7]), Number(s'[8..]));
  }

  /** Comparing two valid dates as text compares them in time. */
  lemma TextOrderIsTimeOrder(s: string, year: nat, month: nat, day: nat, s': string, year': nat, month': nat, day': nat)
    requires WritesRealDate(s, year, month, day) && WritesRealDate(s', year', month', day')
    ensures TextLess(s, s') <==> MakeDay(year, month - 1, day) < MakeDay(year', month' - 1, day')
  {
    LessIso(year, month, day, year', month', day');
    if FieldsLess(year, month, day, year', month', day') {
      LessDays(year, month, day, year', month', day');
    } else if FieldsLess(year', month', day', year, month, day) {
      LessDays(year', month', day', year, month, day);
    }
  }
}
