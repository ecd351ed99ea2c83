/** Proleptic Gregorian calendar dates as the browser's `Date` object presents
    them (`getFullYear`, `getMonth`, `getDate`, `getDay`), the `YYYY-MM-DD`
    text of `toISOString().split('T')[0]`, and ages in whole years. Months are
    numbered 1..12 here; the source's 0-based `getMonth` is shifted by one. */
module Dates {
  import opened Seqs

  datatype CivilDate = CivilDate(year: int, month: int, day: int)

  predicate IsLeap(y: int)
  {
    y % 4 == 0 && (y % 100 != 0 || y % 400 == 0)
  }

  /** Days in a month; the source computes it as `new Date(y, m + 1, 0).getDate()`. */
  function DaysInMonth(y: int, m: int): (n: int)
    requires 1 <= m <= 12
    ensures 28 <= n <= 31
    ensures m == 2 ==> (n == 29 <==> IsLeap(y))
  {
    if m == 2 then (if IsLeap(y) then 29 else 28)
    else if m == 4 || m == 6 || m == 9 || m == 11 then 30
    else 31
  }

  predicate ValidDate(d: CivilDate)
  {
    1 <= d.month <= 12 && 1 <= d.day <= DaysInMonth(d.year, d.month)
  }

  /** Days of year `y` before the first of month `m`. */
  function DaysBeforeMonth(y: int, m: int): (n: int)
    requires 1 <= m <= 13
    ensures 0 <= n <= 31 * (m - 1)
  {
    if m == 1 then 0 else DaysBeforeMonth(y, m - 1) + DaysInMonth(y, m - 1)
  }

  /** Days from 0001-01-01 to the first of January of year `y`. */
  function DaysBeforeYear(y: int): int
  {
    365 * (y - 1) + (y - 1) / 4 - (y - 1) / 100 + (y - 1) / 400
  }

  function YearLength(y: int): (n: int)
    ensures n == 365 || n == 366
    ensures n == 366 <==> IsLeap(y)
  {
    var feb := DaysInMonth(y, 2);
    assert DaysBeforeMonth(y, 3) == 31 + feb;
    assert DaysBeforeMonth(y, 5) == 61 + 31 + feb;
    assert DaysBeforeMonth(y, 7) == 122 + 31 + feb;
    assert DaysBeforeMonth(y, 9) == 184 + 31 + feb;
    assert DaysBeforeMonth(y, 11) == 245 + 31 + feb;
    assert DaysBeforeMonth(y, 13) == 306 + 31 + feb;
    DaysBeforeMonth(y, 13)
  }

  /** Consecutive years are `YearLength` days apart. */
  lemma YearStep(y: int)
    ensures DaysBeforeYear(y + 1) == DaysBeforeYear(y) + YearLength(y)
  {
    var q4, q100, q400 := (y - 1) / 4, (y - 1) / 100, (y - 1) / 400;
    assert y / 4 == (if y % 4 == 0 then q4 + 1 else q4);
    assert y / 100 == (if y % 100 == 0 then q100 + 1 else q100);
    assert y / 400 == (if y % 400 == 0 then q400 + 1 else q400);
  }

  /** The number of days since 0001-01-01. */
  function DayNumber(d: CivilDate): int
    requires ValidDate(d)
  {
    DaysBeforeYear(d.year) + DaysBeforeMonth(d.year, d.month) + d.day - 1
  }

  /** The calendar day after `d`. */
  function NextDay(d: CivilDate): (r: CivilDate)
    requires ValidDate(d)
    ensures ValidDate(r)
  {
    if d.day < DaysInMonth(d.year, d.month) then CivilDate(d.year, d.month, d.day + 1)
    else if d.month < 12 then CivilDate(d.year, d.month + 1, 1)
    else CivilDate(d.year + 1, 1, 1)
  }

  /** Day numbers count days: the next day is exactly one further. */
  lemma NextDayNumber(d: CivilDate)
    requires ValidDate(d)
    ensures DayNumber(NextDay(d)) == DayNumber(d) + 1
  {
    if d.day == DaysInMonth(d.year, d.month) && d.month == 12 {
      YearStep(d.year);
    }
  }

  /** `getDay()`: 0 for Sunday through 6 for Saturday; 0001-01-01 was a Monday. */
  function Weekday(d: CivilDate): (w: int)
    requires ValidDate(d)
    ensures 0 <= w < 7
  {
    (DayNumber(d) + 1) % 7
  }

  lemma WeekdayStep(d: CivilDate)
    requires ValidDate(d)
    ensures Weekday(NextDay(d)) == (Weekday(d) + 1) % 7
  {
    NextDayNumber(d);
    ModSucc(DayNumber(d) + 1);
  }

  lemma ModSucc(n: int)
    ensures (n + 1) % 7 == (n % 7 + 1) % 7
  {
    var q, r := n / 7, n % 7;
    assert n == 7 * q + r;
    if r == 6 {
      assert n + 1 == 7 * (q + 1);
    } else {
      assert n + 1 == 7 * q + (r + 1);
    }
  }

  /** Two dates the calendar shows as anchors. */
  lemma WeekdayExamples()
    ensures Weekday(CivilDate(1970, 1, 1)) == 4
    ensures Weekday(CivilDate(2024, 2, 29)) == 4
    ensures Weekday(CivilDate(2026, 10, 1)) == 4
    ensures Weekday(CivilDate(2026, 11, 1)) == 0
  {
  }

  /** Lexicographic order of (year, month, day). */
  predicate Before(a: CivilDate, b: CivilDate)
  {
    a.year < b.year ||
    (a.year == b.year && (a.month < b.month || (a.month == b.month && a.day < b.day)))
  }

  /** The age calculation of the player profile: year difference, minus one
      when this year's birthday (same month and day) has not come yet. */
  function Age(birth: CivilDate, today: CivilDate): int
  {
    var age := today.year - birth.year;
    var m := today.month - birth.month;
    if m < 0 || (m == 0 && today.day < birth.day) then age - 1 else age
  }

  /** The `n`-th birthday, written on the calendar of year `birth.year + n`. */
  function Anniversary(birth: CivilDate, n: int): CivilDate
  {
    CivilDate(birth.year + n, birth.month, birth.day)
  }

  /** The age is the number of birthdays reached: the `Age`-th anniversary is
      not after today, and the next one is. */
  lemma AgeIsAnniversaryCount(birth: CivilDate, today: CivilDate)
    ensures !Before(today, Anniversary(birth, Age(birth, today)))
    ensures Before(today, Anniversary(birth, Age(birth, today) + 1))
  {
  }

  /** Someone born on or before `today` has a non-negative age. */
  lemma AgeNonNegative(birth: CivilDate, today: CivilDate)
    requires !Before(today, birth)
    ensures Age(birth, today) >= 0
  {
  }

  function DigitChar(n: int): (c: char)
    requires 0 <= n < 10
    ensures '0' <= c <= '9'
  {
    ['0', '1', '2', '3', '4', '5', '6', '7', '8', '9'][n]
  }

  predicate IsDigit(c: char)
  {
    '0' <= c <= '9'
  }

  function DigitValue(c: char): (n: int)
    requires IsDigit(c)
    ensures 0 <= n < 10 && DigitChar(n) == c
  {
    (c as int) - ('0' as int)
  }

  /** `n` written with exactly `width` decimal digits, zero-padded. */
  function Pad(n: int, width: nat): (s: string)
    requires 0 <= n
    ensures |s| == width
    ensures forall i :: 0 <= i < |s| ==> IsDigit(s[i])
  {
    if width == 0 then [] else Pad(n / 10, width - 1) + [DigitChar(n % 10)]
  }

  /** The value of a string of decimal digits. */
  function DigitsValue(s: string): (n: int)
    requires forall i :: 0 <= i < |s| ==> IsDigit(s[i])
    ensures 0 <= n
  {
    if s == [] then 0 else 10 * DigitsValue(s[..|s| - 1]) + DigitValue(s[|s| - 1])
  }

  function Pow10(k: nat): (p: int)
    ensures p >= 1
  {
    if k == 0 then 1 else 10 * Pow10(k - 1)
  }

  lemma {:induction false} PadValue(n: int, width: nat)
    requires 0 <= n < Pow10(width)
    ensures DigitsValue(Pad(n, width)) == n
  {
    if width > 0 {
      PadValue(n / 10, width - 1);
      var s := Pad(n, width);
      assert s[..|s| - 1] == Pad(n / 10, width - 1);
      DigitCharValue(n % 10);
      assert DigitsValue(s) == 10 * (n / 10) + n % 10;
    }
  }

  lemma DigitCharValue(n: int)
    requires 0 <= n < 10
    ensures DigitValue(DigitChar(n)) == n
  {
  }

  lemma {:induction false} ValuePad(s: string)
    requires forall i :: 0 <= i < |s| ==> IsDigit(s[i])
    ensures DigitsValue(s) < Pow10(|s|)
    ensures Pad(DigitsValue(s), |s|) == s
  {
    if s != [] {
      var init := s[..|s| - 1];
      ValuePad(init);
      var n := DigitsValue(s);
      assert n / 10 == DigitsValue(init) && n % 10 == DigitValue(s[|s| - 1]);
      assert s == init + [s[|s| - 1]];
    }
  }

  /** `toISOString().split('T')[0]`: `YYYY-MM-DD`. */
  function IsoDate(d: CivilDate): (s: string)
    requires ValidDate(d) && 0 <= d.year <= 9999
    ensures |s| == 10 && s[4] == '-' && s[7] == '-'
  {
    Pad(d.year, 4) + "-" + Pad(d.month, 2) + "-" + Pad(d.day, 2)
  }

  predicate IsoShape(s: string)
  {
    |s| == 10 && s[4] == '-' && s[7] == '-' &&
    (forall i :: 0 <= i < 4 ==> IsDigit(s[i])) &&
    IsDigit(s[5]) && IsDigit(s[6]) && IsDigit(s[8]) && IsDigit(s[9])
  }

  /** Reads a `YYYY-MM-DD` string back; anything else, including a day the
      month does not have, is `None`. */
  function ParseIsoDate(s: string): (r: Option<CivilDate>)
    ensures r.Some? ==> ValidDate(r.value) && 0 <= r.value.year <= 9999
  {
    if !IsoShape(s) then None
    else
      var d := CivilDate(DigitsValue(s[..4]), DigitsValue(s[5..7]), DigitsValue(s[8..10]));
      ValuePad(s[..4]);
      if ValidDate(d) then Some(d) else None
  }

  /** Formatting then reading a date gives the date back. */
  lemma ParseIsoDateOfIsoDate(d: CivilDate)
    requires ValidDate(d) && 0 <= d.year <= 9999
    ensures ParseIsoDate(IsoDate(d)) == Some(d)
  {
    var s := IsoDate(d);
    assert s[..4] == Pad(d.year, 4);
    assert s[5..7] == Pad(d.month, 2);
    assert s[8..10] == Pad(d.day, 2);
    PadValue(d.year, 4);
    PadValue(d.month, 2);
    PadValue(d.day, 2);
  }

  /** Reading then formatting gives the same text: the textual form is unique. */
  lemma IsoDateOfParseIsoDate(s: string)
    requires ParseIsoDate(s).Some?
    ensures IsoDate(ParseIsoDate(s).value) == s
  {
    var d := ParseIsoDate(s).value;
    ValuePad(s[..4]);
    ValuePad(s[5..7]);
    ValuePad(s[8..10]);
    assert Pad(d.year, 4) == s[..4] && Pad(d.month, 2) == s[5..7] && Pad(d.day, 2) == s[8..10];
    IsoPieces(s);
  }

  lemma IsoPieces(s: string)
    requires |s| == 10 && s[4] == '-' && s[7] == '-'
    ensures s == s[..4] + "-" + s[5..7] + "-" + s[8..10]
  {
    var t := s[..4] + "-" + s[5..7] + "-" + s[8..10];
    assert |t| == 10;
    forall i | 0 <= i < 10
      ensures t[i] == s[i]
    {
      if i < 4 {
      } else if i == 4 {
      } else if i < 7 {
      } else if i == 7 {
      } else {
      }
    }
  }
}
