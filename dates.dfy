/** Calendar dates as Python's `datetime.date` holds them, the strict
    ISO 8601 extended calendar date form `YYYY-MM-DD` that
    `date.fromisoformat` accepts, and the `%Y-%m-%d` rendering used on output. */
module Dates {
  import opened Wrappers

  datatype Date = Date(year: int, month: int, day: int)

  predicate IsLeapYear(y: int) {
    y % 4 == 0 && (y % 100 != 0 || y % 400 == 0)
  }

  function DaysInMonth(y: int, m: int): (n: int)
    requires 1 <= m <= 12
    ensures 28 <= n <= 31
    ensures n == 29 <==> m == 2 && IsLeapYear(y)
  {
    if m == 2 then (if IsLeapYear(y) then 29 else 28)
    else if m == 4 || m == 6 || m == 9 || m == 11 then 30
    else 31
  }

  /** The range of Python's `date`: years 1 to 9999 and a real day of the month. */
  predicate ValidDate(d: Date) {
    1 <= d.year <= 9999 && 1 <= d.month <= 12 && 1 <= d.day <= DaysInMonth(d.year, d.month)
  }

  type CalendarDate = d: Date | ValidDate(d) witness Date(1, 1, 1)

  /** Chronological order, which for (year, month, day) is the lexicographic order. */
  predicate Before(a: Date, b: Date) {
    a.year < b.year
    || (a.year == b.year && a.month < b.month)
    || (a.year == b.year && a.month == b.month && a.day < b.day)
  }

  predicate NotAfter(a: Date, b: Date) {
    a == b || Before(a, b)
  }

  predicate IsDigit(c: char) {
    '0' <= c <= '9'
  }

  function DigitValue(c: char): (v: int)
    requires IsDigit(c)
    ensures 0 <= v <= 9
  {
    c as int - '0' as int
  }

  function DigitChar(v: int): (c: char)
    requires 0 <= v <= 9
    ensures IsDigit(c) && DigitValue(c) == v
  {
    ('0' as int + v) as char
  }

  /** The shape `DDDD-DD-DD` with ASCII digits. */
  predicate IsIsoShape(s: string) {
    |s| == 10 && s[4] == '-' && s[7] == '-'
    && forall i :: 0 <= i < 10 && i != 4 && i != 7 ==> IsDigit(s[i])
  }

  /** The value of the digits of `s` from index `i` (inclusive) to `j` (exclusive), for at most four digits. */
  function Digits(s: string, i: nat, j: nat): (n: int)
    requires i <= j <= |s| && j - i <= 4
    requires forall k :: i <= k < j ==> IsDigit(s[k])
    ensures 0 <= n
    decreases j - i
  {
    if i == j then 0 else 10 * Digits(s, i, j - 1) + DigitValue(s[j - 1])
  }

  /** The fields a string of the ISO shape denotes, valid or not. */
  function Fields(s: string): Date
    requires IsIsoShape(s)
  {
    Date(Digits(s, 0, 4), Digits(s, 5, 7), Digits(s, 8, 10))
  }

  /** `date.fromisoformat` restricted to the extended calendar date form
      of ISO 8601: exactly `YYYY-MM-DD`, denoting an existing date. */
  function ParseIsoDate(s: string): (r: Option<CalendarDate>)
    ensures r.Some? <==> IsIsoShape(s) && ValidDate(Fields(s))
    ensures r.Some? ==> r.value == Fields(s)
  {
    if IsIsoShape(s) && ValidDate(Fields(s)) then Some(Fields(s)) else None
  }

  function Pad2(n: int): (s: string)
    requires 0 <= n <= 99
  {
    [DigitChar(n / 10), DigitChar(n % 10)]
  }

  function Pad4(n: int): (s: string)
    requires 0 <= n <= 9999
  {
    Pad2(n / 100) + Pad2(n % 100)
  }

  /** `strftime("%Y-%m-%d")` with a zero-padded four-digit year. */
  function RenderIsoDate(d: CalendarDate): (s: string)
    ensures IsIsoShape(s)
  {
    Pad4(d.year) + "-" + Pad2(d.month) + "-" + Pad2(d.day)
  }

  lemma SplitTwo(n: int)
    requires 0 <= n <= 99
    ensures 10 * (n / 10) + n % 10 == n
  {
  }

  lemma SplitFour(n: int)
    requires 0 <= n <= 9999
    ensures 1000 * (n / 100 / 10) + 100 * (n / 100 % 10) + 10 * (n % 100 / 10) + n % 100 % 10 == n
  {
    var h, l := n / 100, n % 100;
    assert n == 100 * h + l;
    SplitTwo(h);
    SplitTwo(l);
  }

  lemma JoinTwo(a: int, b: int)
    requires 0 <= a <= 9 && 0 <= b <= 9
    ensures (10 * a + b) / 10 == a && (10 * a + b) % 10 == b
  {
  }

  lemma JoinHundred(h: int, l: int)
    requires 0 <= h <= 99 && 0 <= l <= 99
    ensures (100 * h + l) / 100 == h && (100 * h + l) % 100 == l
  {
  }

  /** Reading back a rendered date yields the date itself. */
  lemma ParseRendered(d: CalendarDate)
    ensures ParseIsoDate(RenderIsoDate(d)) == Some(d)
  {
    var s := RenderIsoDate(d);
    SplitFour(d.year);
    SplitTwo(d.month);
    SplitTwo(d.day);
    assert Digits(s, 0, 4) == d.year;
    assert Digits(s, 5, 7) == d.month;
    assert Digits(s, 8, 10) == d.day;
  }

  lemma DigitRoundTrip(c: char)
    requires IsDigit(c)
    ensures DigitChar(DigitValue(c)) == c
  {
  }

  lemma TwoDigitsRendered(s: string, i: nat)
    requires i + 2 <= |s| && IsDigit(s[i]) && IsDigit(s[i + 1])
    ensures Digits(s, i, i + 2) <= 99 && Pad2(Digits(s, i, i + 2)) == s[i..i + 2]
  {
    var a, b := DigitValue(s[i]), DigitValue(s[i + 1]);
    assert Digits(s, i, i + 1) == a;
    assert Digits(s, i, i + 2) == 10 * a + b;
    JoinTwo(a, b);
    DigitRoundTrip(s[i]);
    DigitRoundTrip(s[i + 1]);
  }

  lemma FourDigitsRendered(s: string)
    requires 4 <= |s| && forall k :: 0 <= k < 4 ==> IsDigit(s[k])
    ensures Digits(s, 0, 4) <= 9999 && Pad4(Digits(s, 0, 4)) == s[..4]
  {
    var b, c, e := DigitValue(s[1]), DigitValue(s[2]), DigitValue(s[3]);
    var h := Digits(s, 0, 2);
    assert Digits(s, 0, 3) == 10 * h + c;
    assert Digits(s, 0, 4) == 100 * h + (10 * c + e);
    assert Digits(s, 2, 3) == c;
    assert Digits(s, 2, 4) == 10 * c + e;
    TwoDigitsRendered(s, 0);
    TwoDigitsRendered(s, 2);
    JoinHundred(h, Digits(s, 2, 4));
    assert s[..4] == s[0..2] + s[2..4];
  }

  /** The parser is strict: a string it accepts is exactly the rendering
      of the date it denotes, so no two strings denote the same date. */
  lemma RenderParsed(s: string)
    requires ParseIsoDate(s).Some?
    ensures RenderIsoDate(ParseIsoDate(s).value) == s
  {
    FourDigitsRendered(s);
    TwoDigitsRendered(s, 5);
    TwoDigitsRendered(s, 8);
    assert s == s[..4] + "-" + s[5..7] + "-" + s[8..10];
  }

  /** A string parses to a date exactly when it is that date's rendering. */
  lemma ParseIffRendered(s: string, d: CalendarDate)
    ensures ParseIsoDate(s) == Some(d) <==> s == RenderIsoDate(d)
  {
    if ParseIsoDate(s) == Some(d) {
      RenderParsed(s);
    }
    if s == RenderIsoDate(d) {
      ParseRendered(d);
    }
  }

  /** Slashes are not the ISO separator. */
  lemma SlashSeparatedRejected()
    ensures ParseIsoDate("2024/01/01") == None
  {
  }

  /** A well-formed string naming a day that does not exist is rejected. */
  lemma NonexistentDayRejected()
    ensures ParseIsoDate("2023-02-29") == None
  {
  }
}
