/** Calendar days: the proleptic Gregorian calendar as Go's time package keeps it, day
    numbers counted from 1 January 1970, and the two ways the repository writes a day. */
module Dates {
  import opened Wrappers

  datatype Date = Date(y: int, m: int, d: int)

  predicate IsLeap(y: int) {
    y % 4 == 0 && (y % 100 != 0 || y % 400 == 0)
  }

  function DaysIn(y: int, m: int): int
    requires 1 <= m <= 12
  {
    if m == 2 then (if IsLeap(y) then 29 else 28)
    else if m in {4, 6, 9, 11} then 30
    else 31
  }

  predicate Valid(a: Date) {
    1 <= a.m <= 12 && 1 <= a.d <= DaysIn(a.y, a.m)
  }

  function Next(a: Date): Date
    requires Valid(a)
  {
    if a.d < DaysIn(a.y, a.m) then Date(a.y, a.m, a.d + 1)
    else if a.m < 12 then Date(a.y, a.m + 1, 1)
    else Date(a.y + 1, 1, 1)
  }

  function Previous(a: Date): Date
    requires Valid(a)
  {
    if 1 < a.d then Date(a.y, a.m, a.d - 1)
    else if 1 < a.m then Date(a.y, a.m - 1, DaysIn(a.y, a.m - 1))
    else Date(a.y - 1, 12, 31)
  }

  const EPOCH := Date(1970, 1, 1)

  /** The day `n` days after 1 January 1970, by the rule of the next day. */
  function FromDay(n: int): (a: Date)
    ensures Valid(a)
    decreases if n < 0 then -n else n
  {
    if n == 0 then EPOCH else if n > 0 then Next(FromDay(n - 1)) else Previous(FromDay(n + 1))
  }

  function DaysBeforeYear(y: int): int {
    365 * (y - 1) + (y - 1) / 4 - (y - 1) / 100 + (y - 1) / 400
  }

  function DaysBeforeMonth(y: int, m: int): int
    requires 1 <= m <= 12
  {
    [0, 31, 59, 90, 120, 151, 181, 212, 243, 273, 304, 334][m - 1] + if m > 2 && IsLeap(y) then 1 else 0
  }

  /** How many days lie between 1 January 1970 and a day, in closed form. */
  function ToDay(a: Date): int
    requires 1 <= a.m <= 12
  {
    DaysBeforeYear(a.y) + DaysBeforeMonth(a.y, a.m) + a.d - 1 - 719162
  }

  lemma YearLength(y: int)
    ensures DaysBeforeYear(y + 1) == DaysBeforeYear(y) + if IsLeap(y) then 366 else 365
  {
    DivisionSteps(y);
  }

  /** A multiple of 4, 100 or 400 is where the count of such years goes up. */
  lemma DivisionSteps(y: int)
    ensures y / 4 == (y - 1) / 4 + if y % 4 == 0 then 1 else 0
    ensures y / 100 == (y - 1) / 100 + if y % 100 == 0 then 1 else 0
    ensures y / 400 == (y - 1) / 400 + if y % 400 == 0 then 1 else 0
    ensures y % 100 == 0 ==> y % 4 == 0
    ensures y % 400 == 0 ==> y % 100 == 0
  {
  }

  lemma ToDayNext(a: Date)
    requires Valid(a)
    ensures ToDay(Next(a)) == ToDay(a) + 1
    ensures Previous(Next(a)) == a
  {
    hide IsLeap, DaysBeforeYear;
    YearLength(a.y);
  }

  lemma ToDayPrevious(a: Date)
    requires Valid(a)
    ensures ToDay(Previous(a)) == ToDay(a) - 1
    ensures Next(Previous(a)) == a
  {
    hide IsLeap, DaysBeforeYear;
    YearLength(a.y - 1);
  }

  /** Counting days and reading the count back are inverse. */
  lemma {:induction false} ToDayFromDay(n: int)
    ensures ToDay(FromDay(n)) == n
    decreases if n < 0 then -n else n
  {
    if n > 0 {
      ToDayFromDay(n - 1);
      ToDayNext(FromDay(n - 1));
    } else if n < 0 {
      ToDayFromDay(n + 1);
      ToDayPrevious(FromDay(n + 1));
    }
  }

  predicate Before(a: Date, b: Date) {
    a.y < b.y || (a.y == b.y && (a.m < b.m || (a.m == b.m && a.d < b.d)))
  }

  lemma {:induction false} YearsGrow(y: int, z: int)
    requires y < z
    ensures DaysBeforeYear(y) + (if IsLeap(y) then 366 else 365) <= DaysBeforeYear(z)
    decreases z - y
  {
    YearLength(z - 1);
    if y < z - 1 {
      YearsGrow(y, z - 1);
    }
  }

  lemma ToDayGrows(a: Date, b: Date)
    requires Valid(a) && Valid(b) && Before(a, b)
    ensures ToDay(a) < ToDay(b)
  {
    if a.y < b.y {
      YearsGrow(a.y, b.y);
    }
  }

  /** Days are in the same order as their numbers. */
  lemma BeforeIffToDay(a: Date, b: Date)
    requires Valid(a) && Valid(b)
    ensures Before(a, b) <==> ToDay(a) < ToDay(b)
    ensures a == b <==> ToDay(a) == ToDay(b)
  {
    if Before(a, b) {
      ToDayGrows(a, b);
    } else if Before(b, a) {
      ToDayGrows(b, a);
    }
  }

  lemma FromDayToDay(a: Date)
    requires Valid(a)
    ensures FromDay(ToDay(a)) == a
  {
    ToDayFromDay(ToDay(a));
    BeforeIffToDay(FromDay(ToDay(a)), a);
  }

  /** The same day a year on; 29 February becomes 1 March, as adding a year normalizes it. */
  function YearLater(a: Date): (b: Date)
    requires Valid(a)
    ensures Valid(b)
  {
    if a.m == 2 && a.d == 29 then Date(a.y + 1, 3, 1) else Date(a.y + 1, a.m, a.d)
  }

  /** A year on lies at least 365 days later. */
  lemma YearLaterBy(a: Date)
    requires Valid(a)
    ensures ToDay(a) + 365 <= ToDay(YearLater(a))
  {
    hide DaysBeforeYear, IsLeap;
    YearLength(a.y);
  }

  // ---- Leap days ----

  /** Whether a day number is a 29 February. */
  predicate IsLeapDay(n: int) {
    FromDay(n).m == 2 && FromDay(n).d == 29
  }

  /** Whether the year that begins with a day has a leap day. */
  predicate LeapSpan(a: Date) {
    if a.m <= 2 then IsLeap(a.y) else IsLeap(a.y + 1)
  }

  lemma LeapApart(y: int)
    ensures !(IsLeap(y) && IsLeap(y + 1))
  {
  }

  lemma YearLaterDays(a: Date)
    requires Valid(a)
    ensures ToDay(YearLater(a)) == ToDay(a) + if LeapSpan(a) then 366 else 365
  {
    hide DaysBeforeYear, IsLeap;
    YearLength(a.y);
    LeapApart(a.y);
  }

  lemma LeapDayWithin(a: Date)
    requires Valid(a) && LeapSpan(a)
    ensures var f := Date(if a.m <= 2 then a.y else a.y + 1, 2, 29);
      Valid(f) && ToDay(a) <= ToDay(f) <= ToDay(a) + 365
  {
    hide DaysBeforeYear, IsLeap;
    YearLength(a.y);
    LeapApart(a.y);
  }

  lemma NoLeapDayWithin(a: Date, f: Date)
    requires Valid(a) && !LeapSpan(a) && Valid(f) && f.m == 2 && f.d == 29
    ensures !(ToDay(a) <= ToDay(f) <= ToDay(a) + 365)
  {
    hide ToDay, IsLeap;
    YearLaterDays(a);
    BeforeIffToDay(f, a);
    BeforeIffToDay(YearLater(a), f);
  }

  /** The same day a year on is 366 days on when one of the days up to then is a 29 February, and else 365. */
  lemma YearLaterIs(n: int)
    ensures ToDay(YearLater(FromDay(n))) == n + if exists m :: n <= m <= n + 365 && IsLeapDay(m) then 366 else 365
  {
    hide ToDay, FromDay, YearLater, LeapSpan;
    var a := FromDay(n);
    ToDayFromDay(n);
    YearLaterDays(a);
    if LeapSpan(a) {
      LeapDayWithin(a);
      var f := Date(if a.m <= 2 then a.y else a.y + 1, 2, 29);
      FromDayToDay(f);
      assert IsLeapDay(ToDay(f));
    } else {
      forall m | n <= m <= n + 365
        ensures !IsLeapDay(m)
      {
        ToDayFromDay(m);
        if IsLeapDay(m) {
          NoLeapDayWithin(a, FromDay(m));
        }
      }
    }
  }

  /** The first days of the months, and of years with and without a leap day, as day numbers. */
  lemma KnownDays()
    ensures FromDay(0) == Date(1970, 1, 1)
    ensures FromDay(19358) == Date(2023, 1, 1) && FromDay(19389) == Date(2023, 2, 1)
    ensures FromDay(19417) == Date(2023, 3, 1) && FromDay(19448) == Date(2023, 4, 1)
    ensures FromDay(19478) == Date(2023, 5, 1) && FromDay(19509) == Date(2023, 6, 1)
    ensures FromDay(19539) == Date(2023, 7, 1) && FromDay(19570) == Date(2023, 8, 1)
    ensures FromDay(19601) == Date(2023, 9, 1) && FromDay(19631) == Date(2023, 10, 1)
    ensures FromDay(19662) == Date(2023, 11, 1) && FromDay(19692) == Date(2023, 12, 1)
    ensures FromDay(19723) == Date(2024, 1, 1) && FromDay(19783) == Date(2024, 3, 1)
    ensures FromDay(11016) == Date(2000, 2, 29) && FromDay(-25509) == Date(1900, 2, 28)
    ensures FromDay(-25508) == Date(1900, 3, 1)
  {
    hide FromDay;
    FromDayToDay(EPOCH);
    forall m | 1 <= m <= 12
      ensures FromDay(ToDay(Date(2023, m, 1))) == Date(2023, m, 1)
    {
      FromDayToDay(Date(2023, m, 1));
    }
    assert FromDay(ToDay(Date(2023, 1, 1))) == Date(2023, 1, 1) && FromDay(ToDay(Date(2023, 2, 1))) == Date(2023, 2, 1);
    assert FromDay(ToDay(Date(2023, 3, 1))) == Date(2023, 3, 1) && FromDay(ToDay(Date(2023, 4, 1))) == Date(2023, 4, 1);
    assert FromDay(ToDay(Date(2023, 5, 1))) == Date(2023, 5, 1) && FromDay(ToDay(Date(2023, 6, 1))) == Date(2023, 6, 1);
    assert FromDay(ToDay(Date(2023, 7, 1))) == Date(2023, 7, 1) && FromDay(ToDay(Date(2023, 8, 1))) == Date(2023, 8, 1);
    assert FromDay(ToDay(Date(2023, 9, 1))) == Date(2023, 9, 1);
    assert FromDay(ToDay(Date(2023, 10, 1))) == Date(2023, 10, 1);
    assert FromDay(ToDay(Date(2023, 11, 1))) == Date(2023, 11, 1);
    assert FromDay(ToDay(Date(2023, 12, 1))) == Date(2023, 12, 1);
    FromDayToDay(Date(2024, 1, 1));
    FromDayToDay(Date(2024, 3, 1));
    FromDayToDay(Date(2000, 2, 29));
    FromDayToDay(Date(1900, 2, 28));
    FromDayToDay(Date(1900, 3, 1));
  }

  /** The calendar repeats after 400 years, which have 146097 days. */
  lemma FourCenturies(a: Date)
    requires Valid(a)
    ensures Valid(Date(a.y + 400, a.m, a.d)) && ToDay(Date(a.y + 400, a.m, a.d)) == ToDay(a) + 146097
  {
    CenturiesOn(a.y);
  }

  lemma CenturiesOn(y: int)
    ensures IsLeap(y + 400) == IsLeap(y) && DaysBeforeYear(y + 400) == DaysBeforeYear(y) + 146097
  {
    assert (y + 399) / 4 == (y - 1) / 4 + 100;
    assert (y + 399) / 100 == (y - 1) / 100 + 4;
    assert (y + 399) / 400 == (y - 1) / 400 + 1;
    assert (y + 400) % 4 == y % 4;
    assert (y + 400) % 100 == y % 100;
    assert (y + 400) % 400 == y % 400;
  }

  // ---- Days as text ----

  function Digit(n: int): (c: char)
    requires 0 <= n <= 9
    ensures IsDigit(c) && DigitValue(c) == n
  {
    ('0' as int + n) as char
  }

  predicate IsDigit(c: char) {
    '0' <= c <= '9'
  }

  function DigitValue(c: char): (n: int)
    requires IsDigit(c)
    ensures 0 <= n <= 9
  {
    c as int - '0' as int
  }

  function Two(n: int): string
    requires 0 <= n < 100
  {
    [Digit(n / 10), Digit(n % 10)]
  }

  function Four(n: int): string
    requires 0 <= n < 10000
  {
    Two(n / 100) + Two(n % 100)
  }

  /** A number in decimal, without padding. */
  function Decimal(n: nat): string {
    if n < 10 then [Digit(n)] else Decimal(n / 10) + [Digit(n % 10)]
  }

  /** A year as Go writes one: at least four digits, and a sign when it is below zero. */
  function YearText(y: int): string {
    if y < 0 then "-" + Padded(-y) else Padded(y)
  }

  function Padded(n: nat): string {
    if n < 10000 then Four(n) else Decimal(n)
  }

  /** YYYY-MM-DD. */
  function DayText(a: Date): string
    requires Valid(a)
  {
    YearText(a.y) + "-" + Two(a.m) + "-" + Two(a.d)
  }

  /** YYYYMMDD, as section 3.3.4 of RFC 5545 writes a DATE. */
  function CompactText(a: Date): string
    requires Valid(a)
  {
    YearText(a.y) + Two(a.m) + Two(a.d)
  }

  predicate AllDigits(s: string) {
    forall i | 0 <= i < |s| :: IsDigit(s[i])
  }

  function TwoValue(s: string): (n: int)
    requires |s| == 2 && AllDigits(s)
    ensures 0 <= n < 100 && Two(n) == s
  {
    DigitValue(s[0]) * 10 + DigitValue(s[1])
  }

  function FourValue(s: string): (n: int)
    requires |s| == 4 && AllDigits(s)
    ensures 0 <= n < 10000 && Four(n) == s
  {
    var h, l := TwoValue(s[..2]), TwoValue(s[2..]);
    assert (h * 100 + l) / 100 == h && (h * 100 + l) % 100 == l;
    assert s == s[..2] + s[2..];
    h * 100 + l
  }

  lemma TwoValueOfTwo(n: int)
    requires 0 <= n < 100
    ensures AllDigits(Two(n)) && TwoValue(Two(n)) == n
  {
    assert Two(n)[0] == Digit(n / 10) && Two(n)[1] == Digit(n % 10);
  }

  function Checked(y: string, m: string, d: string): Option<Date>
    requires |y| == 4 && |m| == 2 && |d| == 2
  {
    if AllDigits(y) && AllDigits(m) && AllDigits(d) then
      var a := Date(FourValue(y), TwoValue(m), TwoValue(d));
      if Valid(a) then Some(a) else None
    else None
  }

  /** Reads YYYYMMDD: eight digits that name a day there is. */
  function ParseCompact(s: string): (r: Option<Date>)
    ensures r.Some? ==> Valid(r.value) && 0 <= r.value.y < 10000 && CompactText(r.value) == s
  {
    if |s| != 8 then None else
      var r := Checked(s[..4], s[4..6], s[6..]);
      assert s == s[..4] + s[4..6] + s[6..];
      r
  }

  /** Reads YYYY-MM-DD. */
  function ParseDay(s: string): (r: Option<Date>)
    ensures r.Some? ==> Valid(r.value) && 0 <= r.value.y < 10000 && DayText(r.value) == s
  {
    if |s| != 10 || s[4] != '-' || s[7] != '-' then None else
      var r := Checked(s[..4], s[5..7], s[8..]);
      assert s == s[..4] + [s[4]] + s[5..7] + [s[7]] + s[8..];
      r
  }

  lemma CheckedPrinted(a: Date)
    requires Valid(a) && 0 <= a.y < 10000
    ensures Checked(Four(a.y), Two(a.m), Two(a.d)) == Some(a)
  {
    var y, m, d := Four(a.y), Two(a.m), Two(a.d);
    TwoValueOfTwo(a.m);
    TwoValueOfTwo(a.d);
    TwoValueOfTwo(a.y / 100);
    TwoValueOfTwo(a.y % 100);
    assert y[..2] == Two(a.y / 100) && y[2..] == Two(a.y % 100);
  }

  /** A day within the years of four digits is read back as written, in both forms. */
  lemma ParsePrinted(a: Date)
    requires Valid(a) && 0 <= a.y < 10000
    ensures ParseCompact(CompactText(a)) == Some(a)
    ensures ParseDay(DayText(a)) == Some(a)
  {
    CheckedPrinted(a);
    var s := CompactText(a);
    assert s[..4] == Four(a.y) && s[4..6] == Two(a.m) && s[6..] == Two(a.d);
    var u := DayText(a);
    assert u[..4] == Four(a.y) && u[5..7] == Two(a.m) && u[8..] == Two(a.d);
  }

  lemma TwoIs(n: int)
    requires 0 <= n < 100
    ensures Two(n) == [('0' as int + n / 10) as char, ('0' as int + n % 10) as char]
  {
  }

  lemma YearDigits(y: int)
    requires 0 <= y < 10000
    ensures y / 100 / 10 == y / 1000 && y % 100 / 10 == y / 10 % 10 && y % 100 % 10 == y % 10
  {
  }

  /** The digits of a day's text: year, month and day, each from its highest digit. */
  lemma TextIs(a: Date)
    requires Valid(a) && 0 <= a.y < 10000
    ensures CompactText(a) == [
      ('0' as int + a.y / 1000) as char, ('0' as int + a.y / 100 % 10) as char,
      ('0' as int + a.y / 10 % 10) as char, ('0' as int + a.y % 10) as char,
      ('0' as int + a.m / 10) as char, ('0' as int + a.m % 10) as char,
      ('0' as int + a.d / 10) as char, ('0' as int + a.d % 10) as char]
    ensures DayText(a) == CompactText(a)[..4] + "-" + CompactText(a)[4..6] + "-" + CompactText(a)[6..]
  {
    hide Two;
    TwoIs(a.y / 100);
    TwoIs(a.y % 100);
    TwoIs(a.m);
    TwoIs(a.d);
    YearDigits(a.y);
    var c := CompactText(a);
    assert c[..4] == Four(a.y) && c[4..6] == Two(a.m) && c[6..] == Two(a.d);
  }

  /** The order strings are compared in, character by character. */
  predicate TextBefore(s: string, u: string) {
    if u == [] then false
    else if s == [] then true
    else s[0] < u[0] || (s[0] == u[0] && TextBefore(s[1..], u[1..]))
  }

  lemma {:induction false} TextBeforeAppend(p: string, q: string, s: string, u: string)
    requires |p| == |q|
    ensures TextBefore(p + s, q + u) <==> TextBefore(p, q) || (p == q && TextBefore(s, u))
  {
    if p == [] {
      assert p + s == s && q + u == u;
    } else {
      assert (p + s)[1..] == p[1..] + s && (q + u)[1..] == q[1..] + u;
      TextBeforeAppend(p[1..], q[1..], s, u);
      assert p == [p[0]] + p[1..] && q == [q[0]] + q[1..];
    }
  }

  lemma TwoInOrder(m: int, n: int)
    requires 0 <= m < 100 && 0 <= n < 100
    ensures TextBefore(Two(m), Two(n)) <==> m < n
    ensures Two(m) == Two(n) <==> m == n
  {
    TwoValueOfTwo(m);
    TwoValueOfTwo(n);
    assert Two(m)[1..] == [Digit(m % 10)] && Two(n)[1..] == [Digit(n % 10)];
    assert TextBefore([Digit(m % 10)], [Digit(n % 10)]) <==> m % 10 < n % 10;
  }

  lemma FourInOrder(m: int, n: int)
    requires 0 <= m < 10000 && 0 <= n < 10000
    ensures TextBefore(Four(m), Four(n)) <==> m < n
    ensures Four(m) == Four(n) <==> m == n
  {
    TwoInOrder(m / 100, n / 100);
    TwoInOrder(m % 100, n % 100);
    TextBeforeAppend(Two(m / 100), Two(n / 100), Two(m % 100), Two(n % 100));
    if Four(m) == Four(n) {
      assert Four(m)[..2] == Two(m / 100) && Four(n)[..2] == Two(n / 100);
      assert Four(m)[2..] == Two(m % 100) && Four(n)[2..] == Two(n % 100);
    }
  }

  /** Within the years of four digits, comparing two written days as text compares the days. */
  lemma DayTextInOrder(a: Date, b: Date)
    requires Valid(a) && 0 <= a.y < 10000
    requires Valid(b) && 0 <= b.y < 10000
    ensures TextBefore(DayText(a), DayText(b)) <==> ToDay(a) < ToDay(b)
  {
    FourInOrder(a.y, b.y);
    TwoInOrder(a.m, b.m);
    TwoInOrder(a.d, b.d);
    var ra, rb := Two(a.m) + ("-" + Two(a.d)), Two(b.m) + ("-" + Two(b.d));
    assert DayText(a) == Four(a.y) + ("-" + ra) && DayText(b) == Four(b.y) + ("-" + rb);
    TextBeforeAppend(Four(a.y), Four(b.y), "-" + ra, "-" + rb);
    TextBeforeAppend("-", "-", ra, rb);
    TextBeforeAppend(Two(a.m), Two(b.m), "-" + Two(a.d), "-" + Two(b.d));
    TextBeforeAppend("-", "-", Two(a.d), Two(b.d));
    BeforeIffToDay(a, b);
  }

  lemma {:induction false} TextBeforeTotal(s: string, u: string)
    ensures TextBefore(s, u) || TextBefore(u, s) || s == u
    ensures !(TextBefore(s, u) && TextBefore(u, s)) && !TextBefore(s, s)
  {
    if s != [] {
      TextBeforeTotal(s[1..], s[1..]);
    }
    if s != [] && u != [] {
      TextBeforeTotal(s[1..], u[1..]);
      assert s == [s[0]] + s[1..] && u == [u[0]] + u[1..];
    }
  }

  lemma {:induction false} TextBeforeTransitive(s: string, u: string, w: string)
    requires TextBefore(s, u) && TextBefore(u, w)
    ensures TextBefore(s, w)
  {
    if s != [] && s[0] == u[0] == w[0] {
      TextBeforeTransitive(s[1..], u[1..], w[1..]);
    }
  }
}
