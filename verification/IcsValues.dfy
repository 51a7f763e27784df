/** What single lines and values of a calendar file come to, case by case. */
module IcsValues {
  import opened Wrappers
  import opened Text
  import opened Dates
  import opened IcsText
  import opened IcsImport
  import opened IcsPrinted
  import opened IcsHolidays

  // ---- Lines ----

  /** A line that is all white space is dropped, unless it carries on the line before it. */
  lemma BlankIsDropped(lines: seq<string>, raw: string)
    requires AllSpace(raw) && (lines == [] || !Continues(raw))
    ensures AddLine(lines, raw) == lines
  {
    hide Trim;
    TrimIs(Chop(raw), "", "");
    assert Chop(raw) + "" + "" == Chop(raw);
  }

  /** The colon that ends a line's head is the first that stands outside quotes; a line without one is all name. */
  lemma ColonIs(line: string)
    ensures var r := ColonFrom(line, 0, false);
      && (r.None? <==> QuotesAfter(line, false).Some?)
      && (r.Some? ==> r.value < |line| && line[r.value] == ':' && QuotesAfter(line[..r.value], false) == Some(false))
    ensures QuotesAfter(line, false).Some? ==> ContentOf(line) == Content(Upper(Trim(line)), "", "")
  {
    hide Upper, Trim;
    ColonAfter(line, 0, false);
    assert line[0..] == line;
  }

  lemma {:induction false} ColonAfter(line: string, i: nat, quoted: bool)
    requires i <= |line|
    ensures var r := ColonFrom(line, i, quoted);
      && (r.None? <==> QuotesAfter(line[i..], quoted).Some?)
      && (r.Some? ==>
            && i <= r.value < |line| && line[r.value] == ':'
            && QuotesAfter(line[i..r.value], quoted) == Some(false))
    decreases |line| - i
  {
    if i < |line| {
      assert line[i..][1..] == line[i + 1..];
      var q := if line[i] == '"' then !quoted else quoted;
      ColonAfter(line, i + 1, q);
      var r := ColonFrom(line, i, quoted);
      if r.Some? && r.value > i {
        assert line[i..r.value][1..] == line[i + 1..r.value];
      }
    }
  }

  // ---- Sizes ----

  /** A character takes as many bytes as its number needs: seven bits in one, and five for each of more and
      one besides. */
  lemma WidthIs(c: char)
    ensures var (w, n) := (Utf8Width(c), c as int);
      && 1 <= w <= 4
      && (w == 1 <==> n < 0x80)
      && (w > 1 ==> n < [0x80, 0x800, 0x1_0000, 0x20_0000][w - 1] && n >= [0x80, 0x800, 0x1_0000, 0x20_0000][w - 2])
  {
  }

  lemma {:induction false} SizeIs(s: string, c: char, t: string)
    ensures Utf8Size(s + [c] + t) == Utf8Size(s) + Utf8Width(c) + Utf8Size(t)
  {
    if s == [] {
      assert s + [c] + t == [c] + t && ([c] + t)[1..] == t;
    } else {
      assert (s + [c] + t)[1..] == s[1..] + [c] + t;
      SizeIs(s[1..], c, t);
    }
  }

  // ---- Names ----

  /** Escaped text is one line: each newline in it a space, and everything else as it was. */
  lemma {:induction false} OneLineIs(s: string)
    ensures |OneLine(s)| == |s|
    ensures forall i | 0 <= i < |s| :: OneLine(s)[i] == if s[i] as int == 10 then ' ' else s[i]
  {
    if s != [] {
      OneLineIs(s[1..]);
    }
  }

  lemma {:induction false} TrimLeftBegins(s: string)
    ensures TrimLeft(s) != [] ==> !IsSpace(TrimLeft(s)[0])
  {
    if s != [] {
      TrimLeftBegins(s[1..]);
    }
  }

  lemma TrimTidy(s: string)
    ensures Tidy(Trim(s))
  {
    hide TrimLeft, TrimRight, IsSpace;
    TrimLeftBegins(s);
    var n := TrimRightSplit(TrimLeft(s));
  }

  /** A holiday is named by what its event says, trimmed; by the word for one when that says nothing; and by no
      more than its first hundred characters, less any white space they end in. */
  lemma NameIs(summary: string)
    ensures var (s, name) := (Trim(summary), HolidayName(summary));
      && (s == "" ==> name == "Holiday")
      && (s != "" && |s| <= 100 ==> name == s)
      && (|s| > 100 ==> name != "" && name <= s[..100] && AllSpace(s[..100][|name|..]) && Tidy(name))
  {
    hide TrimLeft, TrimRight;
    var s := Trim(summary);
    if |s| > 100 {
      TrimTidy(summary);
      FirstStays(s[..100]);
      var n := TrimRightSplit(s[..100]);
    }
  }

  // ---- Days ----

  /** A value is a day exactly when it is one written as eight digits, white space around it aside, and its
      parameters do not make it a time of day; a T in it makes it one whatever else it holds. */
  lemma DateIs(params: string, value: string)
    ensures var (r, v) := (IcsDate(params, value), Trim(value));
      && (Contains(v, "T") || Contains(Upper(params), "VALUE=DATE-TIME") ==> r == Err(TimeOfDay(v)))
      && (!Contains(v, "T") && !Contains(Upper(params), "VALUE=DATE-TIME") ==>
            if exists d :: Writable(d) && v == CompactText(d) then r.Ok? && v == CompactText(r.value)
            else r == Err(NotADay(v)))
  {
    hide Trim, Contains, Upper, CompactText, ParseCompact;
    if d :| Writable(d) && Trim(value) == CompactText(d) {
      ParsePrinted(d);
    }
  }

  // ---- Lengths ----

  lemma CountIs(s: string, unit: char)
    requires !IsDigit(unit)
    ensures var (a, b) := CountBefore(s, unit);
      if a == [] then b == s else AllDigits(a) && s == a + [unit] + b
  {
    hide IsDigit;
    DigitsFirst(s);
    var n := DigitsLength(s);
    if 0 < n < |s| && s[n] == unit {
      assert s == s[..n] + [s[n]] + s[n + 1..];
    }
  }

  lemma {:induction false} DigitsFirst(s: string)
    ensures AllDigits(s[..DigitsLength(s)])
  {
    if s != [] && IsDigit(s[0]) {
      DigitsFirst(s[1..]);
      assert s[..DigitsLength(s)] == [s[0]] + s[1..][..DigitsLength(s[1..])];
    }
  }

  /** A count of some unit as it is written, or nothing. */
  predicate Counted(a: string, unit: char, text: string) {
    if a == "" then text == "" else AllDigits(a) && text == a + [unit]
  }

  lemma LengthParts(u: string, weeks: string, rest: string, days: string) returns (w: string, d: string)
    requires u != [] && u[0] == 'P'
    requires CountBefore(u[1..], 'W') == (weeks, rest) && CountBefore(rest, 'D') == (days, [])
    ensures Counted(weeks, 'W', w) && Counted(days, 'D', d) && u == "P" + w + d
  {
    hide CountBefore, AllDigits, IsDigit;
    assert !IsDigit('W') && !IsDigit('D') by {
      UnitsAre();
    }
    CountIs(u[1..], 'W');
    CountIs(rest, 'D');
    w, d := if weeks == [] then [] else weeks + ['W'], if days == [] then [] else days + ['D'];
    assert rest == d;
    assert u[1..] == w + d && u == ['P'] + u[1..];
  }

  lemma UnitsAre()
    ensures !IsDigit('W') && !IsDigit('D')
  {
  }

  function Unsigned(v: string): string {
    if v != [] && v[0] == '+' then v[1..] else v
  }

  /** Lengths are of weeks and days, at least one of them, after an optional sign and a P. */
  lemma LengthsAre(value: string) returns (weeks: string, w: string, days: string, d: string)
    requires IcsDuration(value).Ok?
    ensures Counted(weeks, 'W', w) && Counted(days, 'D', d) && (weeks != "" || days != "")
    ensures Upper(Trim(value)) == "P" + w + d || Upper(Trim(value)) == "+" + ("P" + w + d)
    ensures IcsDuration(value) == Ok(Wrap64(Atoi(weeks) * 7 + Atoi(days)))
  {
    hide Trim, Upper, Contains, CountBefore, Atoi, Wrap64, Counted;
    var v := Upper(Trim(value));
    var u := Unsigned(v);
    var (a, rest) := CountBefore(u[1..], 'W');
    var (b, end) := CountBefore(rest, 'D');
    weeks, days := a, b;
    w, d := LengthParts(u, a, rest, b);
    assert v == u || v == "+" + u;
  }

  /** What begins as a length but goes on to hours is part of a day; what does not begin as one is no length. */
  lemma LengthsRefused(value: string)
    ensures var v := Upper(Trim(value));
      if "P" <= v || "+P" <= v then Contains(v, "T") ==> IcsDuration(value) == Err(PartOfADay(v))
      else IcsDuration(value) == Err(NotALength(v))
  {
    hide Trim, Upper, Contains, CountBefore;
  }

  /** Weeks are seven days; weeks and days add up. */
  lemma WeeksRead(weeks: nat, days: nat)
    requires 7 * weeks + days < 0x8000_0000_0000_0000
    ensures IcsDuration("P" + Decimal(weeks) + "W") == Ok(7 * weeks)
    ensures IcsDuration("P" + Decimal(weeks) + "W" + Decimal(days) + "D") == Ok(7 * weeks + days)
    ensures IcsDuration("+P" + Decimal(weeks) + "W" + Decimal(days) + "D") == Ok(7 * weeks + days)
  {
    hide Decimal, IcsDuration, Counts;
    var w, d := Decimal(weeks), Decimal(days);
    DecimalDigits(weeks);
    DecimalDigits(days);
    CountsRead(w, "", "");
    CountsRead(w, d, "");
    CountsRead(w, d, "+");
    assert "" + "P" + w + "W" + "" == "P" + w + "W";
    assert "" + "P" + w + "W" + (d + "D") == "P" + w + "W" + d + "D";
    assert "+" + "P" + w + "W" + (d + "D") == "+P" + w + "W" + d + "D";
    CountsAre(w, "", weeks, 0);
    CountsAre(w, d, weeks, days);
  }

  /** A count that does not fit 64 bits is taken for the largest that does, and a length in days that does not
      fit wraps around. */
  lemma LongLengths(weeks: nat, days: nat)
    ensures var r := IcsDuration("P" + Decimal(weeks) + "W" + Decimal(days) + "D");
      && r.Ok? && -0x8000_0000_0000_0000 <= r.value <= 0x7FFF_FFFF_FFFF_FFFF
      && (7 * Least(weeks) + Least(days) - r.value) % 0x1_0000_0000_0000_0000 == 0
  {
    hide Decimal, IcsDuration, Counts;
    var w, d := Decimal(weeks), Decimal(days);
    DecimalDigits(weeks);
    DecimalDigits(days);
    CountsRead(w, d, "");
    assert "" + "P" + w + "W" + (d + "D") == "P" + w + "W" + d + "D";
    CountsWrap(w, d, weeks, days);
  }

  function Least(n: nat): nat {
    if n <= 0x7FFF_FFFF_FFFF_FFFF then n else 0x7FFF_FFFF_FFFF_FFFF
  }

  lemma CountsWrap(w: string, d: string, weeks: nat, days: nat)
    requires DecimalValue(w) == weeks && DecimalValue(d) == days
    ensures -0x8000_0000_0000_0000 <= Counts(w, d) <= 0x7FFF_FFFF_FFFF_FFFF
    ensures (7 * Least(weeks) + Least(days) - Counts(w, d)) % 0x1_0000_0000_0000_0000 == 0
  {
    hide DecimalValue;
  }

  function Counts(w: string, d: string): int {
    Wrap64(Atoi(w) * 7 + Atoi(d))
  }

  lemma CountsAre(w: string, d: string, weeks: nat, days: nat)
    requires DecimalValue(w) == weeks && DecimalValue(d) == days && 7 * weeks + days < 0x8000_0000_0000_0000
    ensures Counts(w, d) == 7 * weeks + days
  {
    hide DecimalValue;
    WrapSmall(7 * weeks + days);
  }

  lemma CountsRead(w: string, d: string, sign: string)
    requires AllDigits(w) && w != [] && AllDigits(d) && (sign == "" || sign == "+")
    ensures IcsDuration(sign + "P" + w + "W" + if d == "" then "" else d + "D") == Ok(Counts(w, d))
  {
    hide Trim, Upper, Contains, CountBefore, IcsDuration, AllDigits;
    var tail := if d == "" then "" else d + "D";
    var u := "P" + w + "W" + tail;
    PlainLength(w, d, sign);
    assert sign + u == sign + "P" + w + "W" + tail;
    assert u[1..] == w + ['W'] + tail;
    CountRead(w, 'W', tail);
    if d == "" {
      NoneRead();
    } else {
      CountRead(d, 'D', "");
      assert tail == d + ['D'] + "";
    }
    DurationFrom(sign + u, u, w, tail, d);
  }

  lemma CountRead(digits: string, unit: char, rest: string)
    requires AllDigits(digits) && digits != [] && (unit == 'W' || unit == 'D')
    ensures CountBefore(digits + [unit] + rest, unit) == (digits, rest)
  {
    hide AllDigits;
    DigitsRun(digits, unit, rest);
    var s := digits + [unit] + rest;
    assert s[..|digits|] == digits && s[|digits|] == unit && s[|digits| + 1..] == rest;
  }

  lemma NoneRead()
    ensures CountBefore("", 'D') == ("", "")
  {
  }

  lemma DurationFrom(v: string, u: string, weeks: string, rest: string, days: string)
    requires Upper(Trim(v)) == v && !Contains(v, "T") && u != [] && u[0] == 'P' && (v == u || v == "+" + u)
    requires CountBefore(u[1..], 'W') == (weeks, rest) && CountBefore(rest, 'D') == (days, "") && weeks != ""
    ensures IcsDuration(v) == Ok(Counts(weeks, days))
  {
    hide Trim, Upper, Contains, CountBefore, Atoi, Wrap64;
    assert Unsigned(v) == u;
  }

  lemma PlainLength(w: string, d: string, sign: string)
    requires AllDigits(w) && AllDigits(d) && (sign == "" || sign == "+")
    ensures var v := sign + "P" + w + "W" + if d == "" then "" else d + "D";
      Upper(Trim(v)) == v && !Contains(v, "T")
  {
    hide Trim, Upper, Contains, TrimLeft, TrimRight;
    var v := sign + "P" + w + "W" + if d == "" then "" else d + "D";
    assert forall c | c in v :: c == '+' || c == 'P' || c == 'W' || c == 'D' || IsDigit(c);
    LengthTidy(v);
    TidyTrim(v);
    UpperSame(v);
    LacksStart(v, "T");
  }

  lemma LengthTidy(v: string)
    requires v != "" && forall c | c in v :: c == '+' || c == 'P' || c == 'W' || c == 'D' || IsDigit(c)
    ensures Tidy(v) && 'T' !in v && forall i | 0 <= i < |v| :: UpperChar(v[i]) == v[i]
  {
    assert v[0] in v && v[|v| - 1] in v;
    assert forall i | 0 <= i < |v| :: v[i] in v;
  }
}
