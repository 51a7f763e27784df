/** A position in the primary's write-ahead log and its textual form, two hexadecimal numbers around a slash. */
module Lsn {
  import opened Wrappers
  import opened Text

  const HALF := 0x1_0000_0000

  type LSN = n: nat | n < 0x1_0000_0000_0000_0000

  function HexDigit(d: int): char
    requires 0 <= d < 16
  {
    if d < 10 then ('0' as int + d) as char else ('A' as int + (d - 10)) as char
  }

  predicate IsHex(c: char) {
    '0' <= c <= '9' || 'a' <= c <= 'f' || 'A' <= c <= 'F'
  }

  function HexOf(c: char): (d: int)
    requires IsHex(c)
    ensures 0 <= d < 16 && HexDigit(d) == UpperChar(c)
  {
    if c <= '9' then c as int - '0' as int
    else if c <= 'F' then c as int - 'A' as int + 10
    else c as int - 'a' as int + 10
  }

  predicate AllHex(s: string) {
    forall i | 0 <= i < |s| :: IsHex(s[i])
  }

  /** The number hexadecimal digits write. */
  function Value(s: string): nat
    requires AllHex(s)
  {
    if s == [] then 0 else 16 * Value(s[..|s| - 1]) + HexOf(s[|s| - 1])
  }

  /** A number in upper-case hexadecimal without padding. */
  function HexText(n: nat): string {
    if n < 16 then [HexDigit(n)] else HexText(n / 16) + [HexDigit(n % 16)]
  }

  function Zeros(n: nat): string {
    if n == 0 then [] else "0" + Zeros(n - 1)
  }

  function Padded(s: string, width: nat): string {
    if |s| < width then Zeros(width - |s|) + s else s
  }

  /** Renders a position. */
  function Print(l: LSN): string {
    HexText(l / HALF) + "/" + Padded(HexText(l % HALF), 8)
  }

  /** Reads one half: hexadecimal digits in either case, at least one, of a number that fits 32 bits. */
  function ParseHalf(s: string): Option<nat> {
    if s != [] && AllHex(s) && Value(s) < HALF then Some(Value(s)) else None
  }

  function Joined(h: nat, l: nat): nat {
    h * 0x1_0000_0000 + l
  }

  /** Reads a position; spaces around it do not matter. */
  function Parse(s: string): Option<LSN> {
    match Cut(Trim(s), '/')
    case None => None
    case Some((hi, lo)) =>
      match ParseHalf(hi)
      case None => None
      case Some(h) =>
        match ParseHalf(lo)
        case None => None
        case Some(l) => Some(Joined(h, l))
  }

  // ---- What is printed is read back ----

  lemma {:induction false} HexTextValue(n: nat)
    ensures AllHex(HexText(n)) && Value(HexText(n)) == n && HexText(n) != []
  {
    if n >= 16 {
      var s := HexText(n / 16);
      HexTextValue(n / 16);
      assert (s + [HexDigit(n % 16)])[..|s|] == s;
    }
  }

  lemma {:induction false} ZerosValue(k: nat, s: string)
    requires AllHex(s)
    ensures AllHex(Zeros(k) + s) && Value(Zeros(k) + s) == Value(s)
    decreases k, |s|
  {
    var z := Zeros(k);
    if s != [] {
      var t := s[..|s| - 1];
      ZerosValue(k, t);
      assert (z + s)[..|z + s| - 1] == z + t;
    } else if k > 0 {
      assert z + s == z;
      ZerosSnoc(k);
      ZerosValue(k - 1, []);
      assert z[..|z| - 1] == Zeros(k - 1) == Zeros(k - 1) + [];
    }
  }

  lemma {:induction false} ZerosSnoc(k: nat)
    requires k > 0
    ensures Zeros(k) == Zeros(k - 1) + "0" && |Zeros(k)| == k
    ensures AllHex(Zeros(k))
  {
    if k > 1 {
      ZerosSnoc(k - 1);
    }
  }

  lemma PaddedHalf(n: nat)
    requires n < HALF
    ensures ParseHalf(HexText(n)) == Some(n) && ParseHalf(Padded(HexText(n), 8)) == Some(n)
  {
    var s := HexText(n);
    HexTextValue(n);
    if |s| < 8 {
      ZerosValue(8 - |s|, s);
    }
  }

  lemma HexNoSpace(s: string)
    requires AllHex(s)
    ensures '/' !in s && forall i | 0 <= i < |s| :: !IsSpace(s[i])
  {
  }

  /** Every 64-bit position is read back from its text. */
  lemma ParsePrint(l: LSN)
    ensures Parse(Print(l)) == Some(l)
  {
    hide HexText, Padded, Value, Trim;
    var hi, lo := HexText(l / HALF), Padded(HexText(l % HALF), 8);
    PaddedHalf(l / HALF);
    PaddedHalf(l % HALF);
    HexNoSpace(hi);
    HexNoSpace(lo);
    TidyTrim(Print(l));
    CutAt(hi, '/', lo);
  }

  // ---- What is read is printed in its canonical form ----

  function StripZeros(s: string): string {
    if s != [] && s[0] == '0' then StripZeros(s[1..]) else s
  }

  /** A half without leading zeros, in upper case: a single zero when nothing else is left. */
  function Bare(s: string): string {
    if StripZeros(s) == [] then "0" else Upper(StripZeros(s))
  }

  /** The one way a position is written: the high half bare, the low half padded to eight digits. */
  function Canonical(hi: string, lo: string): string {
    Bare(hi) + "/" + Padded(Bare(lo), 8)
  }

  lemma {:induction false} StripZerosValue(s: string)
    requires AllHex(s)
    ensures AllHex(StripZeros(s)) && Value(StripZeros(s)) == Value(s)
    ensures StripZeros(s) != [] ==> StripZeros(s)[0] != '0'
  {
    if s != [] && s[0] == '0' {
      StripZerosValue(s[1..]);
      ZerosValue(1, s[1..]);
      assert s == Zeros(1) + s[1..];
    }
  }

  lemma {:induction false} UpperSnoc(s: string, c: char)
    ensures Upper(s + [c]) == Upper(s) + [UpperChar(c)]
  {
  }

  /** Digits that do not begin with a zero are the text of their number. */
  lemma {:induction false} HexTextOfValue(s: string)
    requires s != [] && AllHex(s) && s[0] != '0'
    ensures HexText(Value(s)) == Upper(s) && Value(s) > 0
  {
    hide Upper;
    var n := |s| - 1;
    var d := HexOf(s[n]);
    assert s == s[..n] + [s[n]];
    UpperSnoc(s[..n], s[n]);
    if n == 0 {
      assert Value(s) == d;
    } else {
      HexTextOfValue(s[..n]);
      var v := Value(s[..n]);
      assert Value(s) == 16 * v + d && (16 * v + d) / 16 == v && (16 * v + d) % 16 == d;
    }
  }

  lemma BareValue(s: string)
    requires s != [] && AllHex(s)
    ensures HexText(Value(s)) == Bare(s)
  {
    StripZerosValue(s);
    if StripZeros(s) != [] {
      HexTextOfValue(StripZeros(s));
    }
  }

  /** Whatever text a position was read from, printing it gives that text's canonical form. */
  lemma PrintParse(s: string)
    requires Parse(s).Some?
    ensures Cut(Trim(s), '/').Some?
    ensures var (hi, lo) := Cut(Trim(s), '/').value; Print(Parse(s).value) == Canonical(hi, lo)
  {
    var (hi, lo) := Cut(Trim(s), '/').value;
    hide Value, HexText, Bare, Padded, Trim, Cut, AllHex;
    Halves(Value(hi), Value(lo));
    BareValue(hi);
    BareValue(lo);
  }

  lemma Halves(h: nat, l: nat)
    requires l < HALF
    ensures Joined(h, l) / HALF == h && Joined(h, l) % HALF == l
  {
  }

  lemma {:induction false} HexTextLength(n: nat, k: nat)
    requires 1 <= k <= 8
    ensures |HexText(n)| <= k <==> n < Power16(k)
  {
    if n >= 16 && k > 1 {
      HexTextLength(n / 16, k - 1);
    } else if n >= 16 {
      HexTextValue(n / 16);
    } else if k > 1 {
      HexTextLength(n, k - 1);
    }
  }

  function Power16(k: nat): nat {
    if k == 0 then 1 else 16 * Power16(k - 1)
  }

  /** Exactly which texts are read: two runs of hexadecimal digits around the first slash,
      neither with more than eight digits once its leading zeros are dropped. */
  lemma ParseAccepts(s: string)
    ensures Parse(s).Some? <==>
      match Cut(Trim(s), '/')
      case None => false
      case Some((hi, lo)) =>
        && hi != [] && AllHex(hi) && |Bare(hi)| <= 8
        && lo != [] && AllHex(lo) && |Bare(lo)| <= 8
  {
    match Cut(Trim(s), '/') {
      case None =>
      case Some((hi, lo)) =>
        assert Power16(8) == HALF;
        if hi != [] && AllHex(hi) {
          BareValue(hi);
          HexTextLength(Value(hi), 8);
        }
        if lo != [] && AllHex(lo) {
          BareValue(lo);
          HexTextLength(Value(lo), 8);
        }
    }
  }

  // ---- Which number a position is ----

  /** The digits, in order of what they count. */
  lemma DigitsAre(d: int)
    requires 0 <= d < 16
    ensures HexDigit(d) == "0123456789ABCDEF"[d] && HexOf(HexDigit(d)) == d
    ensures HexOf("0123456789abcdef"[d]) == d
  {
  }

  lemma NextDigit(s: string, d: int)
    requires AllHex(s) && 0 <= d < 16
    ensures AllHex(s + ["0123456789ABCDEF"[d]]) && AllHex(s + ["0123456789abcdef"[d]])
    ensures Value(s + ["0123456789ABCDEF"[d]]) == 16 * Value(s) + d
    ensures Value(s + ["0123456789abcdef"[d]]) == 16 * Value(s) + d
  {
    DigitsAre(d);
    assert (s + ["0123456789ABCDEF"[d]])[..|s|] == s && (s + ["0123456789abcdef"[d]])[..|s|] == s;
  }

  /** The first half counts in units of 2^32, and the second in ones; white space around them does not count. */
  lemma ParseIs(pre: string, hi: string, lo: string, post: string)
    requires AllSpace(pre) && AllSpace(post)
    requires AllHex(hi) && hi != [] && Value(hi) < 0x1_0000_0000
    requires AllHex(lo) && lo != [] && Value(lo) < 0x1_0000_0000
    ensures Parse(pre + (hi + "/" + lo) + post) == Some(Value(hi) * 0x1_0000_0000 + Value(lo))
  {
    hide Value, AllHex, AllSpace, Trim, ParseHalf;
    var s := hi + "/" + lo;
    HexTidy(hi, lo);
    TrimIs(pre, s, post);
    assert s == hi + ['/'] + lo;
    CutAt(hi, '/', lo);
    HalfIs(hi);
    HalfIs(lo);
  }

  lemma HalfIs(s: string)
    requires AllHex(s) && s != [] && Value(s) < 0x1_0000_0000
    ensures ParseHalf(s) == Some(Value(s))
  {
  }

  lemma HexTidy(hi: string, lo: string)
    requires AllHex(hi) && AllHex(lo)
    ensures Tidy(hi + "/" + lo) && '/' !in hi
  {
    HexNoSpace(hi);
    HexNoSpace(lo);
  }
}
