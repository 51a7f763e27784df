/** The text operations the readers of this repository are built from. Text is a sequence of characters. */
module Text {
  import opened Wrappers

  /** White space as Unicode has it. */
  predicate IsSpace(c: char) {
    var n := c as int;
    9 <= n <= 13 || n == 32 || n == 0x85 || n == 0xA0 || n == 0x1680 || 0x2000 <= n <= 0x200A
    || n == 0x2028 || n == 0x2029 || n == 0x202F || n == 0x205F || n == 0x3000
  }

  function TrimLeft(s: string): string {
    if s != [] && IsSpace(s[0]) then TrimLeft(s[1..]) else s
  }

  function TrimRight(s: string): string {
    if s != [] && IsSpace(s[|s| - 1]) then TrimRight(s[..|s| - 1]) else s
  }

  function Trim(s: string): string {
    TrimRight(TrimLeft(s))
  }

  /** Text with no white space at either end. */
  predicate Tidy(s: string) {
    s == [] || (!IsSpace(s[0]) && !IsSpace(s[|s| - 1]))
  }

  lemma TidyTrim(s: string)
    requires Tidy(s)
    ensures Trim(s) == s
  {
  }

  predicate AllSpace(s: string) {
    forall i | 0 <= i < |s| :: IsSpace(s[i])
  }

  lemma {:induction false} TrimLeftPast(pre: string, s: string)
    requires AllSpace(pre)
    ensures TrimLeft(pre + s) == TrimLeft(s)
  {
    if pre == [] {
      assert pre + s == s;
    } else {
      assert (pre + s)[1..] == pre[1..] + s;
      TrimLeftPast(pre[1..], s);
    }
  }

  lemma {:induction false} TrimRightPast(s: string, post: string)
    requires AllSpace(post)
    ensures TrimRight(s + post) == TrimRight(s)
  {
    if post == [] {
      assert s + post == s;
    } else {
      assert (s + post)[..|s + post| - 1] == s + post[..|post| - 1];
      TrimRightPast(s, post[..|post| - 1]);
    }
  }

  /** Trimming takes the white space at both ends and nothing else. */
  lemma TrimIs(pre: string, s: string, post: string)
    requires AllSpace(pre) && Tidy(s) && AllSpace(post)
    ensures Trim(pre + s + post) == s
  {
    hide TrimLeft, TrimRight;
    assert pre + s + post == pre + (s + post);
    TrimLeftPast(pre, s + post);
    if s == [] {
      assert s + post == post && post + [] == post;
      TrimLeftPast(post, []);
      NothingTrimmed();
    } else {
      FirstStays(s + post);
      TrimRightPast(s, post);
      LastStays(s);
    }
  }

  lemma NothingTrimmed()
    ensures TrimLeft([]) == [] && TrimRight([]) == []
  {
  }

  lemma FirstStays(s: string)
    requires s != [] && !IsSpace(s[0])
    ensures TrimLeft(s) == s
  {
  }

  lemma LastStays(s: string)
    requires s != [] && !IsSpace(s[|s| - 1])
    ensures TrimRight(s) == s
  {
  }

  /** White space among the ASCII characters. */
  lemma SpacesAre(c: char)
    requires c as int < 128
    ensures IsSpace(c) <==> c as int in {9, 10, 11, 12, 13, 32}
  {
  }

  lemma {:induction false} TrimRightSplit(s: string) returns (n: nat)
    ensures n <= |s| && TrimRight(s) == s[..n]
    ensures n > 0 ==> !IsSpace(s[n - 1])
    ensures forall i | n <= i < |s| :: IsSpace(s[i])
  {
    if s != [] && IsSpace(s[|s| - 1]) {
      n := TrimRightSplit(s[..|s| - 1]);
    } else {
      n := |s|;
    }
  }

  /** Text is cut at the first of a character. */
  function Cut(s: string, c: char): (r: Option<(string, string)>)
    ensures r.Some? ==> s == r.value.0 + [c] + r.value.1 && c !in r.value.0
    ensures r.None? ==> c !in s
  {
    if s == [] then None
    else if s[0] == c then Some(([], s[1..]))
    else
      assert s == [s[0]] + s[1..];
      match Cut(s[1..], c)
      case None => None
      case Some((a, b)) =>
        assert s == ([s[0]] + a) + [c] + b;
        Some(([s[0]] + a, b))
  }

  lemma {:induction false} CutAt(a: string, c: char, b: string)
    requires c !in a
    ensures Cut(a + [c] + b, c) == Some((a, b))
  {
    if a == [] {
      assert a + [c] + b == [c] + b;
    } else {
      assert (a + [c] + b)[1..] == a[1..] + [c] + b;
      assert (a + [c] + b)[0] == a[0] && a[0] in a && a == [a[0]] + a[1..];
      CutAt(a[1..], c, b);
    }
  }

  /** A letter in upper case, as far as names written in ASCII can tell: two characters
      beyond ASCII, the dotless i and the long s, also become an ASCII letter. */
  function UpperChar(c: char): char {
    if 'a' <= c <= 'z' then (c as int - 32) as char
    else if c as int == 0x131 then 'I'
    else if c as int == 0x17F then 'S'
    else c
  }

  function Upper(s: string): (u: string)
    ensures |u| == |s| && forall i | 0 <= i < |s| :: u[i] == UpperChar(s[i])
  {
    if s == [] then [] else [UpperChar(s[0])] + Upper(s[1..])
  }

  lemma {:induction false} UpperSame(s: string)
    requires forall i | 0 <= i < |s| :: UpperChar(s[i]) == s[i]
    ensures Upper(s) == s
  {
  }

  /** The letters of the alphabet are the ones whose case changes, each to its own. */
  lemma LettersAre(i: nat)
    requires i < 26
    ensures UpperChar("abcdefghijklmnopqrstuvwxyz"[i]) == "ABCDEFGHIJKLMNOPQRSTUVWXYZ"[i]
    ensures FoldChar("abcdefghijklmnopqrstuvwxyz"[i]) == "ABCDEFGHIJKLMNOPQRSTUVWXYZ"[i]
  {
  }

  /** No other ASCII character changes. */
  lemma OthersStay(c: char)
    requires c as int < 'a' as int || 'z' as int < c as int < 128
    ensures UpperChar(c) == c && FoldChar(c) == c
  {
  }

  /** Whether two texts are the same but for the case of ASCII letters; the long s and the
      Kelvin sign are an s and a k. */
  predicate SameFold(s: string, u: string) {
    |s| == |u| && forall i | 0 <= i < |s| :: FoldChar(s[i]) == FoldChar(u[i])
  }

  function FoldChar(c: char): char {
    if 'a' <= c <= 'z' then (c as int - 32) as char
    else if c as int == 0x17F then 'S'
    else if c as int == 0x212A then 'K'
    else c
  }

  predicate Contains(s: string, part: string) {
    part <= s || (s != [] && Contains(s[1..], part))
  }
}
