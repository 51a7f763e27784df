/** The text of an iCalendar file: physical lines, folding, content lines, and the values holidays are read from. */
module IcsText {
  import opened Wrappers
  import opened Text
  import opened Dates

  const MAX_ICS_BYTES := 1048576

  /** An upload: it may break off, or not be UTF-8, in which case only its size is known. */
  datatype Body = Broken | NotUtf8(size: nat) | Utf8(text: string)

  datatype Refusal =
    | Unreadable | TooLarge | BadEncoding | NotACalendar | NoEvents
    | TimeOfDay(value: string) | NotADay(value: string) | PartOfADay(value: string) | NotALength(value: string)
    | Repeats | NoStart | EndsBeforeItStarts | CoversTooMuch | HoldsTooMuch

  function Utf8Width(c: char): nat {
    var n := c as int;
    if n < 0x80 then 1 else if n < 0x800 then 2 else if n < 0x10000 then 3 else 4
  }

  function Utf8Size(s: string): nat {
    if s == [] then 0 else Utf8Width(s[0]) + Utf8Size(s[1..])
  }

  // ---- Lines ----

  function Split(s: string): seq<string>
    decreases |s|
  {
    match Cut(s, '\n')
    case None => [s]
    case Some((line, rest)) => [line] + Split(rest)
  }

  function DropMark(s: string): string {
    if s != [] && s[0] as int == 0xFEFF then s[1..] else s
  }

  function Chop(raw: string): string {
    if raw != [] && raw[|raw| - 1] == '\r' then raw[..|raw| - 1] else raw
  }

  predicate Continues(line: string) {
    line != [] && (line[0] == ' ' || line[0] == '\t')
  }

  /** What one physical line does to the lines so far: it carries on the last, is blank, or begins another. */
  function AddLine(lines: seq<string>, raw: string): seq<string> {
    var line := Chop(raw);
    if Continues(line) && lines != [] then lines[..|lines| - 1] + [lines[|lines| - 1] + line[1..]]
    else if Trim(line) == "" then lines
    else lines + [line]
  }

  function AddLines(lines: seq<string>, raws: seq<string>): seq<string>
    decreases raws
  {
    if raws == [] then lines else AddLines(AddLine(lines, raws[0]), raws[1..])
  }

  function Unfolded(text: string): seq<string> {
    AddLines([], Split(DropMark(text)))
  }

  /** Refuses a body in the order the failures are looked for, and otherwise gives its unfolded lines. */
  method Unfold(body: Body) returns (r: Result<seq<string>, Refusal>)
    ensures r == match body
      case Broken => Err(Unreadable)
      case NotUtf8(size) => Err(if size > MAX_ICS_BYTES then TooLarge else BadEncoding)
      case Utf8(text) => if Utf8Size(text) > MAX_ICS_BYTES then Err(TooLarge) else Ok(Unfolded(text))
  {
    match body {
      case Broken =>
        return Err(Unreadable);
      case NotUtf8(size) =>
        return Err(if size > MAX_ICS_BYTES then TooLarge else BadEncoding);
      case Utf8(text) =>
        if Utf8Size(text) > MAX_ICS_BYTES {
          return Err(TooLarge);
        }
        var raws := Split(DropMark(text));
        var lines: seq<string> := [];
        for i := 0 to |raws|
          invariant AddLines(lines, raws[i..]) == AddLines([], raws)
        {
          hide Trim;
          ghost var was := lines;
          assert raws[i..][0] == raws[i] && raws[i..][1..] == raws[i + 1..];
          var line := raws[i];
          if line != [] && line[|line| - 1] == '\r' {
            line := line[..|line| - 1];
          }
          if Continues(line) && |lines| > 0 {
            lines := lines[..|lines| - 1] + [lines[|lines| - 1] + line[1..]];
            continue;
          }
          if Trim(line) == "" {
            continue;
          }
          lines := lines + [line];
        }
        return Ok(lines);
    }
  }

  // ---- Content lines ----

  datatype Content = Content(name: string, params: string, value: string)

  /** Where the first colon outside quotes stands, from `i` on. */
  function ColonFrom(line: string, i: nat, quoted: bool): Option<nat>
    requires i <= |line|
    decreases |line| - i
  {
    if i == |line| then None
    else if line[i] == '"' then ColonFrom(line, i + 1, !quoted)
    else if line[i] == ':' && !quoted then Some(i)
    else ColonFrom(line, i + 1, quoted)
  }

  /** The name and parameters before the colon; without a semicolon there are no parameters. */
  function HeadOf(head: string): (string, string) {
    match Cut(head, ';')
    case None => (head, "")
    case Some((name, params)) => (name, params)
  }

  function ContentOf(line: string): Content {
    match ColonFrom(line, 0, false)
    case None => Content(Upper(Trim(line)), "", "")
    case Some(i) =>
      if i < |line| then
        var (name, params) := HeadOf(line[..i]);
        Content(Upper(Trim(name)), params, line[i + 1..])
      else Content("", "", "")
  }

  lemma {:induction false} ColonInside(line: string, i: nat, quoted: bool)
    requires i <= |line|
    ensures ColonFrom(line, i, quoted).Some? ==> ColonFrom(line, i, quoted).value < |line|
    decreases |line| - i
  {
    if i < |line| {
      ColonInside(line, i + 1, !quoted);
      ColonInside(line, i + 1, quoted);
    }
  }

  /** Agrees with ContentOf: the scan keeps track of quotes and stops at the colon they do not cover. */
  method ContentLine(line: string) returns (name: string, params: string, value: string)
    ensures Content(name, params, value) == ContentOf(line)
  {
    var quoted := false;
    for i := 0 to |line|
      invariant ColonFrom(line, i, quoted) == ColonFrom(line, 0, false)
    {
      var c := line[i];
      if c == '"' {
        quoted := !quoted;
      } else if c == ':' && !quoted {
        var head := HeadOf(line[..i]);
        return Upper(Trim(head.0)), head.1, line[i + 1..];
      }
    }
    return Upper(Trim(line)), "", "";
  }

  // ---- Values ----

  /** The day eight digits name; a value with a T in it, or a parameter that announces one, is a time of day. */
  function IcsDate(params: string, value: string): Result<Date, Refusal> {
    var v := Trim(value);
    if Contains(v, "T") || Contains(Upper(params), "VALUE=DATE-TIME") then Err(TimeOfDay(v))
    else
      match ParseCompact(v)
      case None => Err(NotADay(v))
      case Some(d) => Ok(d)
  }

  function DigitsLength(s: string): (n: nat)
    ensures n <= |s|
  {
    if s != [] && IsDigit(s[0]) then 1 + DigitsLength(s[1..]) else 0
  }

  /** Digits before a letter, and what follows it; none when the text does not begin so. */
  function CountBefore(s: string, unit: char): (string, string) {
    var n := DigitsLength(s);
    if 0 < n < |s| && s[n] == unit then (s[..n], s[n + 1..]) else ("", s)
  }

  function DecimalValue(s: string): nat {
    if s == [] then 0
    else DecimalValue(s[..|s| - 1]) * 10 + if IsDigit(s[|s| - 1]) then DigitValue(s[|s| - 1]) else 0
  }

  /** A count as Go's Atoi reads it: no digits are zero, and too many the largest 64-bit integer. */
  function Atoi(s: string): nat {
    if DecimalValue(s) < 0x8000_0000_0000_0000 then DecimalValue(s) else 0x7FFF_FFFF_FFFF_FFFF
  }

  /** A 64-bit result, wrapped as Go's integers wrap. */
  function Wrap64(n: int): int {
    (n + 0x8000_0000_0000_0000) % 0x1_0000_0000_0000_0000 - 0x8000_0000_0000_0000
  }

  /** The days in a length of weeks and days, after section 3.3.6 of RFC 5545; one that goes on to hours
      is refused. */
  function IcsDuration(value: string): Result<int, Refusal> {
    var v := Upper(Trim(value));
    var unsigned := if v != [] && v[0] == '+' then v[1..] else v;
    if unsigned == [] || unsigned[0] != 'P' then Err(NotALength(v))
    else if Contains(v, "T") then Err(PartOfADay(v))
    else
      var (weeks, rest) := CountBefore(unsigned[1..], 'W');
      var (days, end) := CountBefore(rest, 'D');
      if end != [] || (weeks == [] && days == []) then Err(NotALength(v))
      else Ok(Wrap64(Atoi(weeks) * 7 + Atoi(days)))
  }

  /** What a TEXT value says before its ends are trimmed: a backslash takes the next character as it is,
      but n is a space. */
  function Unescaped(s: string): string {
    if s == [] then []
    else if s[0] != '\\' || |s| == 1 then [s[0]] + Unescaped(s[1..])
    else [if s[1] == 'n' || s[1] == 'N' then ' ' else s[1]] + Unescaped(s[2..])
  }

  lemma UnescapedFrom(s: string, i: nat)
    requires i <= |s|
    ensures i == |s| ==> Unescaped(s[i..]) == []
    ensures i < |s| && (s[i] != '\\' || i == |s| - 1) ==> Unescaped(s[i..]) == [s[i]] + Unescaped(s[i + 1..])
    ensures i < |s| && s[i] == '\\' && i < |s| - 1 ==>
      Unescaped(s[i..]) == [if s[i + 1] == 'n' || s[i + 1] == 'N' then ' ' else s[i + 1]] + Unescaped(s[i + 2..])
  {
    if i < |s| {
      assert s[i..][1..] == s[i + 1..];
      if i + 1 < |s| {
        assert s[i..][2..] == s[i + 2..] && s[i..][1] == s[i + 1];
      }
    }
  }

  /** Agrees with Unescaped, its ends trimmed: every backslash but a last one takes a character with it. */
  method UnescapeText(s: string) returns (r: string)
    ensures r == Trim(Unescaped(s))
  {
    hide Unescaped, Trim;
    var b: string := [];
    var i := 0;
    assert s[0..] == s;
    while i < |s|
      invariant i <= |s|
      invariant b + Unescaped(s[i..]) == Unescaped(s)
    {
      UnescapedFrom(s, i);
      if s[i] != '\\' || i == |s| - 1 {
        b := b + [s[i]];
        i := i + 1;
        continue;
      }
      i := i + 1;
      b := b + [if s[i] == 'n' || s[i] == 'N' then ' ' else s[i]];
      i := i + 1;
    }
    UnescapedFrom(s, i);
    assert b == Unescaped(s);
    return Trim(b);
  }
}
