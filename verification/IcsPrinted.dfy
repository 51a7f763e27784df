/** Calendar files as they are written: content lines, components inside events, and folding;
    and that reading undoes each. */
module IcsPrinted {
  import opened Wrappers
  import opened Text
  import opened Dates
  import opened IcsText
  import opened IcsImport

  // ---- Text values ----

  function EscapedChar(c: char): string {
    if c == '\n' then "\\n" else if c == '\\' || c == ';' || c == ',' then ['\\', c] else [c]
  }

  /** A text with the escapes of section 3.3.11 of RFC 5545. */
  function Escaped(s: string): string {
    if s == [] then [] else EscapedChar(s[0]) + Escaped(s[1..])
  }

  /** A text with each newline turned into a space. */
  function OneLine(s: string): string {
    if s == [] then [] else [if s[0] == '\n' then ' ' else s[0]] + OneLine(s[1..])
  }

  lemma {:induction false} UnescapedEscaped(s: string)
    ensures Unescaped(Escaped(s)) == OneLine(s)
  {
    if s != [] {
      UnescapedEscaped(s[1..]);
      var e, rest := EscapedChar(s[0]), Escaped(s[1..]);
      if |e| == 1 {
        assert ([s[0]] + rest)[1..] == rest;
      } else {
        assert (e + rest)[2..] == rest;
      }
    }
  }

  // ---- Content lines ----

  function PropertyLine(name: string, params: string, value: string): string {
    name + (if params == "" then "" else ";" + params) + ":" + value
  }

  /** A name none of whose characters end it. */
  predicate GoodName(name: string) {
    forall i | 0 <= i < |name| :: name[i] != ':' && name[i] != ';' && name[i] != '"'
  }

  /** Whether a stretch of text leaves quotes open, given whether they were; none when a colon stands outside them. */
  function QuotesAfter(s: string, quoted: bool): Option<bool> {
    if s == [] then Some(quoted)
    else if s[0] == '"' then QuotesAfter(s[1..], !quoted)
    else if s[0] == ':' && !quoted then None
    else QuotesAfter(s[1..], quoted)
  }

  /** Parameters whose colons all stand inside quotes that close. */
  predicate GoodParams(params: string) {
    QuotesAfter(params, false) == Some(false)
  }

  lemma {:induction false} ColonPast(pre: string, part: string, post: string, quoted: bool)
    requires QuotesAfter(part, quoted).Some?
    ensures ColonFrom(pre + part + post, |pre|, quoted)
      == ColonFrom(pre + part + post, |pre| + |part|, QuotesAfter(part, quoted).value)
    decreases part
  {
    if part != [] {
      assert pre + part + post == (pre + [part[0]]) + part[1..] + post;
      ColonPast(pre + [part[0]], part[1..], post, if part[0] == '"' then !quoted else quoted);
    }
  }

  lemma {:induction false} NameQuotes(name: string)
    requires GoodName(name)
    ensures QuotesAfter(name, false) == Some(false)
  {
    if name != [] {
      NameQuotes(name[1..]);
    }
  }

  /** A content line is read as the name, parameters and value it was written from. */
  lemma ContentOfProperty(name: string, params: string, value: string)
    requires GoodName(name) && GoodParams(params)
    ensures ContentOf(PropertyLine(name, params, value)) == Content(Upper(Trim(name)), params, value)
  {
    hide Upper, Trim, QuotesAfter, GoodName;
    var line := PropertyLine(name, params, value);
    var tail := if params == "" then "" else ";" + params;
    var head := name + tail;
    assert line == head + ":" + value;
    HeadQuotes(name, params);
    assert [] + head + (":" + value) == line;
    ColonPast([], head, ":" + value, false);
    assert line[|head|] == ':' && line[..|head|] == head && line[|head| + 1..] == value;
    assert ColonFrom(line, 0, false) == Some(|head|);
    if params == "" {
      assert head == name;
      NoSemicolon(name);
    } else {
      assert head == name + [';'] + params;
      NoSemicolon(name);
      CutAt(name, ';', params);
    }
  }

  lemma NoSemicolon(name: string)
    requires GoodName(name)
    ensures ';' !in name && Cut(name, ';') == None
  {
  }

  lemma HeadQuotes(name: string, params: string)
    requires GoodName(name) && GoodParams(params)
    ensures QuotesAfter(name + if params == "" then "" else ";" + params, false) == Some(false)
  {
    NameQuotes(name);
    var tail := if params == "" then "" else ";" + params;
    assert params != "" ==> tail[1..] == params;
    QuotesAppend(name, tail, false);
  }

  lemma {:induction false} QuotesAppend(p: string, q: string, quoted: bool)
    requires QuotesAfter(p, quoted).Some?
    ensures QuotesAfter(p + q, quoted) == QuotesAfter(q, QuotesAfter(p, quoted).value)
    decreases p
  {
    if p == [] {
      assert p + q == q;
    } else {
      assert (p + q)[1..] == p[1..] + q;
      QuotesAppend(p[1..], q, if p[0] == '"' then !quoted else quoted);
    }
  }

  // ---- Components ----

  /** What stands inside a component: a property, or a component of its own, such as an alarm. */
  datatype Item = Prop(name: string, params: string, value: string) | Nested(kind: string, items: seq<Item>)

  function LinesOf(items: seq<Item>): seq<string>
    decreases items
  {
    if items == [] then [] else ItemLines(items[0]) + LinesOf(items[1..])
  }

  function ItemLines(item: Item): seq<string>
    decreases item
  {
    match item
    case Prop(name, params, value) => [PropertyLine(name, params, value)]
    case Nested(kind, items) => [PropertyLine("BEGIN", "", kind)] + LinesOf(items) + [PropertyLine("END", "", kind)]
  }

  function NameOf(name: string): string {
    Upper(Trim(name))
  }

  predicate GoodItems(items: seq<Item>)
    decreases items
  {
    items == [] || (GoodItem(items[0]) && GoodItems(items[1..]))
  }

  predicate GoodItem(item: Item)
    decreases item
  {
    match item
    case Prop(name, params, _) =>
      GoodName(name) && GoodParams(params) && NameOf(name) != "BEGIN" && NameOf(name) != "END"
    case Nested(_, items) => GoodItems(items)
  }

  /** Reading on after a line that may have been refused. */
  function ScanOn(r: Result<Scan, Refusal>, more: seq<string>): Result<Scan, Refusal> {
    match r
    case Err(x) => Err(x)
    case Ok(s) => ScanLines(s, more)
  }

  /** Reading on with an event that may have been refused. */
  function ScanWith(s: Scan, e: Result<IcsEvent, Refusal>, more: seq<string>): Result<Scan, Refusal> {
    match e
    case Err(x) => Err(x)
    case Ok(v) => ScanLines(s.(current := Some(v)), more)
  }

  lemma ScanFirst(s: Scan, line: string, more: seq<string>)
    ensures ScanLines(s, [line] + more) == ScanOn(ScanLine(s, line), more)
  {
    assert ([line] + more)[1..] == more;
  }

  lemma NoParams()
    ensures GoodParams("")
  {
  }

  /** A name in capital letters stands for itself. */
  lemma CapitalName(name: string)
    requires forall i | 0 <= i < |name| :: 'A' <= name[i] <= 'Z'
    ensures NameOf(name) == name && GoodName(name)
  {
    hide Trim;
    TidyTrim(name);
    UpperSame(name);
  }

  lemma Marker(name: string, kind: string)
    requires name == "BEGIN" || name == "END"
    ensures ContentOf(PropertyLine(name, "", kind)) == Content(name, "", kind)
  {
    hide ContentOf, PropertyLine, GoodParams, Upper, Trim;
    CapitalName(name);
    assert GoodParams("") by {
      NoParams();
    }
    ContentOfProperty(name, "", kind);
  }

  /** Inside a component of an event, nothing is the event's. */
  lemma {:induction false} InsideSkips(items: seq<Item>, s: Scan, more: seq<string>)
    requires GoodItems(items) && s.current.Some? && s.depth > 0
    ensures ScanLines(s, LinesOf(items) + more) == ScanLines(s, more)
    decreases items
  {
    if items == [] {
      assert LinesOf(items) + more == more;
    } else {
      assert LinesOf(items) + more == ItemLines(items[0]) + (LinesOf(items[1..]) + more);
      ItemSkips(items[0], s, LinesOf(items[1..]) + more);
      InsideSkips(items[1..], s, more);
    }
  }

  lemma {:induction false} ItemSkips(item: Item, s: Scan, more: seq<string>)
    requires GoodItem(item) && s.current.Some? && (s.depth > 0 || item.Nested?)
    ensures ScanLines(s, ItemLines(item) + more) == ScanLines(s, more)
    decreases item
  {
    hide ContentOf, PropertyLine, Property, SameFold, ScanLines;
    match item {
      case Prop(name, params, value) =>
        ContentOfProperty(name, params, value);
        ScanFirst(s, PropertyLine(name, params, value), more);
      case Nested(kind, items) =>
        var begin, end := PropertyLine("BEGIN", "", kind), PropertyLine("END", "", kind);
        Marker("BEGIN", kind);
        Marker("END", kind);
        assert ItemLines(item) + more == [begin] + (LinesOf(items) + ([end] + more));
        ScanFirst(s, begin, LinesOf(items) + ([end] + more));
        var inner := s.(depth := s.depth + 1);
        InsideSkips(items, inner, [end] + more);
        ScanFirst(inner, end, more);
    }
  }

  /** What an event's own properties say, its components left out. */
  function Apply(e: IcsEvent, items: seq<Item>): Result<IcsEvent, Refusal>
    decreases items
  {
    if items == [] then Ok(e)
    else
      match items[0]
      case Nested(_, _) => Apply(e, items[1..])
      case Prop(name, params, value) =>
        match Property(e, Content(NameOf(name), params, value))
        case Err(x) => Err(x)
        case Ok(e') => Apply(e', items[1..])
  }

  /** Reading an event's lines applies exactly its own properties, in order. */
  lemma {:induction false} EventItems(items: seq<Item>, s: Scan, more: seq<string>)
    requires GoodItems(items) && s.current.Some? && s.depth == 0
    ensures ScanLines(s, LinesOf(items) + more) == ScanWith(s, Apply(s.current.value, items), more)
    decreases items
  {
    hide ContentOf, PropertyLine, Property, SameFold, ScanLines, ItemLines, NameOf;
    if items == [] {
      assert LinesOf(items) + more == more;
    } else {
      var rest := LinesOf(items[1..]) + more;
      assert LinesOf(items) + more == ItemLines(items[0]) + rest;
      match items[0] {
        case Nested(_, _) =>
          ItemSkips(items[0], s, rest);
          EventItems(items[1..], s, more);
        case Prop(name, params, value) =>
          OwnProperty(s, name, params, value, rest);
          var p := Property(s.current.value, Content(NameOf(name), params, value));
          if p.Ok? {
            EventItems(items[1..], s.(current := Some(p.value)), more);
          }
      }
    }
  }

  lemma OwnProperty(s: Scan, name: string, params: string, value: string, more: seq<string>)
    requires GoodItem(Prop(name, params, value)) && s.current.Some? && s.depth == 0
    ensures ScanLines(s, ItemLines(Prop(name, params, value)) + more)
      == ScanWith(s, Property(s.current.value, Content(NameOf(name), params, value)), more)
  {
    hide ContentOf, PropertyLine, Property, SameFold, ScanLines;
    ContentOfProperty(name, params, value);
    ScanFirst(s, PropertyLine(name, params, value), more);
  }

  // ---- Whole files ----

  /** A file's body: lines outside any event, and events with what stands in them. */
  datatype Entry = Outside(line: string) | EventOf(items: seq<Item>)

  function EntryLines(entry: Entry): seq<string> {
    match entry
    case Outside(line) => [line]
    case EventOf(items) => [PropertyLine("BEGIN", "", "VEVENT")] + LinesOf(items) + [PropertyLine("END", "", "VEVENT")]
  }

  function FileLines(entries: seq<Entry>): seq<string> {
    if entries == [] then [] else EntryLines(entries[0]) + FileLines(entries[1..])
  }

  /** A line outside events that does not begin one. */
  predicate GoodEntry(entry: Entry) {
    match entry
    case Outside(line) => !(ContentOf(line).name == "BEGIN" && SameFold(ContentOf(line).value, "VEVENT"))
    case EventOf(items) => GoodItems(items)
  }

  function EventsIn(entries: seq<Entry>): Result<seq<IcsEvent>, Refusal> {
    if entries == [] then Ok([])
    else
      match entries[0]
      case Outside(_) => EventsIn(entries[1..])
      case EventOf(items) =>
        match Apply(BLANK, items)
        case Err(x) => Err(x)
        case Ok(e) =>
          match EventsIn(entries[1..])
          case Err(x) => Err(x)
          case Ok(es) => Ok([e] + es)
  }

  /** Reading on after an event that may have been refused. */
  function ScanAfter(events: seq<IcsEvent>, e: Result<IcsEvent, Refusal>, more: seq<string>): Result<Scan, Refusal> {
    match e
    case Err(x) => Err(x)
    case Ok(v) => ScanLines(Scan(events + [v], None, 0), more)
  }

  lemma EntryScans(entry: Entry, events: seq<IcsEvent>, more: seq<string>)
    requires GoodEntry(entry)
    ensures entry.Outside? ==>
      ScanLines(Scan(events, None, 0), EntryLines(entry) + more) == ScanLines(Scan(events, None, 0), more)
    ensures entry.EventOf? ==>
      ScanLines(Scan(events, None, 0), EntryLines(entry) + more) == ScanAfter(events, Apply(BLANK, entry.items), more)
  {
    hide ContentOf, PropertyLine, Property, ScanLines, Apply, LinesOf;
    var s := Scan(events, None, 0);
    match entry {
      case Outside(line) => ScanFirst(s, line, more);
      case EventOf(items) =>
        var begin, end := PropertyLine("BEGIN", "", "VEVENT"), PropertyLine("END", "", "VEVENT");
        Marker("BEGIN", "VEVENT");
        Marker("END", "VEVENT");
        assert EntryLines(entry) + more == [begin] + (LinesOf(items) + ([end] + more));
        ScanFirst(s, begin, LinesOf(items) + ([end] + more));
        var inner := Scan(events, Some(BLANK), 0);
        EventItems(items, inner, [end] + more);
        if Apply(BLANK, items).Ok? {
          ScanFirst(inner.(current := Some(Apply(BLANK, items).value)), end, more);
        }
    }
  }

  function ScanDone(events: seq<IcsEvent>, r: Result<seq<IcsEvent>, Refusal>): Result<Scan, Refusal> {
    match r
    case Err(x) => Err(x)
    case Ok(es) => Ok(Scan(events + es, None, 0))
  }

  /** Reading a whole file's lines gives, event by event, what each one's own properties say. */
  lemma {:induction false} FileScans(entries: seq<Entry>, events: seq<IcsEvent>)
    requires forall x | x in entries :: GoodEntry(x)
    ensures ScanLines(Scan(events, None, 0), FileLines(entries)) == ScanDone(events, EventsIn(entries))
    decreases entries
  {
    hide GoodEntry, EntryLines, Apply;
    if entries == [] {
      assert events + [] == events;
    } else {
      var entry := entries[0];
      assert entry in entries && forall x | x in entries[1..] :: x in entries;
      EntryScans(entry, events, FileLines(entries[1..]));
      match entry {
        case Outside(_) => FileScans(entries[1..], events);
        case EventOf(items) =>
          if Apply(BLANK, items).Ok? {
            var e := Apply(BLANK, items).value;
            FileScans(entries[1..], events + [e]);
            if EventsIn(entries[1..]).Ok? {
              assert (events + [e]) + EventsIn(entries[1..]).value == events + ([e] + EventsIn(entries[1..]).value);
            }
          }
      }
    }
  }

  // ---- Folding ----

  /** A line folded: its first piece, and each later one after the white space that marks it. */
  datatype Fold = Fold(first: string, rest: seq<(char, string)>)

  function Joined(rest: seq<(char, string)>): string {
    if rest == [] then "" else rest[0].1 + Joined(rest[1..])
  }

  function Whole(f: Fold): string {
    f.first + Joined(f.rest)
  }

  predicate OneLineLong(s: string) {
    '\n' !in s && '\r' !in s
  }

  /** Folded anywhere after a first piece that is not blank and does not look folded itself. */
  predicate GoodFold(f: Fold) {
    && Trim(f.first) != "" && !Continues(f.first) && OneLineLong(f.first)
    && forall i | 0 <= i < |f.rest| :: f.rest[i].0 in " \t" && OneLineLong(f.rest[i].1)
  }

  function Continued(rest: seq<(char, string)>): seq<string> {
    if rest == [] then [] else [[rest[0].0] + rest[0].1] + Continued(rest[1..])
  }

  function Pieces(folds: seq<Fold>): seq<string> {
    if folds == [] then [] else [folds[0].first] + Continued(folds[0].rest) + Pieces(folds[1..])
  }

  function Wholes(folds: seq<Fold>): seq<string> {
    if folds == [] then [] else [Whole(folds[0])] + Wholes(folds[1..])
  }

  lemma AddFirst(lines: seq<string>, raw: string, more: seq<string>)
    ensures AddLines(lines, [raw] + more) == AddLines(AddLine(lines, raw), more)
  {
    assert ([raw] + more)[1..] == more;
  }

  lemma {:induction false} ContinuedJoins(
    lines: seq<string>, line: string, rest: seq<(char, string)>, more: seq<string>)
    requires forall i | 0 <= i < |rest| :: rest[i].0 in " \t" && OneLineLong(rest[i].1)
    ensures AddLines(lines + [line], Continued(rest) + more) == AddLines(lines + [line + Joined(rest)], more)
    decreases rest
  {
    hide AddLines;
    if rest == [] {
      assert Continued(rest) + more == more && line + Joined(rest) == line;
    } else {
      var raw := [rest[0].0] + rest[0].1;
      assert Continued(rest) + more == [raw] + (Continued(rest[1..]) + more);
      AddFirst(lines + [line], raw, Continued(rest[1..]) + more);
      assert raw[|raw| - 1] != '\r' && Chop(raw) == raw && raw[1..] == rest[0].1;
      assert (lines + [line])[..|lines|] == lines;
      assert AddLine(lines + [line], raw) == lines + [line + rest[0].1];
      ContinuedJoins(lines, line + rest[0].1, rest[1..], more);
      assert (line + rest[0].1) + Joined(rest[1..]) == line + Joined(rest);
    }
  }

  /** Unfolding gives back the lines that were folded, wherever they were folded. */
  lemma {:induction false} PiecesUnfold(lines: seq<string>, folds: seq<Fold>)
    requires forall i | 0 <= i < |folds| :: GoodFold(folds[i])
    ensures AddLines(lines, Pieces(folds)) == lines + Wholes(folds)
    decreases folds
  {
    hide AddLines, AddLine, Trim, Continued, OneLineLong, GoodFold, Joined;
    if folds == [] {
      NothingAdds(lines);
      assert lines + [] == lines;
    } else {
      var f := folds[0];
      assert GoodFold(f);
      var more := Pieces(folds[1..]);
      assert Pieces(folds) == [f.first] + (Continued(f.rest) + more);
      FoldAdds(lines, f, more);
      PiecesUnfold(lines + [Whole(f)], folds[1..]);
      assert (lines + [Whole(f)]) + Wholes(folds[1..]) == lines + Wholes(folds);
    }
  }

  lemma FoldAdds(lines: seq<string>, f: Fold, more: seq<string>)
    requires GoodFold(f)
    ensures AddLines(lines, [f.first] + (Continued(f.rest) + more)) == AddLines(lines + [Whole(f)], more)
  {
    hide AddLines, AddLine, Trim, Continued, OneLineLong;
    AddFirst(lines, f.first, Continued(f.rest) + more);
    FirstBegins(lines, f);
    ContinuedJoins(lines, f.first, f.rest, more);
  }

  lemma NothingAdds(lines: seq<string>)
    ensures AddLines(lines, []) == lines
  {
  }

  lemma FirstBegins(lines: seq<string>, f: Fold)
    requires GoodFold(f)
    ensures AddLine(lines, f.first) == lines + [f.first]
  {
    hide Trim;
    assert f.first != [] ==> f.first[|f.first| - 1] in f.first;
  }

  // ---- Bytes on the way ----

  /** Physical lines, each ended by a newline with or without a carriage return. */
  function Written(lines: seq<(string, bool)>): string {
    if lines == [] then "" else lines[0].0 + (if lines[0].1 then "\r\n" else "\n") + Written(lines[1..])
  }

  function Texts(lines: seq<(string, bool)>): seq<string> {
    if lines == [] then [] else [lines[0].0] + Texts(lines[1..])
  }

  lemma {:induction false} WrittenReads(acc: seq<string>, lines: seq<(string, bool)>)
    requires forall i | 0 <= i < |lines| :: OneLineLong(lines[i].0)
    ensures AddLines(acc, Split(Written(lines))) == AddLines(acc, Texts(lines))
    decreases lines
  {
    hide Trim;
    if lines == [] {
      assert Split("") == [""];
      BlankAdds(acc);
    } else {
      var (t, cr) := lines[0];
      var raw := if cr then t + "\r" else t;
      assert Written(lines) == raw + ['\n'] + Written(lines[1..]);
      CutAt(raw, '\n', Written(lines[1..]));
      assert Split(Written(lines)) == [raw] + Split(Written(lines[1..]));
      AddFirst(acc, raw, Split(Written(lines[1..])));
      AddFirst(acc, t, Texts(lines[1..]));
      assert t != [] ==> t[|t| - 1] in t;
      assert Chop(raw) == t && Chop(t) == t;
      WrittenReads(AddLine(acc, t), lines[1..]);
    }
  }

  lemma BlankAdds(acc: seq<string>)
    ensures AddLines(acc, [""]) == acc && AddLines(acc, []) == acc
  {
    AddFirst(acc, "", []);
    assert [""] == [""] + [];
  }

  /** Whether text begins with a byte order mark. */
  predicate Marked(s: string) {
    s != [] && s[0] as int == 0xFEFF
  }

  /** A file's text: an optional byte order mark, and its physical lines. */
  function FileText(mark: bool, lines: seq<(string, bool)>): string {
    (if mark then [0xFEFF as char] else []) + Written(lines)
  }

  /** However a file's lines are folded and ended, and whether or not a mark comes first, unfolding
      gives the lines. */
  lemma TextUnfolds(mark: bool, lines: seq<(string, bool)>, folds: seq<Fold>)
    requires folds != [] && forall i | 0 <= i < |folds| :: GoodFold(folds[i])
    requires Texts(lines) == Pieces(folds)
    requires !Marked(folds[0].first)
    ensures Unfolded(FileText(mark, lines)) == Wholes(folds)
  {
    hide Written, Split, AddLines, Pieces, Wholes, Trim;
    LinesFromPieces(lines, folds);
    WrittenReads([], lines);
    PiecesUnfold([], folds);
    WrittenStart(lines, folds);
    assert DropMark(FileText(mark, lines)) == Written(lines);
  }

  lemma FirstSpeaks(f: Fold)
    requires GoodFold(f)
    ensures f.first != []
  {
    assert Trim([]) == [];
  }

  lemma WrittenStart(lines: seq<(string, bool)>, folds: seq<Fold>)
    requires folds != [] && GoodFold(folds[0]) && Texts(lines) == Pieces(folds)
    ensures Written(lines) != [] && folds[0].first != [] && Written(lines)[0] == folds[0].first[0]
  {
    assert lines[0].0 == Texts(lines)[0] == folds[0].first;
    FirstSpeaks(folds[0]);
  }

  lemma {:induction false} ContinuedLong(rest: seq<(char, string)>)
    requires forall i | 0 <= i < |rest| :: rest[i].0 in " \t" && OneLineLong(rest[i].1)
    ensures forall t | t in Continued(rest) :: OneLineLong(t)
  {
    if rest != [] {
      ContinuedLong(rest[1..]);
      assert forall t | t in Continued(rest) :: t == [rest[0].0] + rest[0].1 || t in Continued(rest[1..]);
    }
  }

  lemma {:induction false} PiecesLong(folds: seq<Fold>)
    requires forall i | 0 <= i < |folds| :: GoodFold(folds[i])
    ensures forall t | t in Pieces(folds) :: OneLineLong(t)
  {
    if folds != [] {
      ContinuedLong(folds[0].rest);
      PiecesLong(folds[1..]);
      assert forall t | t in Pieces(folds) ::
        t == folds[0].first || t in Continued(folds[0].rest) || t in Pieces(folds[1..]);
    }
  }

  lemma {:induction false} TextsAt(lines: seq<(string, bool)>)
    ensures |Texts(lines)| == |lines| && forall i | 0 <= i < |lines| :: Texts(lines)[i] == lines[i].0
  {
    if lines != [] {
      TextsAt(lines[1..]);
    }
  }

  lemma LinesFromPieces(lines: seq<(string, bool)>, folds: seq<Fold>)
    requires forall i | 0 <= i < |folds| :: GoodFold(folds[i])
    requires Texts(lines) == Pieces(folds)
    ensures forall i | 0 <= i < |lines| :: OneLineLong(lines[i].0)
  {
    hide Pieces, OneLineLong;
    PiecesLong(folds);
    TextsAt(lines);
    forall i | 0 <= i < |lines|
      ensures OneLineLong(lines[i].0)
    {
      assert Texts(lines)[i] in Pieces(folds);
    }
  }
}
