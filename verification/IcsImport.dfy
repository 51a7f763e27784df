/** Importing an iCalendar file: the events its lines describe, the days they cover, and the holidays those make. */
module IcsImport {
  import opened Wrappers
  import opened Text
  import opened Dates
  import opened IcsText

  const MAX_DAYS := 1000
  const MAX_NAME_LENGTH := 100
  const UNTITLED := "Holiday"

  /** An event as its properties leave it: days may be missing, and the last of two of a kind stands. */
  datatype IcsEvent = IcsEvent(
    start: Option<Date>, end: Option<Date>, length: int, summary: string, recurring: bool, cancelled: bool)

  const BLANK := IcsEvent(None, None, 0, "", false, false)

  datatype Holiday = Holiday(day: string, name: string)

  // ---- Events from lines ----

  /** A property of an event itself. */
  function Property(e: IcsEvent, c: Content): Result<IcsEvent, Refusal> {
    if c.name == "DTSTART" then
      match IcsDate(c.params, c.value) case Err(x) => Err(x) case Ok(d) => Ok(e.(start := Some(d)))
    else if c.name == "DTEND" then
      match IcsDate(c.params, c.value) case Err(x) => Err(x) case Ok(d) => Ok(e.(end := Some(d)))
    else if c.name == "DURATION" then
      match IcsDuration(c.value) case Err(x) => Err(x) case Ok(n) => Ok(e.(length := n))
    else if c.name == "SUMMARY" then Ok(e.(summary := Trim(Unescaped(c.value))))
    else if c.name == "RRULE" || c.name == "RDATE" then Ok(e.(recurring := true))
    else if c.name == "STATUS" && SameFold(Trim(c.value), "CANCELLED") then Ok(e.(cancelled := true))
    else Ok(e)
  }

  /** Where reading has got to: the events so far, the one being read, and how deep inside its own components. */
  datatype Scan = Scan(events: seq<IcsEvent>, current: Option<IcsEvent>, depth: nat)

  function ScanLine(s: Scan, line: string): Result<Scan, Refusal> {
    var c := ContentOf(line);
    if s.current.None? then
      if c.name == "BEGIN" && SameFold(c.value, "VEVENT") then Ok(Scan(s.events, Some(BLANK), 0)) else Ok(s)
    else if c.name == "BEGIN" then Ok(s.(depth := s.depth + 1))
    else if c.name == "END" && s.depth > 0 then Ok(s.(depth := s.depth - 1))
    else if c.name == "END" && SameFold(c.value, "VEVENT") then Ok(Scan(s.events + [s.current.value], None, s.depth))
    else if s.depth > 0 then Ok(s)
    else
      match Property(s.current.value, c)
      case Err(x) => Err(x)
      case Ok(e) => Ok(s.(current := Some(e)))
  }

  function ScanLines(s: Scan, lines: seq<string>): Result<Scan, Refusal>
    decreases lines
  {
    if lines == [] then Ok(s)
    else
      match ScanLine(s, lines[0])
      case Err(x) => Err(x)
      case Ok(s') => ScanLines(s', lines[1..])
  }

  // ---- Days from events ----

  /** The days an event names are days there are. */
  ghost predicate Dated(e: IcsEvent) {
    (e.start.Some? ==> Valid(e.start.value)) && (e.end.Some? ==> Valid(e.end.value))
  }

  /** The days an event covers, as a range of day numbers without its end. */
  function Range(e: IcsEvent): Result<(int, int), Refusal>
    requires Dated(e)
  {
    if e.cancelled then Ok((0, 0))
    else if e.recurring then Err(Repeats)
    else if e.start.None? then Err(NoStart)
    else
      var from := ToDay(e.start.value);
      if e.end.Some? && ToDay(e.end.value) < from then Err(EndsBeforeItStarts)
      else
        var to :=
          if e.end.Some? then (if ToDay(e.end.value) > from then ToDay(e.end.value) else from + 1)
          else if e.length > 0 then from + e.length
          else from + 1;
        if to - from > MAX_DAYS then Err(CoversTooMuch) else Ok((from, to))
  }

  function DayName(n: int): string {
    DayText(FromDay(n))
  }

  function DayNames(from: int, to: int): (days: seq<string>)
    ensures |days| == (if to <= from then 0 else to - from)
    decreases if to <= from then 0 else to - from
  {
    if to <= from then [] else DayNames(from, to - 1) + [DayName(to - 1)]
  }

  lemma {:induction false} FromDayNext(n: int)
    ensures FromDay(n + 1) == Next(FromDay(n))
  {
    hide ToDay, Next, Previous;
    if n < 0 {
      ToDayPrevious(FromDay(n + 1));
    }
  }

  /** The names of the days in the event's range, in order, or the refusal that its range is. */
  method Days(e: IcsEvent) returns (r: Result<seq<string>, Refusal>)
    requires Dated(e)
    ensures match Range(e)
      case Err(x) => r == Err(x)
      case Ok((from, to)) => r == Ok(DayNames(from, to))
  {
    hide DayText, FromDay, ToDay;
    if e.cancelled {
      return Ok([]);
    }
    if e.recurring {
      return Err(Repeats);
    }
    if e.start.None? {
      return Err(NoStart);
    }
    var start := e.start.value;
    var from := ToDay(start);
    var end := from + 1;
    if e.end.Some? {
      var last := ToDay(e.end.value);
      if last < from {
        return Err(EndsBeforeItStarts);
      }
      if last > from {
        end := last;
      }
    } else if e.length > 0 {
      end := from + e.length;
    }
    var out: seq<string> := [];
    var day := start;
    FromDayToDay(start);
    ghost var n := from;
    while ToDay(day) < end
      invariant Valid(day) && day == FromDay(n) && ToDay(day) == n
      invariant from <= n <= end && n - from <= MAX_DAYS
      invariant out == DayNames(from, n) && |out| == n - from
      decreases end - n
    {
      if |out| == MAX_DAYS {
        return Err(CoversTooMuch);
      }
      out := out + [DayText(day)];
      FromDayNext(n);
      ToDayNext(day);
      day := Next(day);
      n := n + 1;
    }
    return Ok(out);
  }

  /** A name that is never empty, with no white space at its ends and no more than a hundred characters. */
  function HolidayName(summary: string): string {
    var s := Trim(summary);
    if s == "" then UNTITLED
    else if |s| > MAX_NAME_LENGTH then Trim(s[..MAX_NAME_LENGTH])
    else s
  }

  type ByDay = map<string, Holiday>

  /** Each of the days, named for an event. */
  function PutDays(byDay: ByDay, days: seq<string>, name: string): ByDay {
    if days == [] then byDay
    else
      var d := days[|days| - 1];
      PutDays(byDay, days[..|days| - 1], name)[d := Holiday(d, name)]
  }

  function PutEvents(byDay: ByDay, events: seq<IcsEvent>): Result<ByDay, Refusal>
    requires forall e | e in events :: Dated(e)
    decreases events
  {
    if events == [] then Ok(byDay)
    else
      var first := events[0];
      assert first in events && Dated(first) && forall e | e in events[1..] :: e in events;
      match Range(first)
      case Err(x) => Err(x)
      case Ok((from, to)) =>
        var put := PutDays(byDay, DayNames(from, to), HolidayName(first.summary));
        if |put| > MAX_DAYS then Err(HoldsTooMuch) else PutEvents(put, events[1..])
  }

  // ---- The import ----

  lemma PropertyDated(e: IcsEvent, c: Content)
    requires Dated(e) && Property(e, c).Ok?
    ensures Dated(Property(e, c).value)
  {
    hide Trim, Contains, Upper, Unescaped, IcsDuration, SameFold;
  }

  ghost predicate ScanDated(s: Scan) {
    (forall e | e in s.events :: Dated(e)) && (s.current.Some? ==> Dated(s.current.value))
  }

  lemma ScanLineDated(s: Scan, line: string)
    requires ScanDated(s) && ScanLine(s, line).Ok?
    ensures ScanDated(ScanLine(s, line).value)
  {
    hide ContentOf, Property, SameFold;
    if s.current.Some? && Property(s.current.value, ContentOf(line)).Ok? {
      PropertyDated(s.current.value, ContentOf(line));
    }
  }

  lemma {:induction false} ScanLinesDated(s: Scan, lines: seq<string>)
    requires ScanDated(s) && ScanLines(s, lines).Ok?
    ensures ScanDated(ScanLines(s, lines).value)
    decreases lines
  {
    hide ScanLine, ScanDated;
    if lines != [] {
      ScanLineDated(s, lines[0]);
      ScanLinesDated(ScanLine(s, lines[0]).value, lines[1..]);
    }
  }

  const START := Scan([], None, 0)

  /** What a file's lines come to, day by day. */
  function ByDayOf(lines: seq<string>): Result<ByDay, Refusal> {
    if lines == [] || !SameFold(lines[0], "BEGIN:VCALENDAR") then Err(NotACalendar)
    else
      match ScanLines(START, lines)
      case Err(x) => Err(x)
      case Ok(s) =>
        if s.events == [] then Err(NoEvents)
        else
          assert forall e | e in s.events :: Dated(e) by {
            ScanLinesDated(START, lines);
          }
          PutEvents(map[], s.events)
  }

  function Read(body: Body): Result<ByDay, Refusal> {
    match body
    case Broken => Err(Unreadable)
    case NotUtf8(size) => Err(if size > MAX_ICS_BYTES then TooLarge else BadEncoding)
    case Utf8(text) => if Utf8Size(text) > MAX_ICS_BYTES then Err(TooLarge) else ByDayOf(Unfolded(text))
  }

  /** A list of holidays holds exactly a map's, in the order of their days' text, so each once. */
  ghost predicate Lists(out: seq<Holiday>, byDay: ByDay) {
    && (forall i, j | 0 <= i < j < |out| :: TextBefore(out[i].day, out[j].day))
    && (forall h :: h in out <==> exists d :: d in byDay && byDay[d] == h)
  }

  function InsertHoliday(h: Holiday, sorted: seq<Holiday>): seq<Holiday> {
    if sorted == [] || TextBefore(h.day, sorted[0].day) then [h] + sorted
    else [sorted[0]] + InsertHoliday(h, sorted[1..])
  }

  ghost predicate Sorted(s: seq<Holiday>) {
    forall i, j | 0 <= i < j < |s| :: TextBefore(s[i].day, s[j].day)
  }

  lemma {:induction false} InsertSorts(h: Holiday, sorted: seq<Holiday>)
    requires Sorted(sorted) && forall x | x in sorted :: x.day != h.day
    ensures Sorted(InsertHoliday(h, sorted))
    ensures forall x :: x in InsertHoliday(h, sorted) <==> x == h || x in sorted
  {
    hide TextBefore;
    if sorted != [] {
      var x, rest := sorted[0], sorted[1..];
      assert sorted == [x] + rest && x in sorted;
      TextBeforeTotal(h.day, x.day);
      if TextBefore(h.day, x.day) {
        forall y | y in rest
          ensures TextBefore(h.day, y.day)
        {
          TextBeforeTransitive(h.day, x.day, y.day);
        }
      } else {
        InsertSorts(h, rest);
        var r := InsertHoliday(h, rest);
        forall i | 0 <= i < |r|
          ensures TextBefore(x.day, r[i].day)
        {
          assert r[i] in r;
        }
      }
    }
  }

  ghost predicate Keyed(byDay: ByDay) {
    forall d | d in byDay :: byDay[d].day == d
  }

  /** The holidays of a map in order of day; they are taken from it in any order, and sorted. */
  method Ordered(byDay: ByDay) returns (out: seq<Holiday>)
    requires Keyed(byDay)
    ensures Lists(out, byDay)
  {
    out := [];
    var left := byDay.Keys;
    while left != {}
      invariant left <= byDay.Keys && Sorted(out)
      invariant forall h :: h in out <==> exists d :: d in byDay && d !in left && byDay[d] == h
      decreases left
    {
      var d :| d in left;
      forall x | x in out
        ensures x.day != d
      {
        var k :| k in byDay && k !in left && byDay[k] == x;
      }
      InsertSorts(byDay[d], out);
      out := InsertHoliday(byDay[d], out);
      left := left - {d};
    }
  }

  lemma {:induction false} PutDaysKeyed(byDay: ByDay, days: seq<string>, name: string)
    requires Keyed(byDay)
    ensures Keyed(PutDays(byDay, days, name))
  {
    if days != [] {
      PutDaysKeyed(byDay, days[..|days| - 1], name);
    }
  }

  /** Answers as Read does: with its refusal, or with its map's holidays listed in the order of their days' text. */
  method ImportICS(body: Body) returns (r: Result<seq<Holiday>, Refusal>)
    ensures match Read(body)
      case Err(x) => r == Err(x)
      case Ok(byDay) => r.Ok? && Lists(r.value, byDay)
  {
    hide ScanLine, Property, Range, PutDays, DayNames, HolidayName, Lists;
    var unfolded := Unfold(body);
    if unfolded.Err? {
      return Err(unfolded.error);
    }
    var lines := unfolded.value;
    if |lines| == 0 || !SameFold(lines[0], "BEGIN:VCALENDAR") {
      return Err(NotACalendar);
    }
    var scan := START;
    for i := 0 to |lines|
      invariant ScanLines(scan, lines[i..]) == ScanLines(START, lines)
    {
      assert lines[i..][0] == lines[i] && lines[i..][1..] == lines[i + 1..];
      var next := ScanStep(scan, lines[i]);
      if next.Err? {
        return Err(next.error);
      }
      scan := next.value;
    }
    if |scan.events| == 0 {
      return Err(NoEvents);
    }
    ScanLinesDated(START, lines);
    var byDay: ByDay := map[];
    for i := 0 to |scan.events|
      invariant Keyed(byDay)
      invariant PutEvents(byDay, scan.events[i..]) == PutEvents(map[], scan.events)
    {
      var e := scan.events[i];
      assert scan.events[i..][0] == e && scan.events[i..][1..] == scan.events[i + 1..];
      var days := Days(e);
      if days.Err? {
        return Err(days.error);
      }
      byDay := Named(byDay, days.value, HolidayName(e.summary));
      if |byDay| > MAX_DAYS {
        return Err(HoldsTooMuch);
      }
    }
    var out := Ordered(byDay);
    return Ok(out);
  }

  method Named(was: ByDay, days: seq<string>, name: string) returns (byDay: ByDay)
    requires Keyed(was)
    ensures byDay == PutDays(was, days, name) && Keyed(byDay)
  {
    byDay := was;
    for i := 0 to |days|
      invariant byDay == PutDays(was, days[..i], name)
    {
      assert days[..i + 1][..i] == days[..i];
      byDay := byDay[days[i] := Holiday(days[i], name)];
    }
    assert days[..|days|] == days;
    PutDaysKeyed(was, days, name);
  }

  /** One line: what it begins, ends or says. */
  method ScanStep(s: Scan, line: string) returns (r: Result<Scan, Refusal>)
    ensures r == ScanLine(s, line)
  {
    hide ContentOf, IcsDate, IcsDuration, Unescaped, Trim, SameFold;
    var name, params, value := ContentLine(line);
    var current := s.current;
    if name == "BEGIN" && SameFold(value, "VEVENT") && current.None? {
      return Ok(Scan(s.events, Some(BLANK), 0));
    }
    if current.None? {
      return Ok(s);
    }
    if name == "BEGIN" {
      return Ok(s.(depth := s.depth + 1));
    }
    if name == "END" && s.depth > 0 {
      return Ok(s.(depth := s.depth - 1));
    }
    if name == "END" && SameFold(value, "VEVENT") {
      return Ok(Scan(s.events + [current.value], None, s.depth));
    }
    if s.depth > 0 {
      return Ok(s);
    }
    var e := current.value;
    if name == "DTSTART" {
      var d := IcsDate(params, value);
      if d.Err? {
        return Err(d.error);
      }
      e := e.(start := Some(d.value));
    } else if name == "DTEND" {
      var d := IcsDate(params, value);
      if d.Err? {
        return Err(d.error);
      }
      e := e.(end := Some(d.value));
    } else if name == "DURATION" {
      var n := IcsDuration(value);
      if n.Err? {
        return Err(n.error);
      }
      e := e.(length := n.value);
    } else if name == "SUMMARY" {
      var text := UnescapeText(value);
      e := e.(summary := text);
    } else if name == "RRULE" || name == "RDATE" {
      e := e.(recurring := true);
    } else if name == "STATUS" && SameFold(Trim(value), "CANCELLED") {
      e := e.(cancelled := true);
    }
    return Ok(s.(current := Some(e)));
  }
}
