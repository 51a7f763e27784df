/** The plainest way to write some events as a calendar file, and that it is read back: every
    list of events has a file, so what is proved of printed files is proved of something. */
module IcsPlain {
  import opened Wrappers
  import opened Text
  import opened Dates
  import opened IcsText
  import opened IcsImport
  import opened IcsPrinted
  import opened IcsHolidays

  function SpanItems(lasts: Lasts): seq<Item>
    requires lasts.Until? ==> Valid(lasts.end)
  {
    match lasts
    case OneDay => []
    case Until(end) => [Prop("DTEND", "VALUE=DATE", CompactText(end))]
    case For(days) => [Prop("DURATION", "", "P" + Decimal(days) + "D")]
  }

  function NameItems(summary: Option<string>): seq<Item> {
    match summary
    case None => []
    case Some(text) => [Prop("SUMMARY", "", Escaped(text))]
  }

  /** An event's own properties and nothing else. */
  ghost function Items(e: Event): seq<Item>
    requires GoodEvent(e)
  {
    [Prop("DTSTART", "VALUE=DATE", CompactText(e.start))] + SpanItems(e.lasts) + NameItems(e.summary)
    + if e.cancelled then [Prop("STATUS", "", "CANCELLED")] else []
  }

  ghost function EventEntries(events: seq<Event>): seq<Entry>
    requires GoodEvents(events)
  {
    if events == [] then []
    else
      var e := events[0];
      assert e in events && forall x | x in events[1..] :: x in events;
      [EventOf(Items(e))] + EventEntries(events[1..])
  }

  /** One event after another, between the lines that begin and end the calendar. */
  ghost function PlainLines(events: seq<Event>): seq<string>
    requires GoodEvents(events)
  {
    FileLines([Outside("BEGIN:VCALENDAR")] + (EventEntries(events) + [Outside("END:VCALENDAR")]))
  }

  function Ended(lines: seq<string>): seq<(string, bool)> {
    if lines == [] then [] else [(lines[0], true)] + Ended(lines[1..])
  }

  /** The file's text: nothing folded, no mark, every line ended in full. */
  ghost function Plain(events: seq<Event>): string
    requires GoodEvents(events)
  {
    FileText(false, Ended(PlainLines(events)))
  }

  // ---- Its lines hold the events ----

  lemma {:induction false} HasIt(items: seq<Item>, x: Item, e: Event, name: string)
    requires x in items && OwnProp(x, e, name)
    ensures Has(items, e, name)
  {
    hide OwnProp;
    if items[0] != x {
      HasIt(items[1..], x, e, name);
    }
  }

  lemma PlainParams()
    ensures DayParams("VALUE=DATE") && GoodParams("VALUE=DATE") && GoodParams("")
  {
    hide Upper, Contains;
    NameQuotes("VALUE=DATE");
    TooShort(Upper("VALUE=DATE"), "VALUE=DATE-TIME");
  }

  lemma {:induction false} TooShort(s: string, part: string)
    requires |s| < |part|
    ensures !Contains(s, part)
  {
    if s != [] {
      TooShort(s[1..], part);
    }
  }

  /** The plain items show their event. */
  lemma ItemsShow(e: Event)
    requires GoodEvent(e)
    ensures Shows(Items(e), e)
  {
    hide NameOf, GoodName, GoodParams, DayParams, CompactText, Decimal, Escaped, Has, Neutral;
    PlainParams();
    CapitalName("DTSTART");
    CapitalName("DTEND");
    CapitalName("DURATION");
    CapitalName("SUMMARY");
    CapitalName("STATUS");
    forall x | x in Items(e)
      ensures x.Prop? && OwnProp(x, e, x.name) && NameOf(x.name) == x.name
    {
    }
    forall x | x in Items(e)
      ensures Has(Items(e), e, x.name)
    {
      HasIt(Items(e), x, e, x.name);
    }
    var items := Items(e);
    assert items[0].name == "DTSTART" && items[0] in items;
    assert e.lasts.Until? || e.lasts.For? ==> SpanItems(e.lasts)[0] == items[1] && items[1] in items;
    var last := items[|items| - 1];
    assert last in items;
    assert e.summary.Some? ==> NameItems(e.summary)[0] in items;
  }

  lemma CalendarMarker(name: string)
    requires name == "BEGIN" || name == "END"
    ensures GoodEntry(Outside(name + ":VCALENDAR"))
  {
    hide ContentOf;
    Marker(name, "VCALENDAR");
    assert PropertyLine(name, "", "VCALENDAR") == name + ":VCALENDAR";
  }

  lemma {:induction false} EntriesHold(events: seq<Event>)
    requires GoodEvents(events)
    ensures Holds(EventEntries(events) + [Outside("END:VCALENDAR")], events)
    decreases |events|
  {
    hide GoodEvent, Items, Shows, GoodEntry;
    var end := Outside("END:VCALENDAR");
    CalendarMarker("END");
    assert "END" + ":VCALENDAR" == "END:VCALENDAR";
    if events == [] {
      HoldsOutside(end, [], []);
      HoldsNothing();
      assert EventEntries(events) + [end] == [end] + [];
    } else {
      var e, more := events[0], events[1..];
      assert e in events && forall x | x in more :: x in events;
      EntriesHold(more);
      ItemsShow(e);
      HoldsEvent(Items(e), EventEntries(more) + [end], e, more);
      assert EventEntries(events) + [end] == [EventOf(Items(e))] + (EventEntries(more) + [end]);
      assert [e] + more == events;
    }
  }

  lemma HoldsNothing()
    ensures Holds([], [])
  {
  }

  lemma HoldsOutside(entry: Entry, more: seq<Entry>, events: seq<Event>)
    requires GoodEvents(events) && entry.Outside? && GoodEntry(entry) && Holds(more, events)
    ensures Holds([entry] + more, events)
  {
    hide GoodEntry;
    assert ([entry] + more)[1..] == more;
  }

  lemma HoldsEvent(items: seq<Item>, more: seq<Entry>, e: Event, events: seq<Event>)
    requires GoodEvent(e) && GoodEvents(events) && Shows(items, e) && Holds(more, events)
    ensures GoodEvents([e] + events) && Holds([EventOf(items)] + more, [e] + events)
  {
    hide Shows, GoodEvent;
    assert ([EventOf(items)] + more)[1..] == more && ([e] + events)[1..] == events;
  }

  // ---- Its lines fold nowhere ----

  /** A line that can be written as it stands. */
  predicate Writes(line: string) {
    line != [] && !IsSpace(line[0]) && OneLineLong(line)
  }

  function Unfoldeds(lines: seq<string>): seq<Fold> {
    if lines == [] then [] else [Fold(lines[0], [])] + Unfoldeds(lines[1..])
  }

  lemma WritesFold(line: string)
    requires Writes(line)
    ensures GoodFold(Fold(line, [])) && Whole(Fold(line, [])) == line
  {
    assert TrimLeft(line) == line;
    var n := TrimRightSplit(line);
    assert !(forall i | 0 <= i < |line| :: IsSpace(line[i]));
  }

  lemma {:induction false} UnfoldedsAre(lines: seq<string>)
    requires forall l | l in lines :: Writes(l)
    ensures var folds := Unfoldeds(lines);
      && (forall i | 0 <= i < |folds| :: GoodFold(folds[i]))
      && Pieces(folds) == lines && Wholes(folds) == lines && Texts(Ended(lines)) == lines
  {
    hide GoodFold, Writes, Whole;
    if lines != [] {
      assert lines[0] in lines && forall l | l in lines[1..] :: l in lines;
      WritesFold(lines[0]);
      UnfoldedsAre(lines[1..]);
      assert lines == [lines[0]] + lines[1..];
    }
  }

  lemma {:induction false} EscapedLong(s: string)
    requires '\r' !in s
    ensures OneLineLong(Escaped(s))
  {
    if s != [] {
      assert s[0] in s && forall c | c in s[1..] :: c in s;
      EscapedLong(s[1..]);
    }
  }

  lemma LineWrites(name: string, params: string, value: string)
    requires Writes(name) && OneLineLong(params) && OneLineLong(value)
    ensures Writes(PropertyLine(name, params, value))
  {
  }

  lemma DigitsLong(s: string)
    requires AllDigits(s)
    ensures OneLineLong(s) && OneLineLong("P" + s + "D")
  {
  }

  /** A summary with no carriage return. */
  predicate OneLined(e: Event) {
    e.summary.Some? ==> '\r' !in e.summary.value
  }

  predicate ItemWrites(item: Item) {
    item.Prop? && Writes(PropertyLine(item.name, item.params, item.value))
  }

  lemma SpanWrites(lasts: Lasts)
    requires lasts.Until? ==> Writable(lasts.end)
    ensures forall p | p in SpanItems(lasts) :: ItemWrites(p)
  {
    hide CompactText, Decimal, PropertyLine;
    match lasts
    case OneDay =>
    case Until(end) =>
      CompactDigits(end);
      DigitsLong(CompactText(end));
      LineWrites("DTEND", "VALUE=DATE", CompactText(end));
    case For(days) =>
      DecimalDigits(days);
      DigitsLong(Decimal(days));
      LineWrites("DURATION", "", "P" + Decimal(days) + "D");
  }

  /** An event whose summary has no carriage return can be written a line for each property. */
  lemma ItemsOfWrite(e: Event)
    requires GoodEvent(e) && OneLined(e)
    ensures forall p | p in Items(e) :: ItemWrites(p)
  {
    hide CompactText, SpanItems, NameItems, PropertyLine, Writes;
    StartWrites(e.start);
    SpanWrites(e.lasts);
    NameWrites(e.summary);
    StatusWrites();
  }

  lemma StartWrites(d: Date)
    requires Writable(d)
    ensures ItemWrites(Prop("DTSTART", "VALUE=DATE", CompactText(d)))
  {
    hide CompactText, PropertyLine;
    CompactDigits(d);
    DigitsLong(CompactText(d));
    LineWrites("DTSTART", "VALUE=DATE", CompactText(d));
  }

  lemma NameWrites(summary: Option<string>)
    requires summary.Some? ==> '\r' !in summary.value
    ensures forall p | p in NameItems(summary) :: ItemWrites(p)
  {
    hide Escaped, PropertyLine;
    if summary.Some? {
      EscapedLong(summary.value);
      LineWrites("SUMMARY", "", Escaped(summary.value));
    }
  }

  lemma StatusWrites()
    ensures ItemWrites(Prop("STATUS", "", "CANCELLED"))
  {
    hide PropertyLine;
    LineWrites("STATUS", "", "CANCELLED");
  }

  lemma {:induction false} ItemsWrite(items: seq<Item>)
    requires forall p | p in items :: ItemWrites(p)
    ensures forall l | l in LinesOf(items) :: Writes(l)
  {
    hide Writes, PropertyLine;
    if items != [] {
      assert items[0] in items && forall p | p in items[1..] :: p in items;
      ItemsWrite(items[1..]);
      assert LinesOf(items) == ItemLines(items[0]) + LinesOf(items[1..]);
    }
  }

  predicate EntryWrites(entry: Entry) {
    forall l | l in EntryLines(entry) :: Writes(l)
  }

  lemma EventWrites(items: seq<Item>)
    requires forall p | p in items :: ItemWrites(p)
    ensures EntryWrites(EventOf(items))
  {
    hide ItemWrites, LinesOf;
    ItemsWrite(items);
    LineWrites("BEGIN", "", "VEVENT");
    LineWrites("END", "", "VEVENT");
  }

  lemma {:induction false} EntriesWrite(events: seq<Event>)
    requires GoodEvents(events) && forall e | e in events :: OneLined(e)
    ensures forall x | x in EventEntries(events) :: EntryWrites(x)
  {
    hide EntryWrites, Items, GoodEvent, ItemWrites;
    if events != [] {
      assert events[0] in events && forall x | x in events[1..] :: x in events;
      ItemsOfWrite(events[0]);
      EventWrites(Items(events[0]));
      EntriesWrite(events[1..]);
    }
  }

  lemma {:induction false} FileWrites(entries: seq<Entry>)
    requires forall x | x in entries :: EntryWrites(x)
    ensures forall l | l in FileLines(entries) :: Writes(l)
  {
    hide Writes, EntryLines;
    if entries != [] {
      assert entries[0] in entries && forall x | x in entries[1..] :: x in entries;
      FileWrites(entries[1..]);
      assert FileLines(entries) == EntryLines(entries[0]) + FileLines(entries[1..]);
    }
  }

  lemma MarkersWrite()
    ensures EntryWrites(Outside("BEGIN:VCALENDAR")) && EntryWrites(Outside("END:VCALENDAR"))
  {
  }

  lemma PlainWrites(events: seq<Event>)
    requires GoodEvents(events) && forall e | e in events :: OneLined(e)
    ensures forall l | l in PlainLines(events) :: Writes(l)
  {
    hide Writes, EntryWrites, GoodEvent, EventEntries, FileLines;
    EntriesWrite(events);
    MarkersWrite();
    FileWrites([Outside("BEGIN:VCALENDAR")] + (EventEntries(events) + [Outside("END:VCALENDAR")]));
  }

  lemma FileFirst(line: string, more: seq<Entry>)
    ensures var lines := FileLines([Outside(line)] + more);
      lines != [] && lines[0] == line
  {
    assert ([Outside(line)] + more)[1..] == more;
  }

  lemma PlainHolds(events: seq<Event>)
    requires GoodEvents(events)
    ensures FileOf(PlainLines(events), events)
  {
    hide GoodEvent, Holds, EventEntries, GoodEntry, FileLines;
    var rest := EventEntries(events) + [Outside("END:VCALENDAR")];
    var begin := Outside("BEGIN:VCALENDAR");
    EntriesHold(events);
    CalendarMarker("BEGIN");
    assert "BEGIN" + ":VCALENDAR" == "BEGIN:VCALENDAR";
    HoldsOutside(begin, rest, events);
    FileFirst("BEGIN:VCALENDAR", rest);
    assert FileLines([begin] + rest) == PlainLines(events);
  }

  /** Every list of events whose summaries fit on a line has a file: its plain one. */
  lemma PlainPrints(events: seq<Event>)
    requires GoodEvents(events) && forall e | e in events :: OneLined(e)
    ensures Prints(Plain(events), events)
  {
    hide GoodEvent, PlainLines, Writes, GoodFold, FileOf, FileText, Ended, Texts, Pieces, Wholes, Unfoldeds;
    PlainWrites(events);
    UnfoldedsAre(PlainLines(events));
    PlainHolds(events);
    var folds := Unfoldeds(PlainLines(events));
    assert Plain(events) == FileText(false, Ended(PlainLines(events)));
    assert Texts(Ended(PlainLines(events))) == Pieces(folds) && FileOf(Wholes(folds), events);
  }

  /** Writing events out and importing the file gives back exactly their holidays, within the limits. */
  lemma PlainRoundTrip(events: seq<Event>, out: seq<Holiday>)
    requires GoodEvents(events) && events != [] && forall e | e in events :: OneLined(e)
    requires Utf8Size(Plain(events)) <= 1048576 && WithinLimits(events)
    ensures Read(Utf8(Plain(events))).Ok?
    ensures Lists(out, Read(Utf8(Plain(events))).value) ==> Exactly(out, events)
  {
    hide Plain, Prints, Read, Lists, Exactly, WithinLimits, GoodEvent, Utf8Size;
    PlainPrints(events);
    PrintedFileImports(Plain(events), events);
  }

  // ---- A file whose holidays are out of order ----

  /** Two days from the last of the year 9999. */
  const LATE := Event(Date(9999, 12, 31), For(2), None, false)

  lemma {:induction false} WrittenShort(lines: seq<string>)
    requires forall l | l in lines :: |l| <= 98
    ensures |Written(Ended(lines))| <= 100 * |lines|
  {
    if lines != [] {
      assert lines[0] in lines && forall l | l in lines[1..] :: l in lines;
      WrittenShort(lines[1..]);
      WrittenFirst(lines);
    }
  }

  lemma WrittenFirst(lines: seq<string>)
    requires lines != []
    ensures |Written(Ended(lines))| == |lines[0]| + 2 + |Written(Ended(lines[1..]))|
  {
    assert Ended(lines) == [(lines[0], true)] + Ended(lines[1..]);
    assert Ended(lines)[1..] == Ended(lines[1..]);
  }

  lemma {:induction false} SizeShort(s: string)
    ensures Utf8Size(s) <= 4 * |s|
  {
    if s != [] {
      SizeShort(s[1..]);
    }
  }

  lemma LateEvents()
    ensures GoodEvents([LATE]) && OneLined(LATE) && WithinLimits([LATE])
  {
    assert GoodEvent(LATE);
    var from := ToDay(LATE.start);
    forall n | n in DaysOff([LATE])
      ensures n in {from, from + 1}
    {
      LastCovers([LATE], n);
    }
    SubsetSize(DaysOff([LATE]), {from, from + 1});
  }

  lemma LateLines()
    requires GoodEvents([LATE])
    ensures PlainLines([LATE]) == ["BEGIN:VCALENDAR", "BEGIN:VEVENT"]
      + [PropertyLine("DTSTART", "VALUE=DATE", CompactText(LATE.start))]
      + [PropertyLine("DURATION", "", "P" + Decimal(2) + "D")]
      + ["END:VEVENT", "END:VCALENDAR"]
  {
    hide CompactText, Decimal;
    var start := Prop("DTSTART", "VALUE=DATE", CompactText(LATE.start));
    var length := Prop("DURATION", "", "P" + Decimal(2) + "D");
    assert LATE in [LATE];
    assert Items(LATE) == [start, length];
    LinesOfTwo(start, length);
    assert EventEntries([LATE]) == [EventOf([start, length])];
    var first, last := Outside("BEGIN:VCALENDAR"), Outside("END:VCALENDAR");
    assert [first] + (EventEntries([LATE]) + [last]) == [first, EventOf([start, length]), last];
    FileOfThree(first, EventOf([start, length]), last);
    assert PropertyLine("BEGIN", "", "VEVENT") == "BEGIN:VEVENT" && PropertyLine("END", "", "VEVENT") == "END:VEVENT";
  }

  lemma LinesFirst(a: Item, more: seq<Item>)
    ensures LinesOf([a] + more) == ItemLines(a) + LinesOf(more)
  {
    hide ItemLines;
    assert ([a] + more)[1..] == more;
  }

  lemma FileLinesFirst(a: Entry, more: seq<Entry>)
    ensures FileLines([a] + more) == EntryLines(a) + FileLines(more)
  {
    hide EntryLines;
    assert ([a] + more)[1..] == more;
  }

  lemma LinesOfTwo(a: Item, b: Item)
    ensures LinesOf([a, b]) == ItemLines(a) + ItemLines(b)
  {
    hide ItemLines;
    assert [a, b] == [a] + [b] && [b] == [b] + [];
    LinesFirst(a, [b]);
    LinesFirst(b, []);
    assert LinesOf([]) == [];
  }

  lemma FileOfThree(a: Entry, b: Entry, c: Entry)
    ensures FileLines([a, b, c]) == EntryLines(a) + EntryLines(b) + EntryLines(c)
  {
    hide EntryLines;
    FileLinesFirst(a, [b, c]);
    FileLinesFirst(b, [c]);
    FileLinesFirst(c, []);
    assert [a] + [b, c] == [a, b, c] && [b] + [c] == [b, c] && [c] + [] == [c];
    assert FileLines([]) == [];
  }

  lemma LateIsShort()
    requires GoodEvents([LATE])
    ensures Utf8Size(Plain([LATE])) <= MAX_ICS_BYTES
  {
    hide Utf8Size, PlainLines, Ended, Written, CompactText;
    LateLines();
    assert |CompactText(LATE.start)| <= 8 by {
      LateStart();
    }
    assert |Decimal(2)| == 1;
    WrittenShort(PlainLines([LATE]));
    SizeShort(Plain([LATE]));
  }

  lemma LateStart()
    ensures |CompactText(LATE.start)| == 8
  {
  }

  /** A file the import takes, and lists out of order: its second day, in the year 10000, comes before its first. */
  lemma LateFile(out: seq<Holiday>)
    ensures GoodEvents([LATE]) && Prints(Plain([LATE]), [LATE])
    ensures Read(Utf8(Plain([LATE]))).Ok?
    ensures Lists(out, Read(Utf8(Plain([LATE]))).value) ==> Exactly(out, [LATE]) && !InDayOrder(out, [LATE])
  {
    hide Plain, Prints, Read, Lists, Exactly, InDayOrder, WithinLimits, Utf8Size;
    LateEvents();
    LateIsShort();
    PlainPrints([LATE]);
    PlainRoundTrip([LATE], out);
    if Lists(out, Read(Utf8(Plain([LATE]))).value) {
      InOrderUnlessPast9999(out, [LATE]);
      LatePasses();
    }
  }

  lemma LatePasses()
    ensures LATE in [LATE] && !LATE.cancelled && GoodEvent(LATE) && EndDay(LATE) > ToDay(YEAR_10000)
  {
  }
}
