/** Which calendar files are refused, and for what: said of the items of each event, whatever way the file is
    printed. */
module IcsRefusals {
  import opened Wrappers
  import opened Text
  import opened Dates
  import opened IcsText
  import opened IcsImport
  import opened IcsPrinted
  import opened IcsHolidays
  import opened IcsPlain

  // ---- What an event's items say ----

  /** An event has a property of its own by one of some names. */
  predicate Says(items: seq<Item>, names: set<string>) {
    exists i | 0 <= i < |items| :: items[i].Prop? && NameOf(items[i].name) in names
  }

  predicate Cancels(x: Item) {
    x.Prop? && NameOf(x.name) == "STATUS" && SameFold(Trim(x.value), "CANCELLED")
  }

  predicate Cancelled(items: seq<Item>) {
    exists i | 0 <= i < |items| :: Cancels(items[i])
  }

  /** An event's own property by a name: the last one, when there are several. */
  function LastProp(items: seq<Item>, name: string): Option<Item> {
    if items == [] then None
    else if LastProp(items[1..], name).Some? then LastProp(items[1..], name)
    else if items[0].Prop? && NameOf(items[0].name) == name then Some(items[0])
    else None
  }

  lemma {:induction false} LastPropIs(items: seq<Item>, name: string)
    ensures LastProp(items, name).None? <==> forall x | x in items && x.Prop? :: NameOf(x.name) != name
    ensures LastProp(items, name).Some? ==> exists i | 0 <= i < |items| ::
      && items[i] == LastProp(items, name).value && items[i].Prop? && NameOf(items[i].name) == name
      && forall j | i < j < |items| && items[j].Prop? :: NameOf(items[j].name) != name
  {
    hide NameOf;
    if items != [] {
      var x, rest := items[0], items[1..];
      assert items == [x] + rest;
      LastPropIs(rest, name);
      if LastProp(rest, name).Some? {
        var i :| && 0 <= i < |rest| && rest[i] == LastProp(rest, name).value
                 && rest[i].Prop? && NameOf(rest[i].name) == name
                 && forall j | i < j < |rest| && rest[j].Prop? :: NameOf(rest[j].name) != name;
        assert items[i + 1] == rest[i] && forall j | i + 1 < j < |items| :: items[j] == rest[j - 1];
      } else {
        assert forall j | 0 < j < |items| :: items[j] == rest[j - 1] && rest[j - 1] in rest;
      }
    }
  }

  /** A day's value that is a time of day. */
  predicate Timed(x: Item) {
    && x.Prop? && (NameOf(x.name) == "DTSTART" || NameOf(x.name) == "DTEND")
    && (Contains(Trim(x.value), "T") || Contains(Upper(x.params), "VALUE=DATE-TIME"))
  }

  lemma SaysFirst(x: Item, rest: seq<Item>, names: set<string>)
    ensures Says([x] + rest, names) <==> (x.Prop? && NameOf(x.name) in names) || Says(rest, names)
    ensures Cancelled([x] + rest) <==> Cancels(x) || Cancelled(rest)
  {
    hide NameOf, Cancels;
    var all := [x] + rest;
    assert all[0] == x && forall i | 0 <= i < |rest| :: rest[i] == all[i + 1];
  }

  lemma LastFirst(x: Item, rest: seq<Item>, name: string)
    ensures LastProp([x] + rest, name) ==
      if LastProp(rest, name).Some? then LastProp(rest, name)
      else if x.Prop? && NameOf(x.name) == name then Some(x) else None
  {
    hide NameOf;
    assert ([x] + rest)[1..] == rest;
  }

  /** What one property of the event's own changes. */
  lemma PropertySays(b: IcsEvent, x: Item)
    requires x.Prop? && Property(b, Content(NameOf(x.name), x.params, x.value)).Ok?
    ensures var e := Property(b, Content(NameOf(x.name), x.params, x.value)).value;
      && e.recurring == (b.recurring || NameOf(x.name) in {"RRULE", "RDATE"})
      && e.cancelled == (b.cancelled || Cancels(x))
      && (if NameOf(x.name) == "DTSTART" then e.start.Some? && IcsDate(x.params, x.value) == Ok(e.start.value)
          else e.start == b.start)
      && (if NameOf(x.name) == "DTEND" then e.end.Some? && IcsDate(x.params, x.value) == Ok(e.end.value)
          else e.end == b.end)
      && (if NameOf(x.name) == "DURATION" then IcsDuration(x.value) == Ok(e.length) else e.length == b.length)
      && e.summary == if NameOf(x.name) == "SUMMARY" then Trim(Unescaped(x.value)) else b.summary
  {
    hide NameOf, IcsDate, IcsDuration, SameFold, Trim, Unescaped;
  }

  lemma NestedSays(b: IcsEvent, x: Item, rest: seq<Item>)
    requires x.Nested?
    ensures Apply(b, [x] + rest) == Apply(b, rest)
  {
    assert ([x] + rest)[1..] == rest;
  }

  lemma PropFirst(b: IcsEvent, x: Item, rest: seq<Item>)
    requires x.Prop?
    ensures var p := Property(b, Content(NameOf(x.name), x.params, x.value));
      Apply(b, [x] + rest) == if p.Ok? then Apply(p.value, rest) else p
  {
    hide Property, NameOf;
    assert ([x] + rest)[1..] == rest;
  }

  /** What is read of an event, by its last property of each kind. */
  ghost predicate ReadOf(b: IcsEvent, e: IcsEvent, items: seq<Item>) {
    var start, end := LastProp(items, "DTSTART"), LastProp(items, "DTEND");
    var length, title := LastProp(items, "DURATION"), LastProp(items, "SUMMARY");
    && (e.recurring <==> b.recurring || Says(items, {"RRULE", "RDATE"}))
    && (e.cancelled <==> b.cancelled || Cancelled(items))
    && (if start.None? then e.start == b.start else GivesDay(start.value, e.start))
    && (if end.None? then e.end == b.end else GivesDay(end.value, e.end))
    && (if length.None? then e.length == b.length else GivesLength(length.value, e.length))
    && (if title.None? then e.summary == b.summary else GivesTitle(title.value, e.summary))
  }

  predicate GivesDay(x: Item, d: Option<Date>) {
    x.Prop? && d.Some? && IcsDate(x.params, x.value) == Ok(d.value)
  }

  predicate GivesLength(x: Item, n: int) {
    x.Prop? && IcsDuration(x.value) == Ok(n)
  }

  predicate GivesTitle(x: Item, title: string) {
    x.Prop? && title == Trim(Unescaped(x.value))
  }

  /** An event whose properties can all be read repeats, is cancelled, starts, ends, lasts and is named as its
      own properties say; those of components inside it count for nothing, and of two of a kind the last stands. */
  lemma {:induction false} AppliedSays(b: IcsEvent, items: seq<Item>)
    requires Apply(b, items).Ok?
    ensures ReadOf(b, Apply(b, items).value, items)
    decreases |items|
  {
    hide Property, NameOf, Apply, ReadOf;
    if items == [] {
      NothingSaid(b);
    } else {
      var x, rest := items[0], items[1..];
      assert items == [x] + rest;
      if x.Nested? {
        NestedSays(b, x, rest);
        AppliedSays(b, rest);
        NestedReads(b, Apply(b, rest).value, x, rest);
      } else {
        PropFirst(b, x, rest);
        PropertySays(b, x);
        var e := Property(b, Content(NameOf(x.name), x.params, x.value)).value;
        AppliedSays(e, rest);
        PropReads(b, e, Apply(e, rest).value, x, rest);
      }
    }
  }

  lemma NothingSaid(b: IcsEvent)
    ensures Apply(b, []) == Ok(b) && ReadOf(b, b, [])
    ensures !Says([], {"RRULE", "RDATE"}) && !Cancelled([])
  {
  }

  lemma FirstOfEach(x: Item, rest: seq<Item>)
    ensures forall name | name in {"DTSTART", "DTEND", "DURATION", "SUMMARY"} ::
      LastProp([x] + rest, name) ==
        if LastProp(rest, name).Some? then LastProp(rest, name)
        else if x.Prop? && NameOf(x.name) == name then Some(x) else None
  {
    hide NameOf, LastProp;
    forall name | name in {"DTSTART", "DTEND", "DURATION", "SUMMARY"} {
      LastFirst(x, rest, name);
    }
  }

  lemma NestedReads(b: IcsEvent, e: IcsEvent, x: Item, rest: seq<Item>)
    requires x.Nested? && ReadOf(b, e, rest)
    ensures ReadOf(b, e, [x] + rest)
  {
    hide NameOf, LastProp, Says, Cancelled, GivesDay, GivesLength, GivesTitle;
    FirstOfEach(x, rest);
    SaysFirst(x, rest, {"RRULE", "RDATE"});
  }

  lemma PropReads(b: IcsEvent, e: IcsEvent, last: IcsEvent, x: Item, rest: seq<Item>)
    requires x.Prop? && ReadOf(e, last, rest)
    requires Property(b, Content(NameOf(x.name), x.params, x.value)) == Ok(e)
    ensures ReadOf(b, last, [x] + rest)
  {
    hide Property, NameOf, LastProp, Says, Cancelled, IcsDate, IcsDuration, Trim, Unescaped, Cancels;
    FirstOfEach(x, rest);
    SaysFirst(x, rest, {"RRULE", "RDATE"});
    PropertySays(b, x);
  }

  /** Properties are refused in the order they stand, and one by one. */
  lemma {:induction false} AppliedInTurn(b: IcsEvent, p: seq<Item>, q: seq<Item>)
    ensures Apply(b, p + q) == if Apply(b, p).Ok? then Apply(Apply(b, p).value, q) else Apply(b, p)
    decreases |p|
  {
    hide Property, NameOf;
    if p == [] {
      assert p + q == q;
    } else {
      assert (p + q)[1..] == p[1..] + q && (p + q)[0] == p[0];
      match p[0] {
        case Nested(_, _) => AppliedInTurn(b, p[1..], q);
        case Prop(name, params, value) =>
          var r := Property(b, Content(NameOf(name), params, value));
          if r.Ok? {
            AppliedInTurn(r.value, p[1..], q);
          }
      }
    }
  }

  /** The first time of day refuses the event. */
  lemma TimedIsRefused(p: seq<Item>, x: Item, q: seq<Item>)
    requires Apply(BLANK, p).Ok? && Timed(x)
    ensures Apply(BLANK, p + [x] + q) == Err(TimeOfDay(Trim(x.value)))
  {
    hide Apply, NameOf, Contains, Upper, Trim, IcsDuration, SameFold, Unescaped, ParseCompact;
    assert p + [x] + q == p + ([x] + q);
    AppliedInTurn(BLANK, p, [x] + q);
    PropFirst(Apply(BLANK, p).value, x, q);
  }

  // ---- The days an event comes to ----

  /** What is wrong with an event that is not cancelled, once its properties are read; a thousand days are
      the most it may cover. */
  lemma RangeRefuses(e: IcsEvent)
    requires Dated(e)
    ensures var r := Range(e);
      && (r == Err(Repeats) <==> !e.cancelled && e.recurring)
      && (r == Err(NoStart) <==> !e.cancelled && !e.recurring && e.start.None?)
      && (r == Err(EndsBeforeItStarts) <==>
            !e.cancelled && !e.recurring && e.start.Some? && e.end.Some?
            && ToDay(e.end.value) < ToDay(e.start.value))
      && (r == Err(CoversTooMuch) <==>
            !e.cancelled && !e.recurring && e.start.Some?
            && (if e.end.Some? then ToDay(e.end.value) - ToDay(e.start.value) > 1000 else e.length > 1000))
      && (r.Err? ==> r.error in {Repeats, NoStart, EndsBeforeItStarts, CoversTooMuch})
      && (r.Ok? && !e.cancelled ==>
            && r.value.0 == ToDay(e.start.value) < r.value.1
            && (e.end.Some? && ToDay(e.end.value) > r.value.0 ==> r.value.1 == ToDay(e.end.value))
            && (e.end.Some? && ToDay(e.end.value) == r.value.0 ==> r.value.1 == r.value.0 + 1)
            && (e.end.None? && e.length > 0 ==> r.value.1 == r.value.0 + e.length)
            && (e.end.None? && e.length <= 0 ==> r.value.1 == r.value.0 + 1))
      && (r.Ok? && e.cancelled ==> r.value == (0, 0))
  {
    hide ToDay;
  }

  // ---- Files ----

  /** A text prints some lines: each folded anywhere, with either line ending, perhaps after a byte order mark;
      and it is no larger than a file may be. */
  ghost predicate PrintsLines(text: string, all: seq<string>) {
    && all != [] && Leads(all[0]) && Utf8Size(text) <= 1048576
    && exists mark, lines, folds ::
         && text == FileText(mark, lines) && Texts(lines) == Pieces(folds)
         && (forall i | 0 <= i < |folds| :: GoodFold(folds[i])) && Wholes(folds) == all
  }

  lemma LinesRead(text: string, all: seq<string>)
    requires PrintsLines(text, all)
    ensures Read(Utf8(text)) == ByDayOf(all)
  {
    hide ByDayOf, Unfolded, FileText, Texts, Pieces, GoodFold, Wholes, Whole, Utf8Size, Leads;
    var mark, lines, folds :|
      && text == FileText(mark, lines) && Texts(lines) == Pieces(folds)
      && (forall i | 0 <= i < |folds| :: GoodFold(folds[i])) && Wholes(folds) == all;
    LedByFirst(folds);
    TextUnfolds(mark, lines, folds);
  }

  /** A file of entries in which one event is singled out: what stands before it and after it. */
  ghost predicate FileWith(text: string, before: seq<Entry>, items: seq<Item>, after: seq<Entry>) {
    && PrintsLines(text, FileLines(before + [EventOf(items)] + after))
    && forall x | x in before + [EventOf(items)] + after :: GoodEntry(x)
  }

  /** Nothing in some entries is refused: their properties can be read, their events come to days, and those
      are not too many. */
  ghost predicate Clear(entries: seq<Entry>) {
    && EventsIn(entries).Ok?
    && (forall e | e in EventsIn(entries).value :: Dated(e))
    && PutEvents(map[], EventsIn(entries).value).Ok?
  }

  /** Entries that hold events are clear, as long as those keep to the limits. */
  lemma HeldIsClear(entries: seq<Entry>, events: seq<Event>)
    requires GoodEvents(events) && Holds(entries, events) && WithinLimits(events)
    ensures Clear(entries)
  {
    hide Holds, GoodEvent, WithinLimits, EventsIn, PutEvents, TellAll, Dated, Represents;
    HeldEvents(entries, events);
    TellAllDated(events);
    NothingYet();
    PutAll(map[], [], events);
    assert [] + events == events;
  }

  lemma {:induction false} EventsJoin(p: seq<Entry>, q: seq<Entry>)
    ensures EventsIn(p + q) ==
      if EventsIn(p).Err? then EventsIn(p)
      else if EventsIn(q).Err? then EventsIn(q)
      else Ok(EventsIn(p).value + EventsIn(q).value)
    decreases |p|
  {
    hide Apply;
    if p == [] {
      assert p + q == q;
      assert EventsIn(q).Ok? ==> [] + EventsIn(q).value == EventsIn(q).value;
    } else {
      assert (p + q)[1..] == p[1..] + q && (p + q)[0] == p[0];
      EventsJoin(p[1..], q);
      if p[0].EventOf? && Apply(BLANK, p[0].items).Ok? && EventsIn(p[1..]).Ok? && EventsIn(q).Ok? {
        var e := Apply(BLANK, p[0].items).value;
        assert ([e] + EventsIn(p[1..]).value) + EventsIn(q).value == [e] + (EventsIn(p[1..]).value + EventsIn(q).value);
      }
    }
  }

  lemma OneEvent(items: seq<Item>)
    ensures var e := Apply(BLANK, items);
      EventsIn([EventOf(items)]) == if e.Ok? then Ok([e.value]) else Err(e.error)
  {
    hide Apply;
    var e := Apply(BLANK, items);
    assert [EventOf(items)][1..] == [] && EventsIn([]) == Ok([]);
    assert e.Ok? ==> [e.value] + [] == [e.value];
  }

  /** Events are taken one after another, and the first that is refused is what the file is refused for. */
  lemma {:induction false} PutInTurn(byDay: ByDay, done: seq<IcsEvent>, e: IcsEvent, more: seq<IcsEvent>)
    requires forall x | x in done + [e] + more :: Dated(x)
    requires forall x | x in done :: Dated(x)
    requires PutEvents(byDay, done).Ok? && Dated(e) && Range(e).Err?
    ensures PutEvents(byDay, done + [e] + more) == Err(Range(e).error)
    decreases |done|
  {
    hide Range, Dated, PutDays, DayNames, HolidayName;
    var all := done + [e] + more;
    if done == [] {
      assert all[0] == e;
    } else {
      var first := done[0];
      assert all[0] == first && all[1..] == done[1..] + [e] + more;
      assert first in done && forall x | x in done[1..] :: x in done;
      assert forall x | x in all[1..] :: x in all;
      var put := PutDays(byDay, DayNames(Range(first).value.0, Range(first).value.1), HolidayName(first.summary));
      PutInTurn(put, done[1..], e, more);
    }
  }

  /** What reading a file's entries gives, when no property is refused, is a list of events with days there are. */
  lemma EntriesDated(entries: seq<Entry>)
    requires (forall x | x in entries :: GoodEntry(x)) && EventsIn(entries).Ok?
    ensures forall e | e in EventsIn(entries).value :: Dated(e)
    ensures ScanLines(START, FileLines(entries)) == Ok(Scan(EventsIn(entries).value, None, 0))
  {
    hide GoodEntry, EventsIn, FileLines, ScanLines, Dated;
    FileScans(entries, []);
    var events := EventsIn(entries).value;
    assert [] + events == events;
    assert ScanLines(START, FileLines(entries)) == Ok(Scan(events, None, 0));
    ScanLinesDated(START, FileLines(entries));
  }

  /** The event singled out is refused for its days, and so is the file. */
  lemma EventRefuses(text: string, before: seq<Entry>, items: seq<Item>, after: seq<Entry>)
    requires FileWith(text, before, items, after) && Clear(before) && EventsIn(after).Ok?
    requires Apply(BLANK, items).Ok? && Dated(Apply(BLANK, items).value) && Range(Apply(BLANK, items).value).Err?
    ensures Read(Utf8(text)) == Err(Range(Apply(BLANK, items).value).error)
  {
    hide PrintsLines, GoodEntry, EventsIn, FileLines, ScanLines, Apply, Range, PutEvents, Dated, Read, Leads, Utf8Size;
    var entries := before + [EventOf(items)] + after;
    LinesRead(text, FileLines(entries));
    LinesLed(text, FileLines(entries));
    OneEvent(items);
    EventsJoin(before + [EventOf(items)], after);
    EventsJoin(before, [EventOf(items)]);
    EntriesDated(entries);
    var (done, e, more) := (EventsIn(before).value, Apply(BLANK, items).value, EventsIn(after).value);
    assert EventsIn(entries).value == done + [e] + more;
    assert e in done + [e] + more;
    PutInTurn(map[], done, e, more);
    EventsPut(FileLines(entries), done + [e] + more);
  }

  lemma LinesLed(text: string, all: seq<string>)
    requires PrintsLines(text, all)
    ensures all != [] && Leads(all[0])
  {
    hide Leads;
  }

  lemma EventsPut(lines: seq<string>, events: seq<IcsEvent>)
    requires lines != [] && Leads(lines[0]) && ScanLines(START, lines) == Ok(Scan(events, None, 0))
    requires forall e | e in events :: Dated(e)
    ensures ByDayOf(lines) == if events == [] then Err(NoEvents) else PutEvents(map[], events)
  {
    hide ScanLines, PutEvents, Dated, SameFold;
  }

  lemma ItemsDated(items: seq<Item>)
    requires GoodItems(items) && Apply(BLANK, items).Ok?
    ensures Dated(Apply(BLANK, items).value)
  {
    hide Apply, Dated, FileLines, ScanLines;
    var entries := [EventOf(items)];
    OneEvent(items);
    EntriesDated(entries);
    assert Apply(BLANK, items).value in EventsIn(entries).value;
  }

  lemma FileItems(text: string, before: seq<Entry>, items: seq<Item>, after: seq<Entry>)
    requires FileWith(text, before, items, after)
    ensures GoodItems(items)
  {
    hide PrintsLines, GoodItems;
    assert EventOf(items) in before + [EventOf(items)] + after;
  }

  /** An event that repeats, by a property of its own, refuses the file, unless it is cancelled or something
      before it is refused; however the file is printed, and wherever the property stands. */
  lemma RepeatingIsRefused(text: string, before: seq<Entry>, items: seq<Item>, after: seq<Entry>)
    requires FileWith(text, before, items, after) && Clear(before) && EventsIn(after).Ok? && Apply(BLANK, items).Ok?
    requires Says(items, {"RRULE", "RDATE"}) && !Cancelled(items)
    ensures Read(Utf8(text)) == Err(Repeats)
  {
    hide FileWith, Clear, Says, Cancelled, LastProp, EventsIn, Apply, Range, Dated, Read;
    FileItems(text, before, items, after);
    ItemsDated(items);
    AppliedSays(BLANK, items);
    RangeRefuses(Apply(BLANK, items).value);
    EventRefuses(text, before, items, after);
  }

  /** So does an event with no start of its own. */
  lemma StartlessIsRefused(text: string, before: seq<Entry>, items: seq<Item>, after: seq<Entry>)
    requires FileWith(text, before, items, after) && Clear(before) && EventsIn(after).Ok? && Apply(BLANK, items).Ok?
    requires !Says(items, {"RRULE", "RDATE"}) && !Cancelled(items) && LastProp(items, "DTSTART").None?
    ensures Read(Utf8(text)) == Err(NoStart)
  {
    hide FileWith, Clear, Says, Cancelled, LastProp, EventsIn, Apply, Range, Dated, Read;
    FileItems(text, before, items, after);
    ItemsDated(items);
    AppliedSays(BLANK, items);
    RangeRefuses(Apply(BLANK, items).value);
    EventRefuses(text, before, items, after);
  }

  /** And one whose last end is before its last start. */
  lemma BackwardIsRefused(
    text: string, before: seq<Entry>, items: seq<Item>, after: seq<Entry>, from: Date, to: Date)
    requires FileWith(text, before, items, after) && Clear(before) && EventsIn(after).Ok? && Apply(BLANK, items).Ok?
    requires !Says(items, {"RRULE", "RDATE"}) && !Cancelled(items)
    requires LastProp(items, "DTSTART").Some? && GivesDay(LastProp(items, "DTSTART").value, Some(from))
    requires LastProp(items, "DTEND").Some? && GivesDay(LastProp(items, "DTEND").value, Some(to))
    requires Valid(from) && Valid(to) && ToDay(to) < ToDay(from)
    ensures Read(Utf8(text)) == Err(EndsBeforeItStarts)
  {
    hide FileWith, Clear, Says, Cancelled, LastProp, EventsIn, Apply, Range, Dated, Read, ToDay;
    FileItems(text, before, items, after);
    ItemsDated(items);
    AppliedSays(BLANK, items);
    var e := Apply(BLANK, items).value;
    assert e.start == Some(from) && e.end == Some(to);
    RangeRefuses(e);
    EventRefuses(text, before, items, after);
  }

  /** A start or an end that is a time of day refuses the file before anything else in or after its event is
      looked at, cancelled or not. */
  lemma TimeOfDayIsRefused(
    text: string, before: seq<Entry>, p: seq<Item>, x: Item, q: seq<Item>, after: seq<Entry>)
    requires FileWith(text, before, p + [x] + q, after) && EventsIn(before).Ok? && Apply(BLANK, p).Ok?
    requires x.Prop? && Timed(x)
    ensures Read(Utf8(text)) == Err(TimeOfDay(Trim(x.value)))
  {
    hide PrintsLines, GoodEntry, EventsIn, FileLines, ScanLines, Apply, Read, Leads, Timed, Trim, Utf8Size;
    var items := p + [x] + q;
    var entries := before + [EventOf(items)] + after;
    TimedIsRefused(p, x, q);
    LinesRead(text, FileLines(entries));
    LinesLed(text, FileLines(entries));
    OneEvent(items);
    EventsJoin(before + [EventOf(items)], after);
    EventsJoin(before, [EventOf(items)]);
    FileScans(entries, []);
    ScanRefuses(FileLines(entries), TimeOfDay(Trim(x.value)));
  }

  lemma ScanRefuses(lines: seq<string>, x: Refusal)
    requires lines != [] && Leads(lines[0]) && ScanLines(START, lines) == Err(x)
    ensures ByDayOf(lines) == Err(x)
  {
    hide ScanLines, SameFold;
  }

  /** A file without an event, of lines outside any, is refused for that. */
  lemma EventlessIsRefused(text: string, entries: seq<Entry>)
    requires PrintsLines(text, FileLines(entries)) && forall x | x in entries :: GoodEntry(x) && x.Outside?
    ensures Read(Utf8(text)) == Err(NoEvents)
  {
    hide PrintsLines, GoodEntry, FileLines, ScanLines, Read, Leads, Utf8Size;
    LinesRead(text, FileLines(entries));
    LinesLed(text, FileLines(entries));
    NoEventsIn(entries);
    EntriesDated(entries);
    EventsPut(FileLines(entries), []);
  }

  lemma {:induction false} NoEventsIn(entries: seq<Entry>)
    requires forall x | x in entries :: x.Outside?
    ensures EventsIn(entries) == Ok([])
  {
    if entries != [] {
      assert entries[0] in entries && forall x | x in entries[1..] :: x in entries;
      NoEventsIn(entries[1..]);
    }
  }

  /** Text that does not begin a calendar, a file too large, and one that is not text are refused before
      anything in them is looked at. */
  lemma OtherBodies(text: string, size: nat)
    ensures Read(Broken) == Err(Unreadable)
    ensures Read(NotUtf8(size)) == Err(if size <= 1048576 then BadEncoding else TooLarge)
    ensures Utf8Size(text) > 1048576 ==> Read(Utf8(text)) == Err(TooLarge)
    ensures Utf8Size(text) <= 1048576 && (Unfolded(text) == [] || !SameFold(Unfolded(text)[0], "BEGIN:VCALENDAR")) ==>
      Read(Utf8(text)) == Err(NotACalendar)
  {
    hide Utf8Size, Unfolded, SameFold;
  }

  /** What a component inside an event says changes nothing of what its file comes to. */
  lemma NestedChangesNothing(
    text: string, other: string, before: seq<Entry>, p: seq<Item>, x: Item, q: seq<Item>, after: seq<Entry>)
    requires x.Nested?
    requires FileWith(text, before, p + [x] + q, after) && FileWith(other, before, p + q, after)
    ensures Read(Utf8(text)) == Read(Utf8(other))
  {
    hide PrintsLines, GoodEntry, EventsIn, FileLines, ScanLines, Apply, Read, Leads, ByDayOf, Utf8Size;
    var (whole, less) := (before + [EventOf(p + [x] + q)] + after, before + [EventOf(p + q)] + after);
    LinesRead(text, FileLines(whole));
    LinesRead(other, FileLines(less));
    LinesLed(text, FileLines(whole));
    LinesLed(other, FileLines(less));
    assert p + [x] + q == p + ([x] + q);
    AppliedInTurn(BLANK, p, [x] + q);
    AppliedInTurn(BLANK, p, q);
    if Apply(BLANK, p).Ok? {
      NestedSays(Apply(BLANK, p).value, x, q);
    }
    SameEvents(before, p + [x] + q, p + q, after);
    FileScans(whole, []);
    FileScans(less, []);
    SameScan(FileLines(whole), FileLines(less));
  }

  lemma SameEvents(before: seq<Entry>, items: seq<Item>, others: seq<Item>, after: seq<Entry>)
    requires Apply(BLANK, items) == Apply(BLANK, others)
    ensures EventsIn(before + [EventOf(items)] + after) == EventsIn(before + [EventOf(others)] + after)
  {
    hide Apply, EventsIn;
    OneEvent(items);
    OneEvent(others);
    EventsJoin(before + [EventOf(items)], after);
    EventsJoin(before, [EventOf(items)]);
    EventsJoin(before + [EventOf(others)], after);
    EventsJoin(before, [EventOf(others)]);
  }

  lemma SameScan(lines: seq<string>, others: seq<string>)
    requires lines != [] && Leads(lines[0]) && others != [] && Leads(others[0])
    requires ScanLines(START, lines) == ScanLines(START, others)
    ensures ByDayOf(lines) == ByDayOf(others)
  {
    hide ScanLines, SameFold, PutEvents;
    if ScanLines(START, lines).Ok? {
      ScanLinesDated(START, lines);
    }
  }

  // ---- A yearly holiday ----

  ghost function YearlyItems(d: Date): seq<Item>
    requires Valid(d)
  {
    [Prop("DTSTART", "VALUE=DATE", CompactText(d)), Prop("RRULE", "", "FREQ=YEARLY")]
  }

  /** The lines of a file that has one day off every year. */
  ghost function YearlyLines(d: Date): seq<string>
    requires Valid(d)
  {
    FileLines([Outside("BEGIN:VCALENDAR"), EventOf(YearlyItems(d)), Outside("END:VCALENDAR")])
  }

  lemma YearlyShort(d: Date)
    requires Writable(d)
    ensures (forall l | l in YearlyLines(d) :: Writes(l)) && YearlyLines(d) != []
    ensures YearlyLines(d)[0] == "BEGIN:VCALENDAR" && Utf8Size(FileText(false, Ended(YearlyLines(d)))) <= 1048576
  {
    hide CompactText, Writes, Ended, Utf8Size, Written;
    var start, rule := YearlyItems(d)[0], YearlyItems(d)[1];
    var first, last := Outside("BEGIN:VCALENDAR"), Outside("END:VCALENDAR");
    FileOfThree(first, EventOf([start, rule]), last);
    LinesOfTwo(start, rule);
    StartWrites(d);
    RuleWrites();
    EventWrites([start, rule]);
    MarkersWrite();
    FileWrites([first, EventOf([start, rule]), last]);
    assert |CompactText(d)| == 8 by {
      CompactLength(d);
    }
    assert PropertyLine("BEGIN", "", "VEVENT") == "BEGIN:VEVENT" && PropertyLine("END", "", "VEVENT") == "END:VEVENT";
    WrittenShort(YearlyLines(d));
    SizeShort(FileText(false, Ended(YearlyLines(d))));
  }

  lemma CompactLength(d: Date)
    requires Writable(d)
    ensures |CompactText(d)| == 8
  {
  }

  lemma RuleWrites()
    ensures ItemWrites(Prop("RRULE", "", "FREQ=YEARLY"))
  {
    hide PropertyLine;
    LineWrites("RRULE", "", "FREQ=YEARLY");
  }

  /** A day off that comes back every year is refused, and not taken for one year's. */
  lemma YearlyIsRefused(d: Date) returns (text: string)
    requires Writable(d)
    ensures text == FileText(false, Ended(YearlyLines(d)))
    ensures Read(Utf8(text)) == Err(Repeats)
  {
    hide FileText, Ended, YearlyItems, YearlyLines, FileWith, Clear, Says, Cancelled, EventsIn, Apply, Read, Utf8Size;
    text := FileText(false, Ended(YearlyLines(d)));
    YearlyShort(d);
    YearlyFile(d);
    YearlySays(d);
    ClearFirst();
    RepeatingIsRefused(text, [Outside("BEGIN:VCALENDAR")], YearlyItems(d), [Outside("END:VCALENDAR")]);
  }

  lemma ClearFirst()
    ensures Clear([Outside("BEGIN:VCALENDAR")]) && EventsIn([Outside("END:VCALENDAR")]).Ok?
  {
    NoEventsIn([Outside("BEGIN:VCALENDAR")]);
    NoEventsIn([Outside("END:VCALENDAR")]);
  }

  lemma YearlyFile(d: Date)
    requires Writable(d) && YearlyLines(d) != [] && YearlyLines(d)[0] == "BEGIN:VCALENDAR"
    requires forall l | l in YearlyLines(d) :: Writes(l)
    requires Utf8Size(FileText(false, Ended(YearlyLines(d)))) <= 1048576
    ensures FileWith(FileText(false, Ended(YearlyLines(d))),
                     [Outside("BEGIN:VCALENDAR")], YearlyItems(d), [Outside("END:VCALENDAR")])
  {
    hide YearlyLines, YearlyItems, Writes, GoodFold, FileText, Ended, Texts, Pieces, Wholes, Unfoldeds, GoodEntry;
    hide Utf8Size;
    UnfoldedsAre(YearlyLines(d));
    var folds := Unfoldeds(YearlyLines(d));
    YearlyEntries(d);
    CalendarMarker("BEGIN");
    CalendarMarker("END");
    assert "BEGIN" + ":VCALENDAR" == "BEGIN:VCALENDAR" && "END" + ":VCALENDAR" == "END:VCALENDAR";
    assert Texts(Ended(YearlyLines(d))) == Pieces(folds) && Wholes(folds) == YearlyLines(d);
  }

  lemma YearlyEntries(d: Date)
    requires Writable(d)
    ensures [Outside("BEGIN:VCALENDAR")] + [EventOf(YearlyItems(d))] + [Outside("END:VCALENDAR")]
      == [Outside("BEGIN:VCALENDAR"), EventOf(YearlyItems(d)), Outside("END:VCALENDAR")]
    ensures YearlyLines(d) == FileLines([Outside("BEGIN:VCALENDAR"), EventOf(YearlyItems(d)), Outside("END:VCALENDAR")])
    ensures GoodEntry(EventOf(YearlyItems(d)))
  {
    hide CompactText, FileLines, NameOf, GoodName, GoodParams, GoodItem;
    YearlyGood(d);
    var a, b := YearlyItems(d)[0], YearlyItems(d)[1];
    BothGood(a, b);
    assert YearlyItems(d) == [a, b];
  }

  lemma YearlyGood(d: Date)
    requires Writable(d)
    ensures GoodItem(YearlyItems(d)[0]) && GoodItem(YearlyItems(d)[1])
  {
    hide CompactText, GoodItem, GoodParams, DayParams;
    PlainParams();
    CapitalGood("DTSTART", "VALUE=DATE", CompactText(d));
    CapitalGood("RRULE", "", "FREQ=YEARLY");
  }

  lemma CapitalGood(name: string, params: string, value: string)
    requires forall i | 0 <= i < |name| :: 'A' <= name[i] <= 'Z'
    requires name != "BEGIN" && name != "END" && GoodParams(params)
    ensures GoodItem(Prop(name, params, value))
  {
    hide NameOf, GoodName, GoodParams;
    CapitalName(name);
  }

  lemma BothGood(a: Item, b: Item)
    requires GoodItem(a) && GoodItem(b)
    ensures GoodItems([a, b])
  {
    hide GoodItem;
    assert [b][1..] == [] && GoodItems([]);
    assert GoodItems([b]);
    assert [a, b][1..] == [b];
  }

  lemma YearlySays(d: Date)
    requires Writable(d)
    ensures Apply(BLANK, YearlyItems(d)).Ok?
    ensures Says(YearlyItems(d), {"RRULE", "RDATE"}) && !Cancelled(YearlyItems(d))
  {
    hide CompactText, NameOf, IcsDate, Apply, Property, Says, Cancelled, Cancels;
    var a, b := YearlyItems(d)[0], YearlyItems(d)[1];
    assert YearlyItems(d) == [a] + [b] && [b] == [b] + [];
    YearlyRead(d);
    PropFirst(BLANK, a, [b]);
    PropFirst(IcsEvent(Some(d), None, 0, "", false, false), b, []);
    NothingSaid(IcsEvent(Some(d), None, 0, "", true, false));
    SaysFirst(a, [b], {"RRULE", "RDATE"});
    SaysFirst(b, [], {"RRULE", "RDATE"});
  }

  lemma YearlyRead(d: Date)
    requires Writable(d)
    ensures var a, b := YearlyItems(d)[0], YearlyItems(d)[1];
      && Property(BLANK, Content(NameOf(a.name), a.params, a.value))
           == Ok(IcsEvent(Some(d), None, 0, "", false, false))
      && Property(IcsEvent(Some(d), None, 0, "", false, false), Content(NameOf(b.name), b.params, b.value))
           == Ok(IcsEvent(Some(d), None, 0, "", true, false))
      && NameOf(b.name) == "RRULE" && !Cancels(a) && !Cancels(b)
  {
    hide CompactText, NameOf, IcsDate, SameFold, Trim, IcsDuration, Unescaped, GoodParams, DayParams;
    CapitalName("DTSTART");
    CapitalName("RRULE");
    PlainParams();
    DateRead(d, "VALUE=DATE");
  }
}
