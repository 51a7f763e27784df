/** What an iCalendar file of all-day events means, and that importing the file printed from
    them, however it is laid out and folded, gives exactly those holidays. */
module IcsHolidays {
  import opened Wrappers
  import opened Text
  import opened Dates
  import opened IcsText
  import opened IcsImport
  import opened IcsPrinted

  /** How an all-day event says where it ends: not at all, by the day after its last, or by its length. */
  datatype Lasts = OneDay | Until(end: Date) | For(days: nat)

  datatype Event = Event(start: Date, lasts: Lasts, summary: Option<string>, cancelled: bool)

  predicate Writable(d: Date) {
    Valid(d) && 0 <= d.y < 10000
  }

  ghost predicate GoodEvent(e: Event) {
    && Writable(e.start)
    && (e.lasts.Until? ==> Writable(e.lasts.end) && ToDay(e.start) <= ToDay(e.lasts.end))
    && (e.lasts.For? ==> 1 <= e.lasts.days < 0x8000_0000_0000_0000)
  }

  // ---- What the events mean ----

  /** The day after an event's last; section 3.6.1 of RFC 5545 has DTEND not included, and one that ends
      as it starts is that day. */
  ghost function EndDay(e: Event): int
    requires GoodEvent(e)
  {
    match e.lasts
    case OneDay => ToDay(e.start) + 1
    case Until(end) => if end == e.start then ToDay(e.start) + 1 else ToDay(end)
    case For(days) => ToDay(e.start) + days
  }

  ghost predicate Covers(e: Event, n: int) {
    GoodEvent(e) && !e.cancelled && ToDay(e.start) <= n < EndDay(e)
  }

  /** From its start on: that day alone, or each before the one it runs to, or as many as it lasts. */
  lemma CoversIs(e: Event, n: int)
    requires GoodEvent(e)
    ensures Covers(e, n) <==>
      && !e.cancelled && ToDay(e.start) <= n
      && match e.lasts
         case OneDay => n == ToDay(e.start)
         case Until(end) => n < ToDay(end) || n == ToDay(e.start)
         case For(days) => n - ToDay(e.start) < days
  {
    hide ToDay;
    if e.lasts.Until? {
      BeforeIffToDay(e.start, e.lasts.end);
    }
  }

  /** What a reader gets of an event's summary: one line, trimmed, and nothing when there is none. */
  function Summary(e: Event): string {
    match e.summary
    case None => ""
    case Some(text) => Trim(OneLine(text))
  }

  function Title(e: Event): string {
    HolidayName(Summary(e))
  }

  /** The last event of the file that covers a day. */
  ghost function LastCovering(events: seq<Event>, n: int): Option<Event> {
    if events == [] then None
    else if Covers(events[|events| - 1], n) then Some(events[|events| - 1])
    else LastCovering(events[..|events| - 1], n)
  }

  /** None covers a day that has no holiday; and of those that cover one, the named event stands last. */
  lemma {:induction false} LastCoveringIs(events: seq<Event>, n: int)
    ensures var last := LastCovering(events, n);
      && (last.None? <==> forall e | e in events :: !Covers(e, n))
      && (last.Some? ==> exists i | 0 <= i < |events| ::
            && events[i] == last.value && Covers(events[i], n)
            && forall j | i < j < |events| :: !Covers(events[j], n))
  {
    hide Covers;
    if events != [] {
      var k := |events| - 1;
      var before := events[..k];
      assert events == before + [events[k]];
      LastCoveringIs(before, n);
      if !Covers(events[k], n) && LastCovering(before, n).Some? {
        var i :| 0 <= i < |before| && before[i] == LastCovering(before, n).value && Covers(before[i], n)
                 && forall j | i < j < |before| :: !Covers(before[j], n);
        assert events[i] == before[i];
        assert forall j | i < j < |events| :: j == k || events[j] == before[j];
      }
    }
  }

  ghost predicate IsOff(events: seq<Event>, n: int) {
    LastCovering(events, n).Some?
  }

  ghost function HolidayOn(events: seq<Event>, n: int): Holiday
    requires IsOff(events, n)
  {
    Holiday(DayName(n), Title(LastCovering(events, n).value))
  }

  /** The holidays of some events: one for each day an event that is not cancelled covers, named
      by the last such event, and nothing else; in order of their days' text. */
  ghost predicate Exactly(out: seq<Holiday>, events: seq<Event>) {
    && (forall n :: IsOff(events, n) ==> HolidayOn(events, n) in out)
    && (forall h | h in out :: exists n :: IsOff(events, n) && h == HolidayOn(events, n))
    && (forall i, j | 0 <= i < j < |out| :: TextBefore(out[i].day, out[j].day))
  }

  ghost predicate GoodEvents(events: seq<Event>) {
    forall e | e in events :: GoodEvent(e)
  }

  /** The days off, as a set. */
  ghost function DaysOff(events: seq<Event>): (days: set<int>)
    requires GoodEvents(events)
    ensures forall n :: n in days <==> IsOff(events, n)
  {
    if events == [] then {}
    else
      var e, before := events[|events| - 1], events[..|events| - 1];
      assert e in events && forall x | x in before :: x in events;
      DaysOff(before) + set n | ToDay(e.start) <= n < EndDay(e) && Covers(e, n)
  }

  ghost predicate Short(e: Event)
    requires GoodEvent(e)
  {
    !e.cancelled ==> EndDay(e) - ToDay(e.start) <= 1000
  }

  /** What an import takes: no event over a thousand days, and no more than a thousand days in all. */
  ghost predicate WithinLimits(events: seq<Event>)
    requires GoodEvents(events)
  {
    |DaysOff(events)| <= 1000 && forall e | e in events :: Short(e)
  }

  // ---- How an event is printed ----

  /** Parameters of a day that do not make it a time of day. */
  predicate DayParams(params: string) {
    !Contains(Upper(params), "VALUE=DATE-TIME")
  }

  /** A property that says something of an event's days or its name: its name in any case, and its value
      as printed. */
  predicate OwnProp(item: Item, e: Event, name: string) {
    && item.Prop? && GoodName(item.name) && GoodParams(item.params) && NameOf(item.name) == name
    && ((name == "DTSTART" && Valid(e.start) && DayParams(item.params) && item.value == CompactText(e.start))
        || (name == "DTEND" && e.lasts.Until? && Valid(e.lasts.end) && DayParams(item.params)
            && item.value == CompactText(e.lasts.end))
        || (name == "DURATION" && e.lasts.For? && item.value == "P" + Decimal(e.lasts.days) + "D")
        || (name == "SUMMARY" && e.summary.Some? && item.value == Escaped(e.summary.value))
        || (name == "STATUS" && e.cancelled && item.value == "CANCELLED"))
  }

  predicate Own(item: Item, e: Event) {
    item.Prop? && OwnProp(item, e, NameOf(item.name))
  }

  /** What else may stand in an event: a component of its own, or a property that says nothing of its
      days or its name. */
  predicate Neutral(item: Item) {
    GoodItem(item) &&
    (item.Prop? ==>
       && NameOf(item.name) !in {"DTSTART", "DTEND", "DURATION", "SUMMARY", "RRULE", "RDATE"}
       && (NameOf(item.name) == "STATUS" ==> !SameFold(Trim(item.value), "CANCELLED")))
  }

  predicate Has(items: seq<Item>, e: Event, name: string) {
    items != [] && (OwnProp(items[0], e, name) || Has(items[1..], e, name))
  }

  predicate AllFit(items: seq<Item>, e: Event) {
    forall x | x in items :: Neutral(x) || Own(x, e)
  }

  /** Items that show an event: its own properties, each at least once and in any order, among anything neutral. */
  predicate Shows(items: seq<Item>, e: Event) {
    && AllFit(items, e)
    && Has(items, e, "DTSTART")
    && (e.lasts.Until? ==> Has(items, e, "DTEND"))
    && (e.lasts.For? ==> Has(items, e, "DURATION"))
    && (e.summary.Some? ==> Has(items, e, "SUMMARY"))
    && (e.cancelled ==> Has(items, e, "STATUS"))
  }

  /** A file's body that holds the events in order, each among neutral items, with lines of no event between them. */
  ghost predicate Holds(entries: seq<Entry>, events: seq<Event>)
    requires GoodEvents(events)
    decreases |entries|
  {
    if entries == [] then events == []
    else
      match entries[0]
      case Outside(line) => GoodEntry(entries[0]) && Holds(entries[1..], events)
      case EventOf(items) =>
        events != [] &&
        var e := events[0];
        assert e in events && forall x | x in events[1..] :: x in events;
        Shows(items, e) && Holds(entries[1..], events[1..])
  }

  // ---- Reading the properties back ----

  lemma {:induction false} LacksStart(s: string, part: string)
    requires part != [] && part[0] !in s
    ensures !Contains(s, part)
  {
    if s != [] {
      LacksStart(s[1..], part);
    }
  }

  lemma DigitsTidy(s: string)
    requires AllDigits(s)
    ensures Trim(s) == s && 'T' !in s
  {
    TidyTrim(s);
  }

  lemma CompactDigits(d: Date)
    requires Writable(d)
    ensures AllDigits(CompactText(d))
  {
    hide Two, Four;
    TwoDigits(d.m);
    TwoDigits(d.d);
    FourDigits(d.y);
  }

  lemma TwoDigits(n: int)
    requires 0 <= n < 100
    ensures AllDigits(Two(n))
  {
  }

  lemma FourDigits(n: int)
    requires 0 <= n < 10000
    ensures AllDigits(Four(n))
  {
    TwoDigits(n / 100);
    TwoDigits(n % 100);
  }

  /** A printed day is read back, whatever parameters it has that do not make it a time of day. */
  lemma DateRead(d: Date, params: string)
    requires Writable(d) && DayParams(params)
    ensures IcsDate(params, CompactText(d)) == Ok(d)
  {
    hide CompactText, Trim, ParseCompact, Contains, Upper;
    CompactDigits(d);
    DigitsTidy(CompactText(d));
    LacksStart(CompactText(d), "T");
    ParsePrinted(d);
  }

  lemma {:induction false} DecimalDigits(n: nat)
    ensures AllDigits(Decimal(n)) && Decimal(n) != [] && DecimalValue(Decimal(n)) == n
  {
    if n >= 10 {
      DecimalDigits(n / 10);
      assert (Decimal(n / 10) + [Digit(n % 10)])[..|Decimal(n / 10)|] == Decimal(n / 10);
    }
  }

  lemma {:induction false} DigitsRun(s: string, unit: char, end: string)
    requires AllDigits(s) && !IsDigit(unit)
    ensures DigitsLength(s + [unit] + end) == |s|
  {
    if s != [] {
      assert (s + [unit] + end)[1..] == s[1..] + [unit] + end;
      DigitsRun(s[1..], unit, end);
    }
  }

  lemma DurationRead(n: nat)
    requires 1 <= n < 0x8000_0000_0000_0000
    ensures IcsDuration("P" + Decimal(n) + "D") == Ok(n)
  {
    hide Trim, Upper, Contains, Decimal, DecimalValue, DigitsLength;
    var ds := Decimal(n);
    var v := "P" + ds + "D";
    DecimalDigits(n);
    TidyTrim(v);
    UpperSame(v);
    LacksStart(v, "T");
    assert v[1..] == ds + ['D'] + [];
    DigitsRun(ds, 'D', []);
    assert v[1..][..|ds|] == ds && v[1..][|ds|] == 'D' && v[1..][|ds| + 1..] == [];
    assert CountBefore(v[1..], 'W') == ("", v[1..]);
    assert CountBefore(v[1..], 'D') == (ds, "");
    NoCount();
    assert Atoi(ds) == n;
    WrapSmall(n);
  }

  lemma NoCount()
    ensures Atoi("") == 0
  {
  }

  lemma WrapSmall(n: nat)
    requires n < 0x8000_0000_0000_0000
    ensures Wrap64(n) == n
  {
  }

  /** What reading an event's properties is to give. */
  function Told(e: Event): IcsEvent {
    IcsEvent(Some(e.start), if e.lasts.Until? then Some(e.lasts.end) else None,
             if e.lasts.For? then e.lasts.days else 0, Summary(e), false, e.cancelled)
  }

  /** What is known of an event once some of its properties have been read, and what was known before. */
  function Gathered(b: IcsEvent, items: seq<Item>, e: Event): IcsEvent {
    IcsEvent(
      if Has(items, e, "DTSTART") then Some(e.start) else b.start,
      if e.lasts.Until? && Has(items, e, "DTEND") then Some(e.lasts.end) else b.end,
      if e.lasts.For? && Has(items, e, "DURATION") then e.lasts.days else b.length,
      if Has(items, e, "SUMMARY") then Summary(e) else b.summary,
      b.recurring,
      b.cancelled || Has(items, e, "STATUS"))
  }

  lemma HasFirst(x: Item, rest: seq<Item>, e: Event, name: string)
    ensures Has([x] + rest, e, name) <==> OwnProp(x, e, name) || Has(rest, e, name)
  {
    assert ([x] + rest)[1..] == rest;
  }

  lemma GatheredFirst(b: IcsEvent, x: Item, rest: seq<Item>, e: Event)
    ensures Gathered(b, [x] + rest, e) == Gathered(Gathered(b, [x], e), rest, e)
  {
    hide OwnProp, Has, Summary;
    assert [x] == [x] + [];
    HasFirst(x, rest, e, "DTSTART");
    HasFirst(x, rest, e, "DTEND");
    HasFirst(x, rest, e, "DURATION");
    HasFirst(x, rest, e, "SUMMARY");
    HasFirst(x, rest, e, "STATUS");
    HasOne(x, e);
  }

  lemma HasOne(x: Item, e: Event)
    ensures forall name :: Has([x], e, name) <==> OwnProp(x, e, name)
  {
    hide OwnProp;
    assert [x][1..] == [];
  }

  /** One property of the event's own, or a neutral one, says just what it is about. */
  lemma OneTells(b: IcsEvent, x: Item, e: Event)
    requires GoodEvent(e) && x.Prop? && (Neutral(x) || Own(x, e))
    ensures Property(b, Content(NameOf(x.name), x.params, x.value)) == Ok(Gathered(b, [x], e))
  {
    hide NameOf, CompactText, Decimal, Escaped, OneLine, Unescaped, Trim, DayParams, GoodName, GoodParams;
    hide IcsDate, IcsDuration, SameFold;
    HasOne(x, e);
    if Own(x, e) {
      match NameOf(x.name)
      case "DTSTART" => DateRead(e.start, x.params);
      case "DTEND" => DateRead(e.lasts.end, x.params);
      case "DURATION" => DurationRead(e.lasts.days);
      case "SUMMARY" => UnescapedEscaped(e.summary.value);
      case _ => CancelledSays();
    } else {
      NeutralIsNotOwn(x, e);
    }
  }

  lemma CancelledSays()
    ensures SameFold(Trim("CANCELLED"), "CANCELLED")
  {
    TidyTrim("CANCELLED");
  }

  lemma NeutralIsNotOwn(x: Item, e: Event)
    requires x.Prop? && Neutral(x)
    ensures forall name :: !OwnProp(x, e, name)
  {
    hide NameOf, SameFold, Trim, CompactText, Decimal, Escaped;
    CancelledSays();
  }

  /** Reading an event's items gathers what its own properties say, in whatever order they stand. */
  lemma {:induction false} ItemsTell(b: IcsEvent, items: seq<Item>, e: Event)
    requires GoodEvent(e) && AllFit(items, e)
    ensures Apply(b, items) == Ok(Gathered(b, items, e))
    decreases |items|
  {
    hide Property, NameOf, Neutral, Own, Gathered, GoodEvent;
    if items == [] {
      NothingGathered(b, e);
    } else {
      var x, rest := items[0], items[1..];
      assert items == [x] + rest && x in items && forall y | y in rest :: y in items;
      GatheredFirst(b, x, rest, e);
      if x.Prop? {
        OneTells(b, x, e);
      } else {
        NestedSaysNothing(b, x, e);
      }
      ItemsTell(Gathered(b, [x], e), rest, e);
    }
  }

  lemma NothingGathered(b: IcsEvent, e: Event)
    ensures Gathered(b, [], e) == b
  {
  }

  lemma NestedSaysNothing(b: IcsEvent, x: Item, e: Event)
    requires x.Nested?
    ensures Gathered(b, [x], e) == b
  {
    HasOne(x, e);
  }

  lemma {:induction false} FitGood(items: seq<Item>, e: Event)
    requires AllFit(items, e)
    ensures GoodItems(items)
    decreases |items|
  {
    hide GoodName, GoodParams, NameOf, CompactText, Decimal, Escaped, SameFold, DayParams;
    if items != [] {
      assert items[0] in items && forall y | y in items[1..] :: y in items;
      FitGood(items[1..], e);
    }
  }

  /** Items that show an event are read as the event. */
  lemma ShownTells(items: seq<Item>, e: Event)
    requires GoodEvent(e) && Shows(items, e)
    ensures GoodItems(items) && Apply(BLANK, items) == Ok(Told(e))
  {
    hide Apply, Neutral, Own, OwnProp, GoodItem, Trim, OneLine, Has, AllFit, GoodEvent;
    FitGood(items, e);
    ItemsTell(BLANK, items, e);
    HasOnlyWhatThereIs(items, e);
  }

  lemma {:induction false} HasOnlyWhatThereIs(items: seq<Item>, e: Event)
    ensures Has(items, e, "SUMMARY") ==> e.summary.Some?
    ensures Has(items, e, "STATUS") ==> e.cancelled
  {
    hide NameOf, CompactText, Decimal, Escaped, DayParams, GoodName, GoodParams;
    if items != [] {
      HasOnlyWhatThereIs(items[1..], e);
    }
  }

  function TellAll(events: seq<Event>): seq<IcsEvent> {
    if events == [] then [] else [Told(events[0])] + TellAll(events[1..])
  }

  /** A file's body that holds some events reads as those events. */
  lemma {:induction false} HeldEvents(entries: seq<Entry>, events: seq<Event>)
    requires GoodEvents(events) && Holds(entries, events)
    ensures forall x | x in entries :: GoodEntry(x)
    ensures EventsIn(entries) == Ok(TellAll(events))
    decreases |entries|
  {
    hide Apply, Told, Shows, GoodItems, GoodEvent, ContentOf, SameFold;
    if entries != [] {
      match entries[0] {
        case Outside(_) => HeldEvents(entries[1..], events);
        case EventOf(items) =>
          assert events[0] in events && forall x | x in events[1..] :: x in events;
          ShownTells(items, events[0]);
          HeldEvents(entries[1..], events[1..]);
      }
    }
  }

  // ---- The days an event covers ----

  lemma RangeTold(e: Event)
    requires GoodEvent(e)
    ensures Dated(Told(e))
    ensures Range(Told(e)) ==
      if e.cancelled then Ok((0, 0))
      else if Short(e) then Ok((ToDay(e.start), EndDay(e)))
      else Err(CoversTooMuch)
  {
    hide ToDay, Summary;
    if e.lasts.Until? {
      BeforeIffToDay(e.start, e.lasts.end);
    }
  }

  lemma {:induction false} DecimalLong(n: nat)
    requires n >= 10000
    ensures |Decimal(n)| >= 5
  {
    assert |Decimal(n / 10)| >= 4 by {
      assert |Decimal(n / 10 / 10)| >= 3 by {
        assert |Decimal(n / 10 / 10 / 10)| >= 2;
      }
    }
  }

  lemma PaddedOnce(m: nat, n: nat)
    requires Padded(m) == Padded(n)
    ensures m == n
  {
    hide Decimal, DecimalValue, Four;
    if m >= 10000 {
      DecimalLong(m);
      DecimalDigits(m);
    }
    if n >= 10000 {
      DecimalLong(n);
      DecimalDigits(n);
    }
    if m < 10000 {
      FourLength(m);
    }
    if n < 10000 {
      FourLength(n);
    }
    if m < 10000 && n < 10000 {
      FourInOrder(m, n);
    }
  }

  lemma FourLength(n: nat)
    requires n < 10000
    ensures |Four(n)| == 4
  {
  }

  /** Two days of the common era are not written alike. */
  lemma DayTextOnce(a: Date, b: Date)
    requires Valid(a) && Valid(b) && a.y >= 0 && b.y >= 0
    requires DayText(a) == DayText(b)
    ensures a == b
  {
    hide Padded, DaysIn;
    var s := DayText(a);
    var k := |s| - 6;
    assert s[..k] == Padded(a.y) && s[k + 1..k + 3] == Two(a.m) && s[k + 4..] == Two(a.d);
    assert s[..k] == Padded(b.y) && s[k + 1..k + 3] == Two(b.m) && s[k + 4..] == Two(b.d);
    PaddedOnce(a.y, b.y);
    TwoInOrder(a.m, b.m);
    TwoInOrder(a.d, b.d);
  }

  const YEAR_ZERO := Date(0, 1, 1)

  lemma CoveredYear(e: Event, n: int)
    requires Covers(e, n)
    ensures FromDay(n).y >= 0
  {
    hide ToDay, FromDay;
    ToDayFromDay(n);
    BeforeIffToDay(FromDay(n), YEAR_ZERO);
    BeforeIffToDay(e.start, YEAR_ZERO);
  }

  lemma {:induction false} LastCovers(events: seq<Event>, n: int)
    requires IsOff(events, n)
    ensures LastCovering(events, n).value in events && Covers(LastCovering(events, n).value, n)
  {
    hide Covers;
    if !Covers(events[|events| - 1], n) {
      LastCovers(events[..|events| - 1], n);
    }
  }

  lemma DayNameOnce(events: seq<Event>, m: int, n: int)
    requires IsOff(events, m) && IsOff(events, n) && DayName(m) == DayName(n)
    ensures m == n
  {
    hide FromDay, DayText, Covers, LastCovering;
    LastCovers(events, m);
    LastCovers(events, n);
    CoveredYear(LastCovering(events, m).value, m);
    CoveredYear(LastCovering(events, n).value, n);
    DayTextOnce(FromDay(m), FromDay(n));
    ToDayFromDay(m);
    ToDayFromDay(n);
  }

  // ---- The map of days ----

  lemma {:induction false} DayNamesHold(from: int, to: int)
    ensures forall n | from <= n < to :: DayName(n) in DayNames(from, to)
    ensures forall d | d in DayNames(from, to) :: exists n :: from <= n < to && d == DayName(n)
    decreases if to <= from then 0 else to - from
  {
    hide DayName;
    if from < to {
      DayNamesHold(from, to - 1);
      var before := DayNames(from, to - 1);
      assert DayNames(from, to) == before + [DayName(to - 1)];
      forall n | from <= n < to
        ensures DayName(n) in DayNames(from, to)
      {
        assert n < to - 1 ==> DayName(n) in before;
      }
    }
  }

  lemma {:induction false} PutDaysAt(byDay: ByDay, days: seq<string>, name: string)
    ensures var put := PutDays(byDay, days, name);
      && (forall d :: d in put <==> d in byDay || d in days)
      && forall d | d in put :: put[d] == if d in days then Holiday(d, name) else byDay[d]
  {
    if days != [] {
      var before := days[..|days| - 1];
      assert days == before + [days[|days| - 1]];
      PutDaysAt(byDay, before, name);
    }
  }

  /** The map holds the days off of the events so far, each as the last event covering it names it. */
  ghost predicate Represents(byDay: ByDay, events: seq<Event>) {
    && (forall n | IsOff(events, n) :: DayName(n) in byDay && byDay[DayName(n)] == HolidayOn(events, n))
    && (forall d | d in byDay :: exists n :: IsOff(events, n) && d == DayName(n))
  }

  lemma LastOf(events: seq<Event>, e: Event, n: int)
    ensures LastCovering(events + [e], n) == if Covers(e, n) then Some(e) else LastCovering(events, n)
  {
    assert (events + [e])[..|events|] == events;
  }

  lemma PutRepresents(byDay: ByDay, events: seq<Event>, e: Event, from: int, to: int)
    requires Represents(byDay, events) && GoodEvent(e)
    requires forall n :: Covers(e, n) <==> from <= n < to
    ensures Represents(PutDays(byDay, DayNames(from, to), Title(e)), events + [e])
  {
    hide DayName, Covers, LastCovering, Title, PutDays, DayNames;
    var days, all := DayNames(from, to), events + [e];
    var put := PutDays(byDay, days, Title(e));
    PutDaysAt(byDay, days, Title(e));
    DayNamesHold(from, to);
    forall n | IsOff(all, n)
      ensures DayName(n) in put && put[DayName(n)] == HolidayOn(all, n)
    {
      LastOf(events, e, n);
      if !Covers(e, n) && DayName(n) in days {
        var m :| from <= m < to && DayName(n) == DayName(m);
        LastOf(events, e, m);
        DayNameOnce(all, m, n);
      }
    }
    forall d | d in put
      ensures exists n :: IsOff(all, n) && d == DayName(n)
    {
      if d in days {
        var n :| from <= n < to && d == DayName(n);
        LastOf(events, e, n);
        assert IsOff(all, n);
      } else {
        var n :| IsOff(events, n) && d == DayName(n);
        LastOf(events, e, n);
        assert IsOff(all, n);
      }
    }
  }

  lemma {:induction false} AsManyNames(days: set<int>, names: set<string>)
    requires forall n | n in days :: DayName(n) in names
    requires forall d | d in names :: exists n :: n in days && d == DayName(n)
    requires forall m, n | m in days && n in days && DayName(m) == DayName(n) :: m == n
    ensures |names| == |days|
    decreases days
  {
    hide DayName;
    if d :| d in names {
      var n :| n in days && d == DayName(n);
      AsManyNames(days - {n}, names - {d});
    } else {
      assert names == {};
      forall n
        ensures n !in days
      {
        var name := DayName(n);
      }
    }
  }

  lemma RepresentsSize(byDay: ByDay, events: seq<Event>)
    requires GoodEvents(events) && Represents(byDay, events)
    ensures |byDay| == |DaysOff(events)|
  {
    hide DayName, IsOff, HolidayOn;
    forall m, n | m in DaysOff(events) && n in DaysOff(events) && DayName(m) == DayName(n)
      ensures m == n
    {
      DayNameOnce(events, m, n);
    }
    AsManyNames(DaysOff(events), byDay.Keys);
  }

  lemma {:induction false} OffStays(done: seq<Event>, more: seq<Event>, n: int)
    requires IsOff(done, n)
    ensures IsOff(done + more, n)
    decreases |more|
  {
    hide Covers;
    if more == [] {
      assert done + more == done;
    } else {
      var k := |more| - 1;
      OffStays(done, more[..k], n);
      assert (done + more[..k]) + [more[k]] == done + more;
      LastOf(done + more[..k], more[k], n);
    }
  }

  lemma DaysOffGrow(done: seq<Event>, more: seq<Event>)
    requires GoodEvents(done) && GoodEvents(done + more)
    ensures |DaysOff(done)| <= |DaysOff(done + more)|
  {
    hide IsOff;
    forall n | n in DaysOff(done)
      ensures n in DaysOff(done + more)
    {
      OffStays(done, more, n);
    }
    SubsetSize(DaysOff(done), DaysOff(done + more));
  }

  lemma SubsetSize(a: set<int>, b: set<int>)
    requires a <= b
    ensures |a| <= |b|
  {
    assert b == a + (b - a);
  }

  lemma {:induction false} TellAllDated(events: seq<Event>)
    requires GoodEvents(events)
    ensures |TellAll(events)| == |events| && forall x | x in TellAll(events) :: Dated(x)
  {
    hide Summary;
    if events != [] {
      assert events[0] in events && forall x | x in events[1..] :: x in events;
      RangeTold(events[0]);
      TellAllDated(events[1..]);
    }
  }

  // ---- The import ----

  /** One event's days, named for it. */
  ghost function PutEvent(byDay: ByDay, e: Event): ByDay
    requires GoodEvent(e)
  {
    if e.cancelled then byDay else PutDays(byDay, DayNames(ToDay(e.start), EndDay(e)), Title(e))
  }

  lemma PutFirst(byDay: ByDay, e: Event, more: seq<Event>)
    requires GoodEvents([e] + more)
    ensures GoodEvent(e) && GoodEvents(more)
    ensures forall x | x in TellAll([e] + more) :: Dated(x)
    ensures forall x | x in TellAll(more) :: Dated(x)
    ensures PutEvents(byDay, TellAll([e] + more)) ==
      if !Short(e) then Err(CoversTooMuch)
      else
        var put := PutEvent(byDay, e);
        if |put| > MAX_DAYS then Err(HoldsTooMuch) else PutEvents(put, TellAll(more))
  {
    hide ToDay, DayNames, PutDays, Range, Summary, GoodEvent, EndDay, HolidayName;
    var all := [e] + more;
    assert all[0] == e && all[1..] == more;
    assert e in all && forall x | x in more :: x in all;
    TellAllDated(all);
    TellAllDated(more);
    RangeTold(e);
    assert TellAll(all) == [Told(e)] + TellAll(more) && TellAll(all)[1..] == TellAll(more);
    NoDays(byDay, Title(e));
  }

  lemma NoDays(byDay: ByDay, name: string)
    ensures PutDays(byDay, DayNames(0, 0), name) == byDay
  {
  }

  lemma CancelledStays(byDay: ByDay, events: seq<Event>, e: Event)
    requires Represents(byDay, events) && e.cancelled
    ensures Represents(byDay, events + [e])
  {
    hide DayName, LastCovering, Title;
    forall n
      ensures LastCovering(events + [e], n) == LastCovering(events, n)
    {
      LastOf(events, e, n);
    }
  }

  /** Taking the events one by one gives the days off of them all, and is refused exactly beyond the limits. */
  lemma {:induction false} PutAll(byDay: ByDay, done: seq<Event>, left: seq<Event>)
    requires GoodEvents(done) && GoodEvents(left) && Represents(byDay, done) && |byDay| <= MAX_DAYS
    requires forall e | e in done :: Short(e)
    ensures GoodEvents(done + left) && forall x | x in TellAll(left) :: Dated(x)
    ensures var r := PutEvents(byDay, TellAll(left));
      && (r.Ok? <==> WithinLimits(done + left))
      && (r.Ok? ==> Represents(r.value, done + left))
    decreases |left|
  {
    hide GoodEvent, Represents, PutEvent, EndDay, ToDay, PutEvents, TellAll, Dated, DaysOff, Short;
    RepresentsSize(byDay, done);
    if left == [] {
      PutNone(byDay);
      assert done + left == done;
    } else {
      var e, more := left[0], left[1..];
      assert left == [e] + more && e in left && forall x | x in more :: x in left;
      PutFirst(byDay, e, more);
      var all, next := done + left, done + [e];
      assert all == next + more && e in all;
      if Short(e) {
        var put := PutEvent(byDay, e);
        PutOne(byDay, done, e);
        RepresentsSize(put, next);
        DaysOffGrow(next, more);
        if |put| <= MAX_DAYS {
          PutAll(put, next, more);
        }
      }
    }
  }

  lemma PutNone(byDay: ByDay)
    ensures TellAll([]) == [] && PutEvents(byDay, []) == Ok(byDay)
  {
  }

  lemma PutOne(byDay: ByDay, done: seq<Event>, e: Event)
    requires GoodEvent(e) && Represents(byDay, done)
    ensures Represents(PutEvent(byDay, e), done + [e])
  {
    hide Represents, PutDays, DayNames, Title, EndDay, ToDay;
    if e.cancelled {
      CancelledStays(byDay, done, e);
    } else {
      PutRepresents(byDay, done, e, ToDay(e.start), EndDay(e));
    }
  }

  lemma ListedExactly(out: seq<Holiday>, byDay: ByDay, events: seq<Event>)
    requires Lists(out, byDay) && Represents(byDay, events)
    ensures Exactly(out, events)
  {
    hide DayName, IsOff, HolidayOn, TextBefore;
    forall n | IsOff(events, n)
      ensures HolidayOn(events, n) in out
    {
      assert DayName(n) in byDay;
    }
    forall h | h in out
      ensures exists n :: IsOff(events, n) && h == HolidayOn(events, n)
    {
      var d :| d in byDay && byDay[d] == h;
      var n :| IsOff(events, n) && d == DayName(n);
    }
  }

  predicate Leads(line: string) {
    SameFold(line, "BEGIN:VCALENDAR")
  }

  /** The lines of a file that holds some events, led by the line that begins a calendar. */
  ghost predicate FileOf(lines: seq<string>, events: seq<Event>)
    requires GoodEvents(events)
  {
    && lines != [] && Leads(lines[0])
    && exists entries :: FileLines(entries) == lines && Holds(entries, events)
  }

  /** The lines of a file of events are taken exactly within the limits, and give those events' days off. */
  lemma LinesImport(lines: seq<string>, events: seq<Event>)
    requires GoodEvents(events) && events != [] && FileOf(lines, events)
    ensures ByDayOf(lines).Ok? <==> WithinLimits(events)
    ensures ByDayOf(lines).Ok? ==> Represents(ByDayOf(lines).value, events)
  {
    hide SameFold, Holds, ScanLines, FileLines, EventsIn, PutEvents, TellAll, Dated;
    hide GoodEvent, WithinLimits, Represents;
    var entries :| FileLines(entries) == lines && Holds(entries, events);
    HeldEvents(entries, events);
    FileScans(entries, []);
    TellAllDated(events);
    assert [] + TellAll(events) == TellAll(events);
    NothingYet();
    PutAll(map[], [], events);
    assert [] + events == events;
  }

  lemma NothingYet()
    ensures Represents(map[], [])
  {
  }

  /** A file printed from events: its content lines folded anywhere, each physical line ended
      with or without a carriage return, perhaps after a byte order mark. */
  ghost predicate Prints(text: string, events: seq<Event>)
    requires GoodEvents(events)
  {
    exists mark, lines, folds ::
      && text == FileText(mark, lines) && Texts(lines) == Pieces(folds)
      && (forall i | 0 <= i < |folds| :: GoodFold(folds[i]))
      && FileOf(Wholes(folds), events)
  }

  lemma FileLed(lines: seq<string>, events: seq<Event>)
    requires GoodEvents(events) && FileOf(lines, events)
    ensures lines != [] && Leads(lines[0])
  {
    hide SameFold;
  }

  lemma LeadUnmarked(line: string)
    requires Leads(line)
    ensures !Marked(line)
  {
    assert line != [] ==> FoldChar(line[0]) == 'B';
  }

  lemma FirstMarked(f: Fold)
    requires f.first != [] && !Marked(Whole(f))
    ensures !Marked(f.first)
  {
    hide Joined;
  }

  lemma LedByFirst(folds: seq<Fold>)
    requires Wholes(folds) != [] && Leads(Wholes(folds)[0])
    requires forall i | 0 <= i < |folds| :: GoodFold(folds[i])
    ensures folds != [] && !Marked(folds[0].first)
  {
    hide Leads, GoodFold, Joined, Marked;
    var f := folds[0];
    FirstSpeaks(f);
    LeadUnmarked(Whole(f));
    FirstMarked(f);
  }

  /** Whatever way a file of events is printed, it is imported exactly within the limits, and
      any list the import may answer with holds exactly those events' holidays. */
  lemma PrintedFileImports(text: string, events: seq<Event>)
    requires GoodEvents(events) && events != [] && Prints(text, events)
    ensures Read(Utf8(text)).Ok? <==> Utf8Size(text) <= 1048576 && WithinLimits(events)
    ensures Read(Utf8(text)).Ok? ==> forall out | Lists(out, Read(Utf8(text)).value) :: Exactly(out, events)
  {
    hide ByDayOf, Unfolded, FileText, Texts, Pieces, GoodFold, GoodEvent, FileOf, Lists, Exactly, Represents;
    hide Wholes, Whole, WithinLimits, Utf8Size, SameFold;
    var mark, lines, folds :|
      && text == FileText(mark, lines) && Texts(lines) == Pieces(folds)
      && (forall i | 0 <= i < |folds| :: GoodFold(folds[i]))
      && FileOf(Wholes(folds), events);
    FileLed(Wholes(folds), events);
    LedByFirst(folds);
    TextUnfolds(mark, lines, folds);
    LinesImport(Wholes(folds), events);
    if Read(Utf8(text)).Ok? {
      forall out | Lists(out, Read(Utf8(text)).value)
        ensures Exactly(out, events)
      {
        ListedExactly(out, Read(Utf8(text)).value, events);
      }
    }
  }

  lemma FirstOnce(a: seq<Holiday>)
    requires Sorted(a) && a != []
    ensures a[0] !in a[1..]
  {
    hide TextBefore;
    TextBeforeTotal(a[0].day, a[0].day);
    forall i | 0 < i < |a|
      ensures a[i] != a[0]
    {
      assert TextBefore(a[0].day, a[i].day);
    }
  }

  lemma TailHolds(a: seq<Holiday>)
    requires a != [] && a[0] !in a[1..]
    ensures forall h :: h in a[1..] <==> h in a && h != a[0]
  {
    assert a == [a[0]] + a[1..];
  }

  lemma {:induction false} SortedOnce(a: seq<Holiday>, b: seq<Holiday>)
    requires Sorted(a) && Sorted(b) && forall h :: h in a <==> h in b
    ensures a == b
  {
    hide TextBefore;
    assert (a != [] ==> a[0] in a) && (b != [] ==> b[0] in b);
    if a != [] {
      assert a[0] in b && b[0] in a;
      TextBeforeTotal(a[0].day, b[0].day);
      assert a[0] == b[0];
      FirstOnce(a);
      FirstOnce(b);
      TailHolds(a);
      TailHolds(b);
      SortedOnce(a[1..], b[1..]);
    }
  }

  /** The holidays of some events are one list and no other. */
  lemma ExactlyOne(a: seq<Holiday>, b: seq<Holiday>, events: seq<Event>)
    requires Exactly(a, events) && Exactly(b, events)
    ensures a == b
  {
    hide HolidayOn, IsOff, TextBefore;
    SortedOnce(a, b);
  }

  // ---- In what order ----

  /** Later in the list is later in time. */
  ghost predicate InDayOrder(out: seq<Holiday>, events: seq<Event>) {
    forall i, j, m, n |
      && 0 <= i < j < |out| && IsOff(events, m) && IsOff(events, n)
      && out[i].day == DayName(m) && out[j].day == DayName(n) ::
      m < n
  }

  const YEAR_10000 := Date(10000, 1, 1)

  lemma CoveredYearBelow(e: Event, n: int)
    requires Covers(e, n) && EndDay(e) <= ToDay(YEAR_10000)
    ensures 0 <= FromDay(n).y < 10000
  {
    hide ToDay, FromDay;
    CoveredYear(e, n);
    ToDayFromDay(n);
    BeforeIffToDay(FromDay(n), YEAR_10000);
  }

  /** The days around the turn of the year 10000, as they are written and compared. */
  lemma TurnOfTheYear()
    ensures DayName(ToDay(YEAR_10000)) == "10000-01-01" && DayName(ToDay(YEAR_10000) - 1) == "9999-12-31"
    ensures !TextBefore("9999-12-31", "10000-01-01") && TextBefore("10000-01-01", "9999-12-31")
  {
    hide ToDay, FromDay, Next, Previous;
    FromDayToDay(YEAR_10000);
    FromDayNext(ToDay(YEAR_10000) - 1);
    PreviousNext();
    assert Decimal(10000) == "10000" by {
      assert Decimal(1000) == "1000" by {
        assert Decimal(100) == "100";
      }
    }
  }

  lemma PreviousNext()
    ensures forall d | Valid(d) && Next(d) == YEAR_10000 :: d == Date(9999, 12, 31)
  {
  }

  /** The list is sorted by the text of its days; that is their order exactly when no day off
      lies past the year 9999, which a length alone can reach. */
  lemma InOrderUnlessPast9999(out: seq<Holiday>, events: seq<Event>)
    requires GoodEvents(events) && Exactly(out, events)
    ensures InDayOrder(out, events) <==> forall e | e in events && !e.cancelled :: EndDay(e) <= ToDay(YEAR_10000)
    ensures forall e | e in events && EndDay(e) > ToDay(YEAR_10000) :: e.lasts.For?
  {
    forall e | e in events && EndDay(e) > ToDay(YEAR_10000)
      ensures e.lasts.For?
    {
      OnlyLengthsPass(e);
    }
    if forall e | e in events && !e.cancelled :: EndDay(e) <= ToDay(YEAR_10000) {
      InOrder(out, events);
    } else {
      var e :| e in events && !e.cancelled && EndDay(e) > ToDay(YEAR_10000);
      OutOfOrder(out, events, e);
    }
  }

  lemma OnlyLengthsPass(e: Event)
    requires GoodEvent(e) && EndDay(e) > ToDay(YEAR_10000)
    ensures e.lasts.For?
  {
    hide ToDay;
    BeforeIffToDay(e.start, YEAR_10000);
    if e.lasts.Until? {
      BeforeIffToDay(e.lasts.end, YEAR_10000);
    }
  }

  lemma InOrder(out: seq<Holiday>, events: seq<Event>)
    requires GoodEvents(events) && Exactly(out, events)
    requires forall e | e in events && !e.cancelled :: EndDay(e) <= ToDay(YEAR_10000)
    ensures InDayOrder(out, events)
  {
    hide ToDay, FromDay, DayText, EndDay, LastCovering, TextBefore, GoodEvent;
    forall i, j, m, n |
      && 0 <= i < j < |out| && IsOff(events, m) && IsOff(events, n)
      && out[i].day == DayName(m) && out[j].day == DayName(n)
      ensures m < n
    {
      LastCovers(events, m);
      LastCovers(events, n);
      CoveredYearBelow(LastCovering(events, m).value, m);
      CoveredYearBelow(LastCovering(events, n).value, n);
      DayTextInOrder(FromDay(m), FromDay(n));
      ToDayFromDay(m);
      ToDayFromDay(n);
    }
  }

  lemma {:induction false} CoveredIsOff(events: seq<Event>, e: Event, n: int)
    requires e in events && Covers(e, n)
    ensures IsOff(events, n)
  {
    hide Covers;
    if !Covers(events[|events| - 1], n) {
      CoveredIsOff(events[..|events| - 1], e, n);
    }
  }

  lemma OutOfOrder(out: seq<Holiday>, events: seq<Event>, e: Event)
    requires GoodEvents(events) && Exactly(out, events)
    requires e in events && !e.cancelled && EndDay(e) > ToDay(YEAR_10000)
    ensures !InDayOrder(out, events)
  {
    hide ToDay, DayName, LastCovering, TextBefore, Title;
    var n := ToDay(YEAR_10000);
    BeforeIffToDay(e.start, YEAR_10000);
    CoveredIsOff(events, e, n);
    CoveredIsOff(events, e, n - 1);
    TurnOfTheYear();
    var i :| 0 <= i < |out| && out[i] == HolidayOn(events, n);
    var j :| 0 <= j < |out| && out[j] == HolidayOn(events, n - 1);
    assert i < j;
  }
}
