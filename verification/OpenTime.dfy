/** When a desk is open, said instant by instant, and the time that is open between two
    instants: what the clock of Calendar.dfy is proved against. */
module OpenTime {
  import opened Wrappers
  import opened Instants
  import opened WeeklyHours
  import Dates

  /** What a calendar says about being open: the week, the desk's own days off, the linked
      holiday calendar's days (true for a half day), and the zone as a fixed offset. */
  datatype Desk = Desk(hours: map<string, seq<Span>>, off: seq<string>, linked: map<string, bool>, offset: int)

  function DayStart(k: Desk, n: int): int {
    Days(n) - k.offset
  }

  function DayOf(k: Desk, t: int): int {
    (t + k.offset) / 86_400_000_000_000
  }

  function DayKey(n: int): string {
    Dates.DayText(Dates.FromDay(n))
  }

  function SpansOf(k: Desk, n: int): seq<Span> {
    var key := WeekdayKey(n);
    if key in k.hours then k.hours[key] else []
  }

  predicate Closed(k: Desk, n: int) {
    DayKey(n) in k.off || (DayKey(n) in k.linked && !k.linked[DayKey(n)])
  }

  predicate HalfDay(k: Desk, n: int) {
    DayKey(n) !in k.off && DayKey(n) in k.linked && k.linked[DayKey(n)]
  }

  /** An instant falls in a span read from the start of a day; a span that cannot be read holds none. */
  predicate HoldsTick(start: int, s: Span, t: int) {
    Readable(s) && start + Minutes(MinuteOf(s.from).value) <= t < start + Minutes(MinuteOf(s.to).value)
  }

  ghost predicate InSpans(start: int, spans: seq<Span>, t: int) {
    exists s | s in spans :: HoldsTick(start, s, t)
  }

  ghost function Saved(start: int, spans: seq<Span>): iset<int> {
    iset t: int | InSpans(start, spans, t)
  }

  /** The open instants of one day: none on a day off, and on a half day those with less
      than half of the day's open time before them. */
  ghost function OpenOn(k: Desk, n: int): iset<int> {
    var start := DayStart(k, n);
    var saved := Saved(start, SpansOf(k, n));
    if Closed(k, n) then iset{}
    else if HalfDay(k, n) then FirstPart(saved, start, Ticks(saved, start, start + DAY) / 2)
    else saved
  }

  ghost predicate Early(s: iset<int>, start: int, left: int, t: int) {
    t in s && Ticks(s, start, t) < left
  }

  ghost function FirstPart(s: iset<int>, start: int, left: int): iset<int> {
    iset t: int | Early(s, start, left, t)
  }

  ghost predicate OpenAt(k: Desk, t: int) {
    t in OpenOn(k, DayOf(k, t))
  }

  ghost function Open(k: Desk): iset<int> {
    iset t: int | OpenAt(k, t)
  }

  /** No saved span ends before it starts; reading a calendar refuses one that does. */
  ghost predicate Sane(k: Desk) {
    forall key, i | key in k.hours && 0 <= i < |k.hours[key]| :: Readable(k.hours[key][i]) ==> Forward(k.hours[key][i])
  }

  /** How much of [a, b) the desk was open. */
  ghost function WorkingTime(k: Desk, a: int, b: int): nat {
    Ticks(Open(k), a, b)
  }

  lemma DayOfInside(k: Desk, n: int, t: int)
    ensures DayOf(k, t) == n <==> DayStart(k, n) <= t < DayStart(k, n) + DAY
  {
  }

  /** Inside one day, being open is being open on that day. */
  lemma OpenInDay(k: Desk, n: int, a: int, b: int)
    requires DayStart(k, n) <= a && b <= DayStart(k, n) + DAY
    ensures WorkingTime(k, a, b) == Ticks(OpenOn(k, n), a, b)
  {
    forall t | a <= t < b
      ensures t in Open(k) <==> t in OpenOn(k, n)
    {
      DayOfInside(k, n, t);
    }
    TicksSame(Open(k), OpenOn(k, n), a, b);
  }

  // ---- Openness, said outright ----

  /** Whether an instant is inside a span of a day's hours, by its time of day alone. */
  ghost predicate InHours(k: Desk, t: int) {
    var n := (t + k.offset) / 86_400_000_000_000;
    var day := ["thu", "fri", "sat", "sun", "mon", "tue", "wed"][n % 7];
    day in k.hours && exists s | s in k.hours[day] :: WithinSpan(s, (t + k.offset) % 86_400_000_000_000)
  }

  /** Whether a time of day is at or after a span's first minute and before its last. */
  predicate WithinSpan(s: Span, x: int) {
    && MinuteOf(s.from).Some? && MinuteOf(s.to).Some?
    && MinuteOf(s.from).value <= x / 60_000_000_000 < MinuteOf(s.to).value
  }

  /** An instant is open exactly when it is inside its weekday's hours, and its day is neither one
      of the desk's own days off nor linked; a linked whole day is closed and a half day open only
      inside those hours. */
  lemma OpenIs(k: Desk, t: int)
    ensures var day := Dates.DayText(Dates.FromDay((t + k.offset) / 86_400_000_000_000));
      && (day in k.off ==> t !in Open(k))
      && (day !in k.off && day in k.linked && !k.linked[day] ==> t !in Open(k))
      && (day !in k.off && day in k.linked && k.linked[day] && t in Open(k) ==> InHours(k, t))
      && (day !in k.off && day !in k.linked ==> (t in Open(k) <==> InHours(k, t)))
  {
    hide Dates.FromDay, Dates.DayText, Saved, SpansOf, InHours, Instants.Ticks;
    SavedIs(k, t);
  }

  ghost function Hours(k: Desk): iset<int> {
    iset t: int | InHours(k, t)
  }

  lemma SavedIs(k: Desk, t: int)
    ensures t in Saved(DayStart(k, DayOf(k, t)), SpansOf(k, DayOf(k, t))) <==> InHours(k, t)
  {
    hide MinuteOf;
    var n := DayOf(k, t);
    WeekdayIs(n);
    DayOfInside(k, n, t);
    assert (t + k.offset) % 86_400_000_000_000 == t - DayStart(k, n);
    var day := ["thu", "fri", "sat", "sun", "mon", "tue", "wed"][n % 7];
    var spans, x := SpansOf(k, n), t - DayStart(k, n);
    assert day == WeekdayKey(n) && spans == if day in k.hours then k.hours[day] else [];
    if InSpans(DayStart(k, n), spans, t) {
      var s :| s in spans && HoldsTick(DayStart(k, n), s, t);
      MinuteHolds(x, MinuteOf(s.from).value);
      MinuteHolds(x, MinuteOf(s.to).value);
      assert day in k.hours && s in k.hours[day] && WithinSpan(s, (t + k.offset) % 86_400_000_000_000);
    }
    if InHours(k, t) {
      var s :| s in spans && WithinSpan(s, x);
      MinuteHolds(x, MinuteOf(s.from).value);
      MinuteHolds(x, MinuteOf(s.to).value);
      assert HoldsTick(DayStart(k, n), s, t);
    }
  }

  lemma MinuteHolds(x: int, m: int)
    requires 0 <= x
    ensures Minutes(m) <= x <==> m <= x / 60_000_000_000
  {
  }

  /** A desk with hours on one weekday is open on no other. */
  lemma OneWeekday(key: string, spans: seq<Span>, offset: int, t: int)
    ensures var n := (t + offset) / 86_400_000_000_000;
      t in Open(Desk(map[key := spans], [], map[], offset)) ==>
        ["thu", "fri", "sat", "sun", "mon", "tue", "wed"][n % 7] == key
  {
    hide Open, Dates.FromDay, Dates.DayText, MinuteOf;
    OpenIs(Desk(map[key := spans], [], map[], offset), t);
  }

  /** And on each such day it is open from the start of any of its spans. */
  lemma OneWeekdayOpens(key: string, spans: seq<Span>, s: Span, offset: int, n: int)
    requires ["thu", "fri", "sat", "sun", "mon", "tue", "wed"][n % 7] == key && s in spans
    requires MinuteOf(s.from).Some? && MinuteOf(s.to).Some? && MinuteOf(s.from).value < MinuteOf(s.to).value
    ensures Days(n) + Minutes(MinuteOf(s.from).value) - offset in Open(Desk(map[key := spans], [], map[], offset))
  {
    hide Open, Dates.FromDay, Dates.DayText;
    var t := Days(n) + Minutes(MinuteOf(s.from).value) - offset;
    assert MinuteOf(s.from).value < 1440;
    hide MinuteOf;
    OpenIs(Desk(map[key := spans], [], map[], offset), t);
    assert (t + offset) / 86_400_000_000_000 == n && WithinSpan(s, (t + offset) % 86_400_000_000_000);
  }

  lemma OneTick(k: Desk, t: int)
    ensures WorkingTime(k, t, t + 1) == if t in Open(k) then 1 else 0
  {
    hide Open;
    assert Ticks(Open(k), t, t) == 0;
  }

  // ---- Laws of open time ----

  /** Open time adds up over adjoining stretches, is never more than the time that passed, and never
      shrinks as the stretch grows. */
  lemma WorkingTimeAdds(k: Desk, a: int, b: int, c: int)
    requires a <= b <= c
    ensures WorkingTime(k, a, c) == WorkingTime(k, a, b) + WorkingTime(k, b, c)
    ensures WorkingTime(k, a, b) <= WorkingTime(k, a, c) <= c - a
  {
    TicksSplit(Open(k), a, b, c);
    TicksBounded(Open(k), a, c);
  }

  ghost function WithDayOff(k: Desk, day: string): Desk {
    k.(off := k.off + [day])
  }

  lemma DayOffKinds(k: Desk, day: string, n: int)
    ensures Closed(WithDayOff(k, day), n) <==> Closed(k, n) || DayKey(n) == day
    ensures HalfDay(WithDayOff(k, day), n) <==> HalfDay(k, n) && DayKey(n) != day
  {
    var key := DayKey(n);
    assert key in WithDayOff(k, day).off <==> key in k.off || key == day;
  }

  lemma DayOffOn(k: Desk, day: string, n: int)
    ensures OpenOn(WithDayOff(k, day), n) == if DayKey(n) == day then iset{} else OpenOn(k, n)
  {
    hide DayKey, Saved, FirstPart, Closed, HalfDay, Instants.Ticks;
    DayOffKinds(k, day, n);
  }

  /** A day off closes its day and leaves every other instant as it was. */
  lemma DayOffCloses(k: Desk, day: string, t: int)
    ensures t in Open(WithDayOff(k, day)) <==> t in Open(k) && DayKey(DayOf(k, t)) != day
  {
    DayOffOn(k, day, DayOf(k, t));
    assert DayOf(WithDayOff(k, day), t) == DayOf(k, t);
  }

  lemma {:induction false} FirstPartTicks(s: iset<int>, start: int, left: nat, b: int)
    ensures Ticks(FirstPart(s, start, left), start, b) == Min(left, Ticks(s, start, b))
    decreases b - start
  {
    if start < b {
      FirstPartTicks(s, start, left, b - 1);
    }
  }

  /** A half day is open for half of the ticks of its weekday's hours, rounded down, and no
      instant of it opens after one of those hours has been left out. */
  lemma HalfDayIsHalf(k: Desk, n: int)
    requires var day := Dates.DayText(Dates.FromDay(n)); day !in k.off && day in k.linked && k.linked[day]
    ensures var (start, end) := (Days(n) - k.offset, Days(n + 1) - k.offset);
      && Ticks(Open(k), start, end) == Ticks(Hours(k), start, end) / 2
      && forall t, u | start <= t < u < end && u in Open(k) && t in Hours(k) :: t in Open(k)
  {
    hide Dates.FromDay, Dates.DayText, InHours, Instants.Ticks, OpenOn;
    var start, saved := DayStart(k, n), Saved(DayStart(k, n), SpansOf(k, n));
    HalfOn(k, n);
    OpenInDay(k, n, start, start + DAY);
    forall t | start <= t < start + DAY
      ensures t in Open(k) <==> t in OpenOn(k, n)
      ensures t in Hours(k) <==> t in saved
    {
      DayOfInside(k, n, t);
      SavedIs(k, t);
    }
    TicksSame(Hours(k), saved, start, start + DAY);
  }

  lemma HalfOn(k: Desk, n: int)
    requires HalfDay(k, n)
    ensures var (start, saved) := (DayStart(k, n), Saved(DayStart(k, n), SpansOf(k, n)));
      && Ticks(OpenOn(k, n), start, start + DAY) == Ticks(saved, start, start + DAY) / 2
      && forall t, u | start <= t < u && u in OpenOn(k, n) && t in saved :: t in OpenOn(k, n)
  {
    var start, saved := DayStart(k, n), Saved(DayStart(k, n), SpansOf(k, n));
    FirstPartTicks(saved, start, Ticks(saved, start, start + DAY) / 2, start + DAY);
    forall t, u | start <= t < u && u in OpenOn(k, n) && t in saved
      ensures t in OpenOn(k, n)
    {
      TicksSplit(saved, start, t, u);
    }
  }

  /** A day off added to the desk's own never makes any stretch hold more open time. */
  lemma DayOffNeverAdds(k: Desk, day: string, a: int, b: int)
    ensures WorkingTime(WithDayOff(k, day), a, b) <= WorkingTime(k, a, b)
  {
    forall t | t in Open(WithDayOff(k, day))
      ensures t in Open(k)
    {
      DayOffCloses(k, day, t);
    }
    TicksSubset(Open(WithDayOff(k, day)), Open(k), a, b);
  }

  // ---- Deadlines ----

  /** The first instant by which the desk has been open for `d` since `start`. */
  ghost predicate IsDeadline(k: Desk, start: int, d: int, r: int) {
    && start <= r
    && WorkingTime(k, start, r) == d
    && forall x | start <= x < r :: WorkingTime(k, start, x) < d
  }

  /** The end of the 366th day from the one that holds `start`, past which nobody waits. */
  function Horizon(k: Desk, start: int): int {
    DayStart(k, DayOf(k, start) + 366)
  }

  /** The same time of day on the same day of the next year. */
  function YearOn(k: Desk, t: int): int {
    var n := DayOf(k, t);
    DayStart(k, Dates.ToDay(Dates.YearLater(Dates.FromDay(n)))) + (t - DayStart(k, n))
  }

  /** The instant a goal of `d` from `start` turns into. */
  ghost predicate Answers(k: Desk, start: int, d: int, r: int) {
    if d <= 0 then r == start
    else if d <= WorkingTime(k, start, Horizon(k, start)) then IsDeadline(k, start, d, r)
    else r == YearOn(k, start)
  }

  lemma DeadlineUnique(k: Desk, start: int, d: int, r: int, r': int)
    requires IsDeadline(k, start, d, r) && IsDeadline(k, start, d, r')
    ensures r == r'
  {
  }

  /** A start, a goal and the calendar determine the answer. */
  lemma AnswerUnique(k: Desk, start: int, d: int, r: int, r': int)
    requires Answers(k, start, d, r) && Answers(k, start, d, r')
    ensures r == r'
  {
  }

  /** The answer to a goal, said outright: the start for none; the first instant by which the desk
      has been open for it, when the time up to the end of the 366th day holds it; and otherwise
      366 days on when one of the next 365 is a 29 February, and 365 days on when none is. */
  lemma AnswerIs(k: Desk, start: int, d: int, r: int)
    ensures var n := (start + k.offset) / 86_400_000_000_000;
      var held := WorkingTime(k, start, Days(n + 366) - k.offset);
      Answers(k, start, d, r) <==>
        && (d <= 0 ==> r == start)
        && (0 < d <= held ==>
              start <= r && WorkingTime(k, start, r) == d && forall x | start <= x < r :: WorkingTime(k, start, x) < d)
        && (0 < d && held < d ==>
              r == start + if exists m :: n <= m <= n + 365 && Dates.IsLeapDay(m) then Days(366) else Days(365))
  {
    hide Dates.FromDay, Dates.ToDay, Dates.YearLater, Dates.IsLeapDay, WorkingTime;
    Dates.YearLaterIs(DayOf(k, start));
  }

  lemma HorizonAfter(k: Desk, start: int, later: int)
    requires start <= later
    ensures start < Horizon(k, start) <= Horizon(k, later)
  {
    DayOfInside(k, DayOf(k, start), start);
    DayOfInside(k, DayOf(k, later), later);
  }

  /** A goal met in two parts is met when the whole is: waiting d1 and then d2 is waiting
      d1 + d2, whenever the whole is answered within its year. */
  lemma DeadlinesCompose(k: Desk, start: int, d1: nat, d2: nat, r1: int, r2: int, r: int)
    requires d1 + d2 <= WorkingTime(k, start, Horizon(k, start))
    requires Answers(k, start, d1, r1) && Answers(k, r1, d2, r2) && Answers(k, start, d1 + d2, r)
    ensures r2 == r
  {
    if 0 < d1 && 0 < d2 {
      assert IsDeadline(k, start, d1, r1) && IsDeadline(k, start, d1 + d2, r);
      var h := Horizon(k, start);
      HorizonAfter(k, start, r1);
      assert h < r1 ==> WorkingTime(k, start, h) < d1;
      WorkingTimeAdds(k, start, r1, h);
      WorkingTimeAdds(k, r1, h, Horizon(k, r1));
      assert IsDeadline(k, r1, d2, r2);
      WorkingTimeAdds(k, start, r1, r2);
      forall x | start <= x < r2
        ensures WorkingTime(k, start, x) < d1 + d2
      {
        if r1 <= x {
          WorkingTimeAdds(k, start, r1, x);
        }
      }
      DeadlineUnique(k, start, d1 + d2, r2, r);
    }
  }

  /** Of two deadlines, the one with another day off is never the sooner. */
  lemma DayOffNeverHurries(k: Desk, day: string, start: int, d: int, r: int, r': int)
    requires IsDeadline(k, start, d, r) && IsDeadline(WithDayOff(k, day), start, d, r')
    ensures r <= r'
  {
    DayOffNeverAdds(k, day, start, r');
  }

  // ---- Halving a day ----

  /** The start of `spans` that holds `left` ticks. */
  function TakeTicks(spans: seq<OpenSpan>, left: int): seq<OpenSpan> {
    if spans == [] || left <= 0 then []
    else
      var s := spans[0];
      if s.to - s.from > left then [OpenSpan(s.from, s.from + left)]
      else [s] + TakeTicks(spans[1..], left - (s.to - s.from))
  }

  lemma TakeTicksFrom(spans: seq<OpenSpan>, i: nat, left: int)
    requires i <= |spans|
    ensures i == |spans| || left <= 0 ==> TakeTicks(spans[i..], left) == []
    ensures i < |spans| && left > 0 ==>
      var length := spans[i].to - spans[i].from;
      TakeTicks(spans[i..], left) ==
        if length > left then [OpenSpan(spans[i].from, spans[i].from + left)]
        else [spans[i]] + TakeTicks(spans[i + 1..], left - length)
  {
    if i < |spans| {
      assert spans[i..][1..] == spans[i + 1..];
    }
  }

  lemma TailOrdered(spans: seq<OpenSpan>, a: int, b: int)
    requires Ordered(spans) && Inside(spans, a, b) && spans != []
    ensures Ordered(spans[1..]) && Inside(spans[1..], spans[0].to, b)
  {
  }

  lemma {:induction false} TakeTicksShape(spans: seq<OpenSpan>, left: int, a: int, b: int)
    requires Ordered(spans) && Inside(spans, a, b)
    ensures Ordered(TakeTicks(spans, left)) && Inside(TakeTicks(spans, left), a, b)
    ensures Total(TakeTicks(spans, left)) == Max(0, Min(left, Total(spans)))
  {
    hide Ordered, Inside, TakeTicks, Total, Cover, Instants.Ticks;
    NoTicksTaken(spans, left, a, b);
    if spans != [] && 0 < left {
      TailOrdered(spans, a, b);
      SpanFirst(spans, a, b);
      TotalHead(spans);
      TotalIsTicks(spans[1..], spans[0].to, b);
      TakeTicksHead(spans, left);
      if spans[0].to - spans[0].from <= left {
        var left' := left - (spans[0].to - spans[0].from);
        TakeTicksShape(spans[1..], left', spans[0].to, b);
        SpanBefore(spans[0], TakeTicks(spans[1..], left'), a, b);
      } else {
        var s := OpenSpan(spans[0].from, spans[0].from + left);
        assert [s] + [] == TakeTicks(spans, left);
        NoTicksTaken([], 0, s.to, b);
        SpanBefore(s, [], a, b);
      }
    }
  }

  lemma TotalHead(spans: seq<OpenSpan>)
    requires spans != []
    ensures Total(spans) == spans[0].to - spans[0].from + Total(spans[1..])
  {
  }

  lemma NoTicksTaken(spans: seq<OpenSpan>, left: int, a: int, b: int)
    requires Ordered(spans) && Inside(spans, a, b)
    ensures Ordered([]) && Inside([], a, b) && Total([]) == 0 && Total(spans) >= 0
    ensures spans == [] || left <= 0 ==> TakeTicks(spans, left) == []
  {
    TotalIsTicks(spans, a, b);
  }

  lemma SpanBefore(s: OpenSpan, rest: seq<OpenSpan>, a: int, b: int)
    requires a <= s.from < s.to <= b && Ordered(rest) && Inside(rest, s.to, b)
    ensures Ordered([s] + rest) && Inside([s] + rest, a, b) && Total([s] + rest) == s.to - s.from + Total(rest)
  {
    assert ([s] + rest)[1..] == rest;
  }

  /** The ticks of ordered spans before an instant: those of the first span, then those of the rest. */
  lemma TicksHeadTail(spans: seq<OpenSpan>, a: int, b: int, t: int)
    requires Ordered(spans) && Inside(spans, a, b) && spans != [] && a <= t
    ensures Ticks(Cover(spans), a, t) == Clip(spans[0], a, t) + Ticks(Cover(spans[1..]), spans[0].to, t)
  {
    var s, rest := spans[0], spans[1..];
    TailOrdered(spans, a, b);
    forall x | x in Between(s.from, s.to)
      ensures x !in Cover(rest)
    {
      InCover(rest, x);
    }
    TicksUnion(Between(s.from, s.to), Cover(rest), a, t);
    TicksBetween(s, a, t);
    forall x | x < s.to
      ensures x !in Cover(rest)
    {
      InCover(rest, x);
    }
    if s.to <= t {
      TicksSplit(Cover(rest), a, s.to, t);
      TicksNone(Cover(rest), a, s.to);
    } else {
      TicksNone(Cover(rest), a, t);
    }
  }

  /** Taking ticks from the front of ordered spans keeps exactly the instants with fewer than that many
      before them. */
  lemma {:induction false} TakeTicksCover(spans: seq<OpenSpan>, left: int, a: int, b: int, t: int)
    requires Ordered(spans) && Inside(spans, a, b) && a <= t
    ensures t in Cover(TakeTicks(spans, left)) <==> t in Cover(spans) && Ticks(Cover(spans), a, t) < left
  {
    if spans != [] && 0 < left {
      hide Instants.Ticks, TakeTicks, Cover, Ordered, Inside;
      var s, rest := spans[0], spans[1..];
      TailOrdered(spans, a, b);
      TicksHeadTail(spans, a, b, t);
      TakeTicksHead(spans, left);
      CoverHead(spans, t);
      TailCover(rest, s.to, b, t);
      if s.to - s.from > left {
        CoverOne(OpenSpan(s.from, s.from + left), t);
      } else {
        var taken := TakeTicks(rest, left - (s.to - s.from));
        CoverHead([s] + taken, t);
        assert ([s] + taken)[1..] == taken;
        TakeTicksShape(rest, left - (s.to - s.from), s.to, b);
        TailCover(taken, s.to, b, t);
        if s.to <= t {
          TakeTicksCover(rest, left - (s.to - s.from), s.to, b, t);
        }
      }
      SpanFirst(spans, a, b);
    }
  }

  lemma SpanFirst(spans: seq<OpenSpan>, a: int, b: int)
    requires Ordered(spans) && Inside(spans, a, b) && spans != []
    ensures a <= spans[0].from < spans[0].to <= b
  {
  }

  lemma TakeTicksHead(spans: seq<OpenSpan>, left: int)
    requires spans != [] && 0 < left
    ensures var s := spans[0];
      TakeTicks(spans, left) ==
        if s.to - s.from > left then [OpenSpan(s.from, s.from + left)]
        else [s] + TakeTicks(spans[1..], left - (s.to - s.from))
  {
  }

  lemma CoverHead(spans: seq<OpenSpan>, t: int)
    requires spans != []
    ensures t in Cover(spans) <==> spans[0].from <= t < spans[0].to || t in Cover(spans[1..])
  {
  }

  lemma CoverOne(s: OpenSpan, t: int)
    ensures t in Cover([s]) <==> s.from <= t < s.to
  {
    assert [s][1..] == [];
  }

  /** Spans inside a stretch cover nothing before it. */
  lemma TailCover(spans: seq<OpenSpan>, a: int, b: int, t: int)
    requires Inside(spans, a, b)
    ensures t in Cover(spans) ==> a <= t < b
  {
    InCover(spans, t);
  }

  /** Taking half of the ticks keeps the first part of the instants. */
  lemma TakeTicksIsFirstPart(spans: seq<OpenSpan>, left: int, a: int, b: int)
    requires Ordered(spans) && Inside(spans, a, b)
    ensures Cover(TakeTicks(spans, left)) == FirstPart(Cover(spans), a, left)
  {
    forall t
      ensures t in Cover(TakeTicks(spans, left)) <==> t in FirstPart(Cover(spans), a, left)
    {
      if a <= t {
        TakeTicksCover(spans, left, a, b, t);
      } else {
        TakeTicksShape(spans, left, a, b);
        InCover(TakeTicks(spans, left), t);
        InCover(spans, t);
      }
    }
  }

  // ---- What one step of the clock's loops does ----

  /** Adding a span to merged ones: it grows the last of them when they meet, and follows it when they do not. */
  function MergeIn(out: seq<OpenSpan>, s: OpenSpan): seq<OpenSpan> {
    if out != [] && s.from <= out[|out| - 1].to then
      if out[|out| - 1].to < s.to then out[|out| - 1 := OpenSpan(out[|out| - 1].from, s.to)] else out
    else out + [s]
  }

  lemma MergeInCover(out: seq<OpenSpan>, s: OpenSpan)
    requires s.from < s.to && (out != [] ==> out[|out| - 1].from <= s.from)
    ensures Cover(MergeIn(out, s)) == Cover(out) + Between(s.from, s.to)
  {
    hide Cover;
    if out != [] && s.from <= out[|out| - 1].to {
      var n, last := |out| - 1, out[|out| - 1];
      var grown := OpenSpan(last.from, Max(last.to, s.to));
      assert out == out[..n] + [last] && MergeIn(out, s) == out[..n] + [grown];
      CoverSnoc(out[..n], last);
      CoverSnoc(out[..n], grown);
    } else {
      CoverSnoc(out, s);
    }
  }

  lemma MergeInShape(out: seq<OpenSpan>, s: OpenSpan, a: int, b: int)
    requires Separated(out) && Inside(out, a, b)
    requires a <= s.from < s.to <= b && (out != [] ==> out[|out| - 1].from <= s.from)
    ensures var r := MergeIn(out, s);
      Separated(r) && Inside(r, a, b) && r != [] && r[|r| - 1].from <= s.from
  {
    if out != [] && s.from <= out[|out| - 1].to {
      LastGrows(out, Max(out[|out| - 1].to, s.to), a, b);
    } else {
      LastFollows(out, s, a, b);
    }
  }

  lemma LastGrows(out: seq<OpenSpan>, to: int, a: int, b: int)
    requires out != [] && Separated(out) && Inside(out, a, b) && out[|out| - 1].to <= to <= b
    ensures var r := out[|out| - 1 := OpenSpan(out[|out| - 1].from, to)];
      Separated(r) && Inside(r, a, b)
  {
  }

  lemma LastFollows(out: seq<OpenSpan>, s: OpenSpan, a: int, b: int)
    requires Separated(out) && Inside(out, a, b) && a <= s.from < s.to <= b
    requires out != [] ==> out[|out| - 1].to < s.from
    ensures Separated(out + [s]) && Inside(out + [s], a, b)
  {
  }

  /** Every span still to come starts no sooner than the last merged one. */
  ghost predicate StartsBy(out: seq<OpenSpan>, start: int, sorted: seq<Span>, i: nat) {
    out != [] ==> forall j | i <= j < |sorted| :: out[|out| - 1].from <= start + Minutes(StartKey(sorted[j]))
  }

  ghost function DaySpan(start: int, s: Span): OpenSpan
    requires Readable(s)
  {
    OpenSpan(start + Minutes(MinuteOf(s.from).value), start + Minutes(MinuteOf(s.to).value))
  }

  /** What merging the first `i` spans of a sorted day has made. */
  ghost predicate Merged(out: seq<OpenSpan>, start: int, sorted: seq<Span>, i: nat)
    requires i <= |sorted|
  {
    && Separated(out) && Inside(out, start, start + DAY)
    && Cover(out) == Saved(start, sorted[..i])
    && StartsBy(out, start, sorted, i)
  }

  lemma MergedDone(out: seq<OpenSpan>, start: int, saved: seq<Span>)
    requires |SortedSpans(saved)| == |saved| && Merged(out, start, SortedSpans(saved), |saved|)
    ensures Separated(out) && Inside(out, start, start + DAY) && Cover(out) == Saved(start, saved)
  {
    hide MinuteOf;
    var sorted := SortedSpans(saved);
    SortedSpansMembers(saved);
    assert sorted[..|sorted|] == sorted;
    assert forall t :: InSpans(start, sorted, t) <==> InSpans(start, saved, t);
  }

  lemma MergedStart(start: int, sorted: seq<Span>)
    ensures Merged([], start, sorted, 0)
  {
    assert sorted[..0] == [];
  }

  lemma MergedSkip(out: seq<OpenSpan>, start: int, sorted: seq<Span>, i: nat)
    requires i < |sorted| && Merged(out, start, sorted, i) && !Readable(sorted[i])
    ensures Merged(out, start, sorted, i + 1)
  {
    SavedNext(start, sorted, i);
  }

  lemma MergedStep(out: seq<OpenSpan>, start: int, sorted: seq<Span>, i: nat)
    requires i < |sorted| && InOrder(sorted) && Merged(out, start, sorted, i) && Forward(sorted[i])
    ensures Merged(MergeIn(out, DaySpan(start, sorted[i])), start, sorted, i + 1)
  {
    hide MinuteOf, MergeIn;
    var s := DaySpan(start, sorted[i]);
    SavedNext(start, sorted, i);
    MergeInCover(out, s);
    MergeInShape(out, s, start, start + DAY);
    forall j | i + 1 <= j < |sorted|
      ensures s.from <= start + Minutes(StartKey(sorted[j]))
    {
      assert StartKey(sorted[i]) <= StartKey(sorted[j]);
    }
  }

  lemma SavedNext(start: int, sorted: seq<Span>, i: nat)
    requires i < |sorted|
    ensures Saved(start, sorted[..i + 1]) == Saved(start, sorted[..i])
      + if Readable(sorted[i]) then Between(DaySpan(start, sorted[i]).from, DaySpan(start, sorted[i]).to) else iset{}
  {
    var s := sorted[i];
    assert sorted[..i + 1] == sorted[..i] + [s];
    forall t
      ensures InSpans(start, sorted[..i + 1], t) <==> InSpans(start, sorted[..i], t) || HoldsTick(start, s, t)
    {
      assert forall x :: x in sorted[..i + 1] <==> x in sorted[..i] || x == s;
    }
    var added := if Readable(s) then Between(DaySpan(start, s).from, DaySpan(start, s).to) else iset{};
    forall t
      ensures t in added <==> HoldsTick(start, s, t)
    {
    }
    assert Saved(start, sorted[..i + 1]) == Saved(start, sorted[..i]) + added;
  }

  lemma SavedWithin(start: int, spans: seq<Span>, t: int)
    requires t in Saved(start, spans)
    ensures start <= t < start + DAY
  {
    var s :| s in spans && HoldsTick(start, s, t);
  }

  lemma OpenOnWithin(k: Desk, n: int, t: int)
    requires t in OpenOn(k, n)
    ensures DayStart(k, n) <= t < DayStart(k, n) + DAY
  {
    assert t in Saved(DayStart(k, n), SpansOf(k, n));
    SavedWithin(DayStart(k, n), SpansOf(k, n), t);
  }

  lemma OpenOnOpens(k: Desk, n: int, t: int)
    requires t in OpenOn(k, n)
    ensures t in Open(k)
  {
    OpenOnWithin(k, n, t);
    DayOfInside(k, n, t);
  }

  /** One more day: the open time up to its start, and what of it lies in [a, b). */
  lemma DayCounted(k: Desk, n: int, a: int, b: int)
    requires DayOf(k, a) <= n && DayStart(k, n) < b
    ensures WorkingTime(k, a, Min(DayStart(k, n) + DAY, b))
      == WorkingTime(k, a, DayStart(k, n)) + Ticks(OpenOn(k, n), a, b)
  {
    var start, end := DayStart(k, n), Min(DayStart(k, n) + DAY, b);
    DayOfInside(k, DayOf(k, a), a);
    forall t | t in OpenOn(k, n)
      ensures start <= t < start + DAY
    {
      OpenOnWithin(k, n, t);
    }
    if a < b {
      if end < b {
        TicksSplit(OpenOn(k, n), a, end, b);
        TicksNone(OpenOn(k, n), end, b);
      }
      if start <= a {
        OpenInDay(k, n, a, end);
      } else {
        TicksSplit(OpenOn(k, n), a, start, end);
        TicksNone(OpenOn(k, n), a, start);
        TicksSplit(Open(k), a, start, end);
        OpenInDay(k, n, start, end);
      }
    }
  }

  /** The spans are the open stretches of day `n`, in order. */
  ghost predicate DaySpans(k: Desk, n: int, spans: seq<OpenSpan>) {
    && Ordered(spans)
    && Inside(spans, DayStart(k, n), DayStart(k, n) + DAY)
    && Cover(spans) == OpenOn(k, n)
  }

  /** Nothing of a stretch is counted before it begins. */
  lemma NothingYet(k: Desk, a: int, b: int)
    requires b <= a
    ensures WorkingTime(k, a, b) == 0
  {
  }

  lemma FirstDay(k: Desk, a: int)
    ensures DayStart(k, DayOf(k, a)) <= a < DayStart(k, DayOf(k, a) + 1)
    ensures WorkingTime(k, a, DayStart(k, DayOf(k, a))) == 0
  {
    DayOfInside(k, DayOf(k, a), a);
  }

  lemma NoSpansYet(spans: seq<OpenSpan>, a: int, b: int)
    ensures Ticks(Cover(spans[..0]), a, b) == 0
  {
    TicksEmpty(a, b);
  }

  lemma DayNextSpan(k: Desk, n: int, spans: seq<OpenSpan>, i: nat, a: int, b: int)
    requires DaySpans(k, n, spans) && i < |spans|
    ensures Ticks(Cover(spans[..i + 1]), a, b) == Ticks(Cover(spans[..i]), a, b) + Clip(spans[i], a, b)
    ensures spans[i].to <= DayStart(k, n) + DAY
  {
    hide OpenOn;
    TicksNextSpan(spans, i, a, b);
  }

  /** A whole day's spans counted: the open time up to the end of the day, or up to b. */
  lemma DayDone(k: Desk, n: int, spans: seq<OpenSpan>, a: int, b: int)
    requires DaySpans(k, n, spans) && DayOf(k, a) <= n && DayStart(k, n) < b
    ensures DayStart(k, n + 1) == DayStart(k, n) + DAY
    ensures WorkingTime(k, a, Min(DayStart(k, n + 1), b))
      == WorkingTime(k, a, DayStart(k, n)) + Ticks(Cover(spans[..|spans|]), a, b)
  {
    hide OpenOn;
    DayCounted(k, n, a, b);
    assert spans[..|spans|] == spans;
  }

  /** The open time up to an instant inside or at the end of the j-th open span of a day. */
  lemma ReachedInside(k: Desk, n: int, spans: seq<OpenSpan>, j: nat, at: int, x: int)
    requires DaySpans(k, n, spans) && j < |spans| && DayOf(k, at) <= n
    requires Max(spans[j].from, at) < x <= spans[j].to
    ensures WorkingTime(k, at, x) == WorkingTime(k, at, DayStart(k, n))
      + Ticks(Cover(spans[..j]), at, DayStart(k, n) + DAY) + (x - Max(spans[j].from, at))
  {
    hide DayKey;
    calc {
      WorkingTime(k, at, x);
    ==  { assert Min(DayStart(k, n) + DAY, x) == x; DayCounted(k, n, at, x); }
      WorkingTime(k, at, DayStart(k, n)) + Ticks(Cover(spans), at, x);
    ==  { TicksIntoSpan(spans, j, at, x, DayStart(k, n) + DAY); }
      WorkingTime(k, at, DayStart(k, n))
        + Ticks(Cover(spans[..j]), at, DayStart(k, n) + DAY) + (x - Max(spans[j].from, at));
    }
  }

  lemma ReachedOpen(k: Desk, n: int, spans: seq<OpenSpan>, j: nat, at: int, x: int)
    requires DaySpans(k, n, spans) && j < |spans|
    requires Max(spans[j].from, at) < x <= spans[j].to
    ensures x - 1 in Open(k)
  {
    hide DayKey;
    InCover(spans, x - 1);
    OpenOnOpens(k, n, x - 1);
  }

  /** Reaching the goal at the end of an open tick is reaching it for the first time. */
  lemma DeadlineReached(k: Desk, at: int, goal: int, x: int)
    requires at < x && x - 1 in Open(k) && WorkingTime(k, at, x) == goal
    ensures IsDeadline(k, at, goal, x)
  {
    forall y | at <= y < x
      ensures WorkingTime(k, at, y) < goal
    {
      FirstReached(Open(k), at, x, y);
    }
  }

  // ---- Where the year's end shows ----

  /** A year on is at least 365 days on. */
  lemma YearOnLater(k: Desk, t: int)
    ensures t + 365 * DAY <= YearOn(k, t)
  {
    hide Dates.ToDay, Dates.FromDay;
    Dates.YearLaterBy(Dates.FromDay(DayOf(k, t)));
    Dates.ToDayFromDay(DayOf(k, t));
  }

  /** A deadline passes an instant exactly when the goal is more than is open up to there. */
  lemma DeadlinePasses(k: Desk, start: int, d: int, r: int, t: int)
    requires IsDeadline(k, start, d, r) && start <= t
    ensures t < r <==> WorkingTime(k, start, t) < d
  {
    if r <= t {
      WorkingTimeAdds(k, start, r, t);
    }
  }

  /** Closing for another day answers a goal sooner exactly when it pushes a goal that was
      answered within its year, but only after the instant a year on, out of that year. */
  lemma DayOffHurriesExactly(k: Desk, day: string, start: int, d: int, r: int, r': int)
    requires Answers(k, start, d, r) && Answers(WithDayOff(k, day), start, d, r')
    ensures r' < r <==>
      && WorkingTime(WithDayOff(k, day), start, Horizon(k, start)) < d <= WorkingTime(k, start, Horizon(k, start))
      && WorkingTime(k, start, YearOn(k, start)) < d
  {
    hide WorkingTime, IsDeadline, YearOn, Horizon;
    var k' := WithDayOff(k, day);
    DayOffKeepsYear(k, day, start);
    DayOffNeverAdds(k, day, start, Horizon(k, start));
    YearOnLater(k, start);
    if 0 < d <= WorkingTime(k, start, Horizon(k, start)) {
      if d <= WorkingTime(k', start, Horizon(k, start)) {
        DayOffNeverHurries(k, day, start, d, r, r');
      } else {
        DeadlinePasses(k, start, d, r, YearOn(k, start));
      }
    }
  }

  lemma DayOffKeepsYear(k: Desk, day: string, start: int)
    ensures Horizon(WithDayOff(k, day), start) == Horizon(k, start)
    ensures YearOn(WithDayOff(k, day), start) == YearOn(k, start)
  {
  }

  /** A longer goal is due sooner exactly when it is not answered within the year, and the
      shorter one is, but only after the instant a year on. */
  lemma LongerGoalHurriesExactly(k: Desk, start: int, d1: int, d2: int, r1: int, r2: int)
    requires d1 <= d2 && Answers(k, start, d1, r1) && Answers(k, start, d2, r2)
    ensures r2 < r1 <==>
      && d1 <= WorkingTime(k, start, Horizon(k, start)) < d2
      && WorkingTime(k, start, YearOn(k, start)) < d1
  {
    hide WorkingTime, YearOn, Horizon;
    YearOnLater(k, start);
    if 0 < d1 <= WorkingTime(k, start, Horizon(k, start)) {
      if d2 <= WorkingTime(k, start, Horizon(k, start)) {
        assert IsDeadline(k, start, d1, r1) && IsDeadline(k, start, d2, r2);
      } else {
        DeadlinePasses(k, start, d1, r1, YearOn(k, start));
      }
    }
  }

  /** A desk that is open on Fridays from nine to five, in UTC. */
  const FRIDAYS := Desk(map["fri" := [Span("09:00", "17:00")]], [], map[], 0)

  lemma FridayHours(n: int, t: int)
    requires (n + 3) % 7 == 4
    ensures t in OpenOn(FRIDAYS, n) <==> Days(n) + Minutes(540) <= t < Days(n) + Minutes(1020)
  {
    var s := Span("09:00", "17:00");
    hide DayKey;
    assert WeekdayKey(n) == "fri" && SpansOf(FRIDAYS, n) == [s];
    assert MinuteOf(s.from) == Some(540) && MinuteOf(s.to) == Some(1020);
    assert InSpans(Days(n), [s], t) <==> HoldsTick(Days(n), s, t) by {
      assert s in [s];
    }
  }

  /** Nine on 1 January 1970, a Thursday; and five a year later, on a Friday, the 366th day. */
  const THURSDAY := Minutes(540)
  const EVENING := Days(365) + Minutes(1020)

  lemma YearFromThursday()
    ensures Horizon(FRIDAYS, THURSDAY) == Days(366) && YearOn(FRIDAYS, THURSDAY) == Days(365) + Minutes(540)
    ensures DayKey(1) == "1970-01-02"
  {
    hide Dates.FromDay, Dates.ToDay, Dates.YearLater, Dates.DayText;
    FirstDays();
    assert DayOf(FRIDAYS, THURSDAY) == 0;
  }

  lemma FirstDays()
    ensures Dates.FromDay(0) == Dates.EPOCH && Dates.FromDay(1) == Dates.Date(1970, 1, 2)
    ensures Dates.YearLater(Dates.EPOCH) == Dates.Date(1971, 1, 1) && Dates.ToDay(Dates.Date(1971, 1, 1)) == 365
    ensures Dates.DayText(Dates.Date(1970, 1, 2)) == "1970-01-02"
  {
  }

  /** By that evening the desk has been open for all of its year, and by nine that day for less. */
  lemma OpenUntilEvening()
    ensures var all := WorkingTime(FRIDAYS, THURSDAY, Days(366));
      && IsDeadline(FRIDAYS, THURSDAY, all, EVENING)
      && WorkingTime(FRIDAYS, THURSDAY, Days(365) + Minutes(540)) < all
  {
    hide OpenOn, Instants.Ticks;
    forall t | EVENING <= t < Days(366)
      ensures t !in Open(FRIDAYS)
    {
      assert DayOf(FRIDAYS, t) == 365;
      FridayHours(365, t);
    }
    TicksNone(Open(FRIDAYS), EVENING, Days(366));
    TicksSplit(Open(FRIDAYS), THURSDAY, EVENING, Days(366));
    FridayHours(365, EVENING - 1);
    assert DayOf(FRIDAYS, EVENING - 1) == 365;
    DeadlineReached(FRIDAYS, THURSDAY, WorkingTime(FRIDAYS, THURSDAY, EVENING), EVENING);
  }

  /** Closing for a day can answer a goal sooner: the goal that took such a desk all of its
      year until five is answered for nine that day once the first Friday is off. */
  lemma DayOffCanHurry() returns (d: int, r: int, r': int)
    ensures d == WorkingTime(FRIDAYS, THURSDAY, Horizon(FRIDAYS, THURSDAY))
    ensures Answers(FRIDAYS, THURSDAY, d, r) && Answers(WithDayOff(FRIDAYS, "1970-01-02"), THURSDAY, d, r')
    ensures r - r' == Minutes(480)
  {
    hide FRIDAYS, OpenOn, IsDeadline, WorkingTime, YearOn, Horizon;
    d, r, r' := WorkingTime(FRIDAYS, THURSDAY, Days(366)), EVENING, Days(365) + Minutes(540);
    YearFromThursday();
    OpenUntilEvening();
    DayOffKeepsYear(FRIDAYS, "1970-01-02", THURSDAY);
    FridayLost();
  }

  lemma FridayLost()
    ensures WorkingTime(WithDayOff(FRIDAYS, "1970-01-02"), THURSDAY, Days(366))
      < WorkingTime(FRIDAYS, THURSDAY, Days(366))
  {
    hide FRIDAYS, DayKey, OpenOn;
    var k, k', x := FRIDAYS, WithDayOff(FRIDAYS, "1970-01-02"), Days(1) + Minutes(540);
    YearFromThursday();
    assert DayOf(k, x) == 1 by {
      FridayIsUtc();
    }
    FridayHours(1, x);
    DayOffCloses(k, "1970-01-02", x);
    forall t | t in Open(k')
      ensures t in Open(k)
    {
      DayOffCloses(k, "1970-01-02", t);
    }
    TicksFewer(Open(k'), Open(k), THURSDAY, x, Days(366));
  }

  lemma FridayIsUtc()
    ensures FRIDAYS.offset == 0
  {
  }

  /** A longer goal can be due sooner: a tick more than such a desk holds in its year. */
  lemma LongerGoalCanHurry() returns (d: int, r1: int, r2: int)
    ensures d == WorkingTime(FRIDAYS, THURSDAY, Horizon(FRIDAYS, THURSDAY))
    ensures Answers(FRIDAYS, THURSDAY, d, r1) && Answers(FRIDAYS, THURSDAY, d + 1, r2)
    ensures r1 - r2 == Minutes(480)
  {
    hide FRIDAYS, OpenOn, IsDeadline, WorkingTime, YearOn, Horizon;
    d, r1, r2 := WorkingTime(FRIDAYS, THURSDAY, Days(366)), EVENING, Days(365) + Minutes(540);
    YearFromThursday();
    OpenUntilEvening();
  }
}
