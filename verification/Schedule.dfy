/** When a clock-driven rule is due, and what a run of ticks answers. */
module Schedules {
  import opened Wrappers
  import opened WeeklyHours

  const HOUR := 3_600_000_000_000

  const EVERY_HOURS := "hours"
  const EVERY_DAY := "daily"
  const EVERY_WEEK := "weekly"

  /** A unit of hours, days or weeks with what it needs: a number of hours, or a time of day, and for
      weeks a weekday from Sunday, 0. */
  datatype Schedule = Schedule(unit: string, every: int, at: string, weekday: int)

  /** What saving a rule asks of its schedule. */
  predicate Valid(s: Schedule) {
    if s.unit == EVERY_HOURS then s.every > 0
    else if s.unit == EVERY_DAY then MinuteOf(s.at).Some?
    else if s.unit == EVERY_WEEK then MinuteOf(s.at).Some? && 0 <= s.weekday <= 6
    else false
  }

  function Weekday(n: int): int {
    (n + 4) % 7
  }

  function DayIndex(offset: int, t: int): int {
    (t + offset) / 86_400_000_000_000
  }

  function MomentOn(minute: int, offset: int, n: int): int {
    Days(n) + Minutes(minute) - offset
  }

  /** An instant at which the clock reads the schedule's time, on its weekday when it has one. */
  predicate IsMoment(s: Schedule, offset: int, t: int) {
    && MinuteOf(s.at).Some?
    && var n := DayIndex(offset, t);
      && t == MomentOn(MinuteOf(s.at).value, offset, n)
      && (s.unit == EVERY_WEEK ==> Weekday(n) == s.weekday)
  }

  /** Moments by the wall clock alone: so long after its midnight as the schedule's time of day, and, when it
      is weekly, so many days after a Sunday as its weekday; the first Sunday was 4 January 1970. */
  lemma MomentIs(s: Schedule, offset: int, t: int)
    ensures IsMoment(s, offset, t) <==>
      && MinuteOf(s.at).Some?
      && (t + offset) % 86_400_000_000_000 == MinuteOf(s.at).value * 60_000_000_000
      && (s.unit == "weekly" ==>
            0 <= s.weekday <= 6 && ((t + offset) / 86_400_000_000_000 - 3 - s.weekday) % 7 == 0)
  {
    hide MinuteOf;
    if MinuteOf(s.at).Some? {
      MinuteBound(s.at);
    }
  }

  /** The same weekdays as the weekly hours have. */
  lemma SameWeekdays(n: int)
    ensures ["sun", "mon", "tue", "wed", "thu", "fri", "sat"][Weekday(n)] == WeekdayKey(n)
  {
    WeekdayIs(n);
  }

  ghost predicate MomentBetween(s: Schedule, offset: int, last: int, now: int) {
    exists t :: last < t <= now && IsMoment(s, offset, t)
  }

  lemma MomentDay(minute: nat, offset: int, n: int)
    requires minute < 1440
    ensures DayIndex(offset, MomentOn(minute, offset, n)) == n
  {
  }

  /** No moment lies past the one on day `n` up to `now`, when every later day's comes after now or has
      the wrong weekday. */
  ghost predicate NoneSince(s: Schedule, offset: int, n: int, now: int) {
    forall t | IsMoment(s, offset, t) && t <= now :: DayIndex(offset, t) <= n
  }

  lemma DaysInOrder(minute: nat, offset: int, m: int, n: int)
    requires minute < 1440
    ensures m <= n <==> MomentOn(minute, offset, m) <= MomentOn(minute, offset, n)
  {
  }

  lemma StartsNoneSince(s: Schedule, offset: int, now: int)
    requires MinuteOf(s.at).Some?
    ensures var n := DayIndex(offset, now);
      && NoneSince(s, offset, n, now)
      && (MomentOn(MinuteOf(s.at).value, offset, n) > now ==> NoneSince(s, offset, n - 1, now))
      && MomentOn(MinuteOf(s.at).value, offset, n - 1) <= now
  {
    hide MinuteOf;
    assert MinuteOf(s.at).value < 1440 by {
      MinuteBound(s.at);
    }
  }

  lemma MinuteBound(text: string)
    requires MinuteOf(text).Some?
    ensures MinuteOf(text).value < 1440
  {
  }

  lemma NoMoments(s: Schedule, offset: int, last: int, now: int)
    requires MinuteOf(s.at).None?
    ensures !MomentBetween(s, offset, last, now)
  {
  }

  lemma OneDayBack(s: Schedule, offset: int, n: int, now: int)
    requires MinuteOf(s.at).Some? && NoneSince(s, offset, n, now) && MomentOn(MinuteOf(s.at).value, offset, n) <= now
    requires s.unit == EVERY_WEEK && Weekday(n) != s.weekday && 0 <= s.weekday <= 6
    ensures NoneSince(s, offset, n - 1, now) && MomentOn(MinuteOf(s.at).value, offset, n - 1) <= now
    ensures (Weekday(n - 1) - s.weekday + 7) % 7 < (Weekday(n) - s.weekday + 7) % 7
  {
    hide MinuteOf;
  }

  lemma LatestMoment(s: Schedule, offset: int, n: int, now: int)
    requires MinuteOf(s.at).Some? && NoneSince(s, offset, n, now)
    requires s.unit == EVERY_WEEK ==> Weekday(n) == s.weekday
    ensures var m := MomentOn(MinuteOf(s.at).value, offset, n);
      IsMoment(s, offset, m) && forall t | IsMoment(s, offset, t) && t <= now :: t <= m
  {
    var minute := MinuteOf(s.at).value;
    MinuteBound(s.at);
    MomentDay(minute, offset, n);
    forall t | IsMoment(s, offset, t) && t <= now
      ensures t <= MomentOn(minute, offset, n)
    {
      DaysInOrder(minute, offset, DayIndex(offset, t), n);
    }
  }

  /** Answers for hours by how long ago the last run was; for a time of day, exactly when the clock
      reads it, on the right weekday, at some moment after last and not after now. */
  method Due(s: Schedule, last: int, now: int, offset: int) returns (due: bool)
    requires s.unit == EVERY_WEEK ==> 0 <= s.weekday <= 6
    ensures s.unit == "hours" ==> (due <==> now - last >= s.every * 3_600_000_000_000)
    ensures s.unit == "daily" || s.unit == "weekly" ==> (due <==> MomentBetween(s, offset, last, now))
    ensures s.unit != "hours" && s.unit != "daily" && s.unit != "weekly" ==> !due
  {
    hide MinuteOf, NoneSince, MomentOn, IsMoment, DayIndex;
    if s.unit == EVERY_HOURS {
      return now - last >= s.every * HOUR;
    }
    if s.unit == EVERY_DAY || s.unit == EVERY_WEEK {
      var at := MinuteOf(s.at);
      if at.None? {
        NoMoments(s, offset, last, now);
        return false;
      }
      MinuteBound(s.at);
      StartsNoneSince(s, offset, now);
      var n := DayIndex(offset, now);
      if MomentOn(at.value, offset, n) > now {
        n := n - 1;
      }
      if s.unit == EVERY_WEEK {
        while Weekday(n) != s.weekday
          invariant NoneSince(s, offset, n, now) && MomentOn(at.value, offset, n) <= now
          decreases (Weekday(n) - s.weekday + 7) % 7
        {
          OneDayBack(s, offset, n, now);
          n := n - 1;
        }
      }
      var moment := MomentOn(at.value, offset, n);
      LatestMoment(s, offset, n, now);
      assert moment > last ==> MomentBetween(s, offset, last, now);
      return moment > last;
    }
    return false;
  }

  // ---- One tick over every rule ----

  ghost predicate IsDue(s: Schedule, last: int, now: int, offset: int) {
    if s.unit == EVERY_HOURS then now - last >= s.every * HOUR
    else (s.unit == EVERY_DAY || s.unit == EVERY_WEEK) && MomentBetween(s, offset, last, now)
  }

  /** A scheduled rule, with the start of its latest run, or its making when it never ran. */
  datatype Candidate = Candidate(rule: nat, schedule: Schedule, last: int)

  ghost function DueRules(found: seq<Candidate>, now: int, offset: int): seq<nat> {
    if found == [] then []
    else
      var c := found[|found| - 1];
      DueRules(found[..|found| - 1], now, offset) + if IsDue(c.schedule, c.last, now, offset) then [c.rule] else []
  }

  /** Each rule is judged by itself, and those due keep their order. */
  lemma {:induction false} DueRulesAre(a: seq<Candidate>, b: seq<Candidate>, c: Candidate, now: int, offset: int)
    ensures DueRules(a + b, now, offset) == DueRules(a, now, offset) + DueRules(b, now, offset)
    ensures DueRules([c], now, offset) == if IsDue(c.schedule, c.last, now, offset) then [c.rule] else []
    decreases |b|
  {
    hide IsDue;
    if b == [] {
      assert a + b == a;
    } else {
      assert (a + b)[..|a + b| - 1] == a + b[..|b| - 1];
      DueRulesAre(a, b[..|b| - 1], c, now, offset);
    }
    assert [c][..0] == [];
  }

  /** The rules of those handed over that the runner could take. */
  function Taken(handed: seq<nat>, refused: set<nat>): (taken: seq<nat>)
    ensures forall r :: r in taken <==> r in handed && r !in refused
    ensures refused == {} ==> taken == handed
  {
    if handed == [] then []
    else
      assert handed == [handed[0]] + handed[1..];
      (if handed[0] in refused then [] else [handed[0]]) + Taken(handed[1..], refused)
  }

  lemma {:induction false} TakenNext(handed: seq<nat>, rule: nat, refused: set<nat>)
    ensures Taken(handed + [rule], refused) == Taken(handed, refused) + if rule in refused then [] else [rule]
  {
    if handed != [] {
      assert (handed + [rule])[1..] == handed[1..] + [rule];
      TakenNext(handed[1..], rule, refused);
    }
  }

  /** Hands every rule that is due, and no other, to the runner, in order; one the runner could not take
      is not counted. */
  method TickRules(found: seq<Candidate>, now: int, offset: int, refused: set<nat>)
    returns (fired: nat, handed: seq<nat>)
    requires forall c | c in found :: Valid(c.schedule)
    ensures handed == DueRules(found, now, offset)
    ensures fired == |Taken(handed, refused)|
  {
    hide MomentBetween;
    fired, handed := 0, [];
    for i := 0 to |found|
      invariant handed == DueRules(found[..i], now, offset)
      invariant fired == |Taken(handed, refused)|
    {
      var c := found[i];
      assert c in found && found[..i + 1][..i] == found[..i];
      var due := Due(c.schedule, c.last, now, offset);
      if !due {
        continue;
      }
      TakenNext(handed, c.rule, refused);
      handed := handed + [c.rule];
      if c.rule in refused {
        continue;
      }
      fired := fired + 1;
    }
    assert found[..|found|] == found;
  }

  // ---- Runs of ticks ----

  /** One look at the clock, and when the run it started, if any, was recorded as started. */
  datatype Tick = Tick(now: int, started: int)

  /** A firing: from the end of the one before (or the rule's making), at a tick. */
  datatype Firing = Firing(after: int, tick: Tick)

  ghost predicate Fires(s: Schedule, offset: int, last: int, t: Tick) {
    IsDue(s, last, t.now, offset)
  }

  /** The start of the latest run, after some ticks: what the next tick asks about. */
  ghost function LastRun(s: Schedule, offset: int, made: int, ticks: seq<Tick>): int
    decreases |ticks|
  {
    if ticks == [] then made
    else
      var last := LastRun(s, offset, made, ticks[..|ticks| - 1]);
      if Fires(s, offset, last, ticks[|ticks| - 1]) then ticks[|ticks| - 1].started else last
  }

  ghost function Firings(s: Schedule, offset: int, made: int, ticks: seq<Tick>): seq<Firing>
    decreases |ticks|
  {
    if ticks == [] then []
    else
      var (before, t) := (ticks[..|ticks| - 1], ticks[|ticks| - 1]);
      var last := LastRun(s, offset, made, before);
      Firings(s, offset, made, before) + if Fires(s, offset, last, t) then [Firing(last, t)] else []
  }

  /** Ticks come one after another, and a run is recorded no sooner than its tick looked and no later
      than the next tick looks. */
  ghost predicate InTurn(made: int, ticks: seq<Tick>) {
    && (forall i | 0 <= i < |ticks| :: made <= ticks[i].now <= ticks[i].started)
    && (forall i, j | 0 <= i < j < |ticks| :: ticks[i].started <= ticks[j].now)
  }

  /** A firing answers the moments between the run before it and its tick. */
  ghost predicate AnsweredBy(f: Firing, t: int) {
    f.after < t <= f.tick.now
  }

  /** A firing passes over the moments between its tick's look at the clock and its run's start. */
  ghost predicate PassedOverBy(f: Firing, t: int) {
    f.tick.now < t <= f.tick.started
  }

  ghost predicate InOrder(firings: seq<Firing>) {
    && (forall i | 0 <= i < |firings| :: firings[i].after <= firings[i].tick.now <= firings[i].tick.started)
    && (forall i, j | 0 <= i < j < |firings| :: firings[i].tick.started <= firings[j].after)
  }

  lemma {:induction false} LastRunBound(s: Schedule, offset: int, made: int, ticks: seq<Tick>)
    requires InTurn(made, ticks)
    ensures made <= LastRun(s, offset, made, ticks)
    ensures ticks != [] ==> LastRun(s, offset, made, ticks) <= ticks[|ticks| - 1].started
    ensures ticks == [] ==> LastRun(s, offset, made, ticks) == made
    decreases |ticks|
  {
    if ticks != [] {
      LastRunBound(s, offset, made, ticks[..|ticks| - 1]);
    }
  }

  lemma FiringsNext(s: Schedule, offset: int, made: int, before: seq<Tick>, t: Tick)
    ensures var last := LastRun(s, offset, made, before);
      && Firings(s, offset, made, before + [t])
           == (if Fires(s, offset, last, t) then Firings(s, offset, made, before) + [Firing(last, t)]
               else Firings(s, offset, made, before))
      && LastRun(s, offset, made, before + [t]) == if Fires(s, offset, last, t) then t.started else last
  {
    hide Fires;
    assert (before + [t])[..|before + [t]| - 1] == before;
  }

  lemma InTurnNext(made: int, before: seq<Tick>, t: Tick)
    requires InTurn(made, before + [t])
    ensures InTurn(made, before) && made <= t.now <= t.started
    ensures forall k | k in before :: k.now <= k.started <= t.now
  {
    var ticks := before + [t];
    assert ticks[|before|] == t;
    assert forall i | 0 <= i < |before| :: ticks[i] == before[i];
  }

  /** Each of the firings is at one of the ticks, at which the rule was due. */
  ghost predicate AtTicks(s: Schedule, offset: int, ticks: seq<Tick>, firings: seq<Firing>) {
    forall f | f in firings :: f.tick in ticks && Fires(s, offset, f.after, f.tick)
  }

  /** The latest run is the last firing's, and none is later. */
  ghost predicate UpTo(firings: seq<Firing>, made: int, last: int) {
    && (forall f | f in firings :: f.tick.started <= last)
    && last == if firings == [] then made else firings[|firings| - 1].tick.started
  }

  lemma AtTicksNext(s: Schedule, offset: int, before: seq<Tick>, t: Tick, firings: seq<Firing>, last: int)
    requires AtTicks(s, offset, before, firings)
    ensures AtTicks(s, offset, before + [t], firings)
    ensures Fires(s, offset, last, t) ==> AtTicks(s, offset, before + [t], firings + [Firing(last, t)])
  {
    hide Fires;
    assert t in before + [t] && forall k | k in before :: k in before + [t];
  }

  lemma InOrderNext(firings: seq<Firing>, made: int, f: Firing)
    requires InOrder(firings) && UpTo(firings, made, f.after) && f.after <= f.tick.now <= f.tick.started
    ensures InOrder(firings + [f]) && UpTo(firings + [f], made, f.tick.started)
  {
    assert forall i | 0 <= i < |firings| :: firings[i] in firings;
  }

  /** Firings come one after another, each from the run before it, at ticks at which the rule was due. */
  lemma {:induction false} FiringsInOrder(s: Schedule, offset: int, made: int, ticks: seq<Tick>)
    requires InTurn(made, ticks)
    ensures var f := Firings(s, offset, made, ticks);
      InOrder(f) && AtTicks(s, offset, ticks, f) && UpTo(f, made, LastRun(s, offset, made, ticks))
    decreases |ticks|
  {
    hide *;
    if ticks == [] {
      NoFirings(s, offset, made);
    } else {
      var before, t := ticks[..|ticks| - 1], ticks[|ticks| - 1];
      assert ticks == before + [t];
      InTurnNext(made, before, t);
      FiringsInOrder(s, offset, made, before);
      FiringsNext(s, offset, made, before, t);
      var f, last := Firings(s, offset, made, before), LastRun(s, offset, made, before);
      AtTicksNext(s, offset, before, t, f, last);
      if Fires(s, offset, last, t) {
        LastRunBound(s, offset, made, before);
        assert before != [] ==> before[|before| - 1] in before;
        InOrderNext(f, made, Firing(last, t));
      }
    }
  }

  lemma NoFirings(s: Schedule, offset: int, made: int)
    ensures Firings(s, offset, made, []) == [] && LastRun(s, offset, made, []) == made
    ensures InOrder([]) && AtTicks(s, offset, [], []) && UpTo([], made, made)
  {
  }

  /** Whether a schedule names a time of day. */
  predicate OnClock(s: Schedule) {
    s.unit == EVERY_DAY || s.unit == EVERY_WEEK
  }

  // ---- Every so many hours ----

  /** A rule that runs every so many hours, over any run of ticks: each firing comes at least that
      long after the run before it, or the rule's making, and no tick since then that came as
      late was passed by; nor has one since the latest run. */
  lemma {:induction false} HoursAreKept(s: Schedule, offset: int, made: int, ticks: seq<Tick>)
    requires s.unit == EVERY_HOURS && s.every > 0 && InTurn(made, ticks)
    ensures forall f | f in Firings(s, offset, made, ticks) :: f.tick.now - f.after >= s.every * HOUR
    ensures forall f, k | f in Firings(s, offset, made, ticks) && k in ticks && f.after <= k.now < f.tick.now ::
      k.now - f.after < s.every * HOUR
    ensures forall k | k in ticks && LastRun(s, offset, made, ticks) <= k.now ::
      k.now - LastRun(s, offset, made, ticks) < s.every * HOUR
    decreases |ticks|
  {
    hide Fires, LastRun, Firings, InTurn, IsDue, InOrder, UpTo;
    HoursLong(s.every);
    if ticks == [] {
      NoFirings(s, offset, made);
    } else {
      var before, t := ticks[..|ticks| - 1], ticks[|ticks| - 1];
      assert ticks == before + [t];
      HourFires(s, offset, LastRun(s, offset, made, before), t);
      InTurnNext(made, before, t);
      HoursAreKept(s, offset, made, before);
      FiringsInOrder(s, offset, made, before);
      FiringsNext(s, offset, made, before, t);
    }
  }

  lemma HourFires(s: Schedule, offset: int, last: int, t: Tick)
    requires s.unit == EVERY_HOURS
    ensures Fires(s, offset, last, t) <==> t.now - last >= s.every * HOUR
  {
  }

  lemma HoursLong(n: int)
    requires n > 0
    ensures n * HOUR > 0
  {
  }

  // ---- At a time of day ----

  /** Every firing answers a moment, and no moment is answered by two firings. */
  lemma EachFiringIsItsOwn(s: Schedule, offset: int, made: int, ticks: seq<Tick>, i: nat)
    requires OnClock(s) && InTurn(made, ticks) && i < |Firings(s, offset, made, ticks)|
    ensures var f := Firings(s, offset, made, ticks);
      && (exists t :: IsMoment(s, offset, t) && AnsweredBy(f[i], t))
      && forall t, j | 0 <= j < |f| && AnsweredBy(f[i], t) && AnsweredBy(f[j], t) :: i == j
  {
    FiringsInOrder(s, offset, made, ticks);
    var f := Firings(s, offset, made, ticks);
    assert f[i] in f && Fires(s, offset, f[i].after, f[i].tick);
    assert MomentBetween(s, offset, f[i].after, f[i].tick.now);
    var t :| f[i].after < t <= f[i].tick.now && IsMoment(s, offset, t);
    assert AnsweredBy(f[i], t);
  }

  /** A moment passed over is never answered, by any firing. */
  lemma PassedOverIsLost(s: Schedule, offset: int, made: int, ticks: seq<Tick>, i: nat, t: int)
    requires InTurn(made, ticks) && i < |Firings(s, offset, made, ticks)|
    requires PassedOverBy(Firings(s, offset, made, ticks)[i], t)
    ensures forall f | f in Firings(s, offset, made, ticks) :: !AnsweredBy(f, t)
  {
    FiringsInOrder(s, offset, made, ticks);
  }

  /** A moment can be passed over: a rule for nine each day, looked at a tick before nine on the
      second day, with its run recorded a tick after, has fired for the day before and misses that day's nine. */
  lemma NineIsMissed() returns (s: Schedule, ticks: seq<Tick>, t: int)
    ensures Valid(s) && InTurn(0, ticks) && |ticks| == 1
    ensures IsMoment(s, 0, t) && 0 < t
    ensures exists f :: f in Firings(s, 0, 0, ticks) && PassedOverBy(f, t)
    ensures forall f | f in Firings(s, 0, 0, ticks) :: !AnsweredBy(f, t)
  {
    hide MomentOn;
    s, t := Schedule(EVERY_DAY, 0, "09:00", 0), Days(1) + Minutes(540);
    var tick := Tick(t - 1, t + 1);
    ticks := [tick];
    NineOn(s, 0);
    NineOn(s, 1);
    assert ticks[..0] == [];
    assert MomentBetween(s, 0, 0, t - 1);
    assert Firings(s, 0, 0, ticks) == [Firing(0, tick)];
    assert Firing(0, tick) in Firings(s, 0, 0, ticks);
  }

  lemma NineOn(s: Schedule, n: int)
    requires s.unit == EVERY_DAY && s.at == "09:00"
    ensures Valid(s) && IsMoment(s, 0, Days(n) + Minutes(540))
  {
    assert MinuteOf("09:00") == Some(540);
    MomentDay(540, 0, n);
  }

  lemma MomentFires(s: Schedule, offset: int, last: int, k: Tick, t: int)
    requires OnClock(s) && IsMoment(s, offset, t) && last < t <= k.now
    ensures Fires(s, offset, last, k)
  {
    hide IsMoment;
    assert MomentBetween(s, offset, last, k.now);
  }

  /** Each moment since the rule was made, up to the last tick, is answered by a firing or was
      passed over by one while its run was being recorded; a clock that stands still between
      looking and recording loses none. */
  lemma {:induction false} EveryMomentIsAccountedFor(s: Schedule, offset: int, made: int, ticks: seq<Tick>, t: int)
    requires OnClock(s) && InTurn(made, ticks) && ticks != []
    requires IsMoment(s, offset, t) && made < t <= ticks[|ticks| - 1].now
    ensures exists f :: f in Firings(s, offset, made, ticks) && (AnsweredBy(f, t) || PassedOverBy(f, t))
    ensures (forall k | k in ticks :: k.now == k.started) ==>
      exists f :: f in Firings(s, offset, made, ticks) && AnsweredBy(f, t)
    decreases |ticks|
  {
    hide IsMoment, Firings, LastRun, Fires, InOrder;
    var before, k := ticks[..|ticks| - 1], ticks[|ticks| - 1];
    assert ticks == before + [k];
    var last := LastRun(s, offset, made, before);
    LastRunBound(s, offset, made, before);
    FiringsNext(s, offset, made, before, k);
    if last < t {
      MomentFires(s, offset, last, k, t);
      assert AnsweredBy(Firing(last, k), t) && Firing(last, k) in Firings(s, offset, made, ticks);
    } else {
      var b := before[|before| - 1];
      FiringsInOrder(s, offset, made, before);
      var fs := Firings(s, offset, made, before);
      if t <= b.now {
        EveryMomentIsAccountedFor(s, offset, made, before, t);
        assert forall f | f in fs :: f in Firings(s, offset, made, ticks);
        assert forall x | x in before :: x in ticks;
      } else {
        var f := fs[|fs| - 1];
        LastFiringNow(s, offset, made, before);
        assert f in Firings(s, offset, made, ticks);
        assert PassedOverBy(f, t);
        assert f.tick in before && f.tick in ticks;
      }
    }
  }

  /** A moment the ticks have come past is answered exactly when no firing passed over it. */
  lemma AnsweredUnlessPassedOver(s: Schedule, offset: int, made: int, ticks: seq<Tick>, t: int)
    requires OnClock(s) && InTurn(made, ticks) && ticks != []
    requires IsMoment(s, offset, t) && made < t <= ticks[|ticks| - 1].now
    ensures var fs := Firings(s, offset, made, ticks);
      (exists f :: f in fs && AnsweredBy(f, t)) <==> !(exists f :: f in fs && PassedOverBy(f, t))
  {
    hide Firings, IsMoment, InTurn, AnsweredBy, PassedOverBy;
    EveryMomentIsAccountedFor(s, offset, made, ticks, t);
    var fs := Firings(s, offset, made, ticks);
    if f :| f in fs && PassedOverBy(f, t) {
      var i :| 0 <= i < |fs| && fs[i] == f;
      PassedOverIsLost(s, offset, made, ticks, i, t);
    }
  }

  /** The firing behind the latest run was at one of the ticks, no later than the last. */
  lemma {:induction false} LastFiringNow(s: Schedule, offset: int, made: int, ticks: seq<Tick>)
    requires InTurn(made, ticks) && Firings(s, offset, made, ticks) != []
    ensures var f := Firings(s, offset, made, ticks);
      f[|f| - 1].tick in ticks && f[|f| - 1].tick.now <= ticks[|ticks| - 1].now
    decreases |ticks|
  {
    hide Fires;
    var before := ticks[..|ticks| - 1];
    if !Fires(s, offset, LastRun(s, offset, made, before), ticks[|ticks| - 1]) {
      LastFiringNow(s, offset, made, before);
    }
  }
}
