/** A desk's calendar as an object: checking and linking it, and its clock, proved against OpenTime. */
module BusinessHours {
  import opened Wrappers
  import opened Instants
  import opened WeeklyHours
  import opened OpenTime
  import Dates

  datatype Refusal =
    | NotAZone(name: string)
    | NotAWeekday(day: string)
    | NotATime(text: string)
    | EndsBeforeItStarts(day: string, span: Span)
    | NotADay(text: string)
    | Overlaps(day: string, span: Span, held: Span)

  class Calendar {
    /** The zones the server knows, each as a fixed offset from UTC. */
    const zones: map<string, int>
    var timezone: string
    var hours: map<string, seq<Span>>
    var holidays: seq<string>
    /** The linked holiday calendar's days, true for a half day. */
    var linked: map<string, bool>
    /** The zone once it has been looked up. */
    var loc: Option<int>

    constructor (zones: map<string, int>, timezone: string, hours: map<string, seq<Span>>, holidays: seq<string>)
      ensures this.zones == zones && this.timezone == timezone && this.hours == hours && this.holidays == holidays
      ensures linked == map[] && loc == None
      ensures View() == Desk(hours, holidays, map[],
        if timezone != "UTC" && timezone in zones && timezone != "" then zones[timezone] else 0)
    {
      this.zones := zones;
      this.timezone, this.hours, this.holidays := timezone, hours, holidays;
      linked, loc := map[], None;
    }

    function Zone(name: string): Option<int> {
      if name == "" || name == "UTC" then Some(0)
      else if name in zones then Some(zones[name]) else None
    }

    function Offset(): int
      reads this
    {
      if loc.Some? then loc.value else if Zone(timezone).Some? then Zone(timezone).value else 0
    }

    /** What the calendar says, as a value. */
    ghost function View(): Desk
      reads this
    {
      Desk(hours, holidays, linked, Offset())
    }

    /** Afterwards exactly the days of both lists are linked, and those of the second are half days even
        when the first has them. */
    method Link(whole: seq<string>, half: seq<string>)
      modifies this`linked
      ensures forall d :: d in linked <==> d in whole || d in half
      ensures forall d | d in linked :: linked[d] <==> d in half
      ensures View() == old(View()).(linked := linked)
    {
      linked := map[];
      for i := 0 to |whole|
        invariant forall d :: d in linked <==> d in whole[..i]
        invariant forall d | d in linked :: !linked[d]
      {
        linked := linked[whole[i] := false];
      }
      for i := 0 to |half|
        invariant forall d :: d in linked <==> d in whole || d in half[..i]
        invariant forall d | d in linked :: linked[d] <==> d in half[..i]
      {
        linked := linked[half[i] := true];
      }
    }

    method CheckSpans(day: string, spans: seq<Span>) returns (r: Option<Refusal>)
      ensures r.None? <==> forall s | s in spans :: Forward(s)
      ensures r.Some? ==> exists s :: s in spans && Faulty(day, s, r.value)
    {
      for i := 0 to |spans|
        invariant forall s | s in spans[..i] :: Forward(s)
      {
        var from := MinuteOf(spans[i].from);
        if from.None? {
          assert !Forward(spans[i]);
          return Some(NotATime(spans[i].from));
        }
        var to := MinuteOf(spans[i].to);
        if to.None? {
          assert !Forward(spans[i]);
          return Some(NotATime(spans[i].to));
        }
        if to.value <= from.value {
          assert !Forward(spans[i]);
          return Some(EndsBeforeItStarts(day, spans[i]));
        }
        assert spans[..i + 1] == spans[..i] + [spans[i]];
      }
      assert spans[..|spans|] == spans;
      return None;
    }

    /** What is said against a span: a time of it that cannot be read, or that it does not end after it starts. */
    ghost predicate Faulty(day: string, s: Span, r: Refusal) {
      match r
      case NotATime(text) => text in {s.from, s.to} && MinuteOf(text).None?
      case EndsBeforeItStarts(d, span) =>
        && d == day && span == s && MinuteOf(s.from).Some? && MinuteOf(s.to).Some?
        && MinuteOf(s.to).value <= MinuteOf(s.from).value
      case _ => false
    }

    ghost predicate GoodHours(keys: set<string>)
      reads this
    {
      forall day | day in keys :: day in WEEKDAYS && day in hours && forall s | s in hours[day] :: Forward(s)
    }

    ghost predicate GoodDays(n: nat)
      reads this
    {
      forall i | 0 <= i < n && i < |holidays| :: Dates.ParseDay(holidays[i]).Some?
    }

    /** Passes exactly the calendars whose every span, weekday and day off can be read, in whatever
        order the map of hours gives its days; a passed calendar is sane. */
    method Check() returns (r: Option<Refusal>)
      modifies this`timezone, this`loc
      ensures timezone == if old(timezone) == "" then "UTC" else old(timezone)
      ensures loc == if Zone(timezone).Some? then Zone(timezone) else old(loc)
      ensures r.None? <==> Zone(timezone).Some? && GoodHours(hours.Keys) && GoodDays(|holidays|)
      ensures r.None? ==> Sane(View())
      ensures r.None? <==>
        && (timezone == "UTC" || timezone in zones)
        && (forall day | day in hours :: day in {"mon", "tue", "wed", "thu", "fri", "sat", "sun"})
        && (forall day, s | day in hours && s in hours[day] ::
              && MinuteOf(s.from).Some? && MinuteOf(s.to).Some?
              && MinuteOf(s.from).value < MinuteOf(s.to).value)
        && (forall day | day in holidays :: Dates.ParseDay(day).Some?)
      ensures match r
        case None => true
        case Some(NotAZone(name)) => name == timezone && name != "UTC" && name !in zones
        case Some(NotAWeekday(day)) => day in hours && day !in {"mon", "tue", "wed", "thu", "fri", "sat", "sun"}
        case Some(NotADay(text)) => text in holidays && Dates.ParseDay(text).None? && GoodHours(hours.Keys)
        case Some(other) => exists day, s :: day in hours && s in hours[day] && Faulty(day, s, other)
    {
      hide MinuteOf, Dates.ParseDay;
      WeekdaysAre();
      if timezone == "" {
        timezone := "UTC";
      }
      if Zone(timezone).None? {
        return Some(NotAZone(timezone));
      }
      loc := Zone(timezone);
      var left := hours.Keys;
      while left != {}
        invariant left <= hours.Keys
        invariant GoodHours(hours.Keys - left)
        modifies {}
        decreases left
      {
        var day :| day in left;
        if day !in WEEKDAYS {
          assert !GoodHours(hours.Keys);
          return Some(NotAWeekday(day));
        }
        r := CheckSpans(day, hours[day]);
        if r.Some? {
          ghost var s :| s in hours[day] && Faulty(day, s, r.value);
          assert day in hours.Keys && !Forward(s);
          return;
        }
        left := left - {day};
      }
      assert hours.Keys - left == hours.Keys;
      for i := 0 to |holidays|
        invariant GoodDays(i)
        modifies {}
      {
        if Dates.ParseDay(holidays[i]).None? {
          assert !GoodDays(|holidays|);
          return Some(NotADay(holidays[i]));
        }
      }
      r := None;
    }

    ghost predicate NoClash(days: seq<string>)
      reads this
    {
      forall day | day in days && day in hours :: !Clash(hours[day])
    }

    /** Passes exactly the calendars that Check passes and that have no minute open because of two spans
        of one weekday. */
    method Validate() returns (r: Option<Refusal>)
      modifies this`timezone, this`loc
      ensures r.None? <==>
        && Zone(old(timezone)).Some?
        && GoodHours(hours.Keys) && GoodDays(|holidays|)
        && NoClash(WEEKDAYS)
      ensures r.None? ==> Sane(View())
      ensures r.Some? && r.value.Overlaps? ==>
        r.value.day in hours && r.value.span in hours[r.value.day] && r.value.held in hours[r.value.day]
        && Overlap(r.value.span, r.value.held)
    {
      hide Clash, Forward;
      r := Check();
      if r.Some? {
        return;
      }
      for i := 0 to |WEEKDAYS|
        invariant NoClash(WEEKDAYS[..i])
      {
        var day := WEEKDAYS[i];
        var spans := if day in hours then hours[day] else [];
        var clash := NoOverlaps(spans);
        if clash.Some? {
          assert !NoClash(WEEKDAYS);
          return Some(Overlaps(day, clash.value.0, clash.value.1));
        }
        assert WEEKDAYS[..i + 1] == WEEKDAYS[..i] + [day];
      }
      assert WEEKDAYS[..|WEEKDAYS|] == WEEKDAYS;
    }

    /** Looks the zone up once; one that is not known reads as UTC. */
    method Location() returns (offset: int)
      modifies this`loc
      ensures offset == old(Offset()) && loc == Some(offset)
      ensures View() == old(View())
      ensures offset == if old(loc).Some? then old(loc).value
        else if timezone != "" && timezone != "UTC" && timezone in zones then zones[timezone] else 0
    {
      if loc.None? {
        loc := if Zone(timezone).Some? then Zone(timezone) else Some(0);
      }
      offset := loc.value;
    }

    /** Agrees with the desk's Closed and HalfDay: an own day off outweighs whatever is linked. */
    method ClosedOn(day: int) returns (closed: bool, halfDay: bool)
      ensures closed <==> Closed(View(), day)
      ensures !closed ==> (halfDay <==> HalfDay(View(), day))
      ensures var key := Dates.DayText(Dates.FromDay(day));
        && (closed <==> key in holidays || (key in linked && !linked[key]))
        && (halfDay <==> key !in holidays && key in linked && linked[key])
    {
      var key := DayKey(day);
      for i := 0 to |holidays|
        invariant key !in holidays[..i]
      {
        if holidays[i] == key {
          return true, false;
        }
      }
      halfDay := key in linked && linked[key];
      closed := key in linked && !halfDay;
    }

    /** The day's hours as instants: sorted, with a gap between each two, and open exactly
        where some saved span is, however the spans were saved. */
    method MergedSpans(day: int) returns (out: seq<OpenSpan>)
      requires Sane(View())
      modifies this`loc
      ensures View() == old(View())
      ensures Separated(out) && Inside(out, DayStart(View(), day), DayStart(View(), day) + DAY)
      ensures Cover(out) == Saved(DayStart(View(), day), SpansOf(View(), day))
    {
      hide DayKey, MinuteOf, Merged, InOrder;
      ghost var k := View();
      var key := WeekdayKey(day);
      var saved := if key in hours then hours[key] else [];
      var sorted := SortedSpans(saved);
      SortedSpansMembers(saved);
      ghost var dayStart := DayStart(k, day);
      out := [];
      MergedStart(dayStart, sorted);
      for i := 0 to |sorted|
        invariant View() == k
        invariant Merged(out, dayStart, sorted, i)
      {
        var s := sorted[i];
        var from, to := MinuteOf(s.from), MinuteOf(s.to);
        if from.Some? && to.Some? {
          assert s in saved && Forward(s);
          var offset := Location();
          var start, end := Days(day) - offset + Minutes(from.value), Days(day) - offset + Minutes(to.value);
          assert OpenSpan(start, end) == DaySpan(dayStart, s);
          MergedStep(out, dayStart, sorted, i);
          ghost var was := out;
          var n := |out|;
          if n > 0 && start <= out[n - 1].to {
            if out[n - 1].to < end {
              out := out[n - 1 := OpenSpan(out[n - 1].from, end)];
            }
          } else {
            out := out + [OpenSpan(start, end)];
          }
          assert out == MergeIn(was, DaySpan(dayStart, s));
        } else {
          MergedSkip(out, dayStart, sorted, i);
        }
      }
      MergedDone(out, dayStart, saved);
    }

    /** Keeps, of ordered spans, exactly the instants with fewer than half of the ticks before them, rounded down. */
    method FirstHalf(spans: seq<OpenSpan>, ghost a: int, ghost b: int) returns (out: seq<OpenSpan>)
      requires Ordered(spans) && Inside(spans, a, b)
      ensures Ordered(out) && Inside(out, a, b)
      ensures Total(out) == Total(spans) / 2
      ensures Cover(out) == FirstPart(Cover(spans), a, Ticks(Cover(spans), a, b) / 2)
    {
      hide TakeTicks, FirstPart, Cover, Instants.Ticks, Ordered, Inside, Total;
      TotalIsTicks(spans, a, b);
      NoTicksTaken(spans, 0, a, b);
      var open := 0;
      for i := 0 to |spans|
        invariant open == Total(spans[..i])
      {
        TotalNext(spans, i);
        open := open + (spans[i].to - spans[i].from);
      }
      assert spans[..|spans|] == spans;
      var left := open / 2;
      ghost var half := left;
      out := [];
      for i := 0 to |spans|
        invariant out + TakeTicks(spans[i..], left) == TakeTicks(spans, half)
      {
        TakeTicksFrom(spans, i, left);
        if left <= 0 {
          break;
        }
        var s := spans[i];
        if s.to - s.from > left {
          s := s.(to := s.from + left);
        }
        left := left - (s.to - s.from);
        out := out + [s];
        TakeTicksFrom(spans, i + 1, left);
      }
      TakeTicksFrom(spans, |spans|, left);
      assert out == TakeTicks(spans, half);
      TakeTicksShape(spans, half, a, b);
      TakeTicksIsFirstPart(spans, half, a, b);
    }

    /** Ordered spans that cover just the instants at which the desk is open on that day. */
    method OpenSpans(day: int) returns (out: seq<OpenSpan>)
      requires Sane(View())
      modifies this`loc
      ensures View() == old(View())
      ensures DaySpans(View(), day, out)
    {
      hide DayKey, MinuteOf, Sane;
      var closed, halfDay := ClosedOn(day);
      if closed {
        return [];
      }
      out := MergedSpans(day);
      if halfDay {
        out := FirstHalf(out, DayStart(View(), day), DayStart(View(), day) + DAY);
      }
    }

    /** Counts the open instants from a up to b; none when b is not after a. */
    method WorkingDuration(a: int, b: int) returns (total: int)
      requires Sane(View())
      modifies this`loc
      ensures View() == old(View())
      ensures total == WorkingTime(View(), a, b)
      ensures b <= a ==> total == 0
    {
      hide DayKey, OpenOn, DaySpans, Cover, Open, WorkingTime, Instants.Ticks, Sane;
      ghost var k := View();
      if b <= a {
        NothingYet(k, a, b);
        return 0;
      }
      var offset := Location();
      var day := (a + offset) / 86_400_000_000_000;
      FirstDay(k, a);
      total := 0;
      while Days(day) - offset < b
        invariant View() == k && offset == k.offset
        invariant DayOf(k, a) <= day
        invariant total == WorkingTime(k, a, Min(DayStart(k, day), b))
        decreases b + DAY - DayStart(k, day)
      {
        var spans := OpenSpans(day);
        ghost var before := total;
        NoSpansYet(spans, a, b);
        for i := 0 to |spans|
          invariant total == before + Ticks(Cover(spans[..i]), a, b)
          modifies {}
        {
          var from, to := Max(spans[i].from, a), Min(spans[i].to, b);
          DayNextSpan(k, day, spans, i, a, b);
          if from < to {
            total := total + (to - from);
          }
        }
        DayDone(k, day, spans, a, b);
        day := day + 1;
      }
    }

    /** Answers with the first instant that meets the goal when the 366 days hold enough, and a year on otherwise. */
    method AddWorking(start: int, goal: int) returns (r: int)
      requires Sane(View())
      modifies this`loc
      ensures View() == old(View())
      ensures Answers(View(), start, goal, r)
    {
      hide DayKey, OpenOn, DaySpans, Cover, Open, WorkingTime, Instants.Ticks, Sane;
      ghost var k := View();
      var offset := Location();
      var at, d := start, goal;
      if d <= 0 {
        return at;
      }
      FirstDay(k, at);
      for i := 0 to 366
        invariant View() == k && offset == k.offset
        invariant 0 < d == goal - WorkingTime(k, at, DayStart(k, DayOf(k, at) + i))
      {
        var day := (at + offset) / 86_400_000_000_000 + i;
        var spans := OpenSpans(day);
        ghost var before, dayEnd := d, DayStart(k, day) + DAY;
        NoSpansYet(spans, at, dayEnd);
        for j := 0 to |spans|
          invariant 0 < d == before - Ticks(Cover(spans[..j]), at, dayEnd)
          modifies {}
        {
          var from, to := Max(spans[j].from, at), spans[j].to;
          DayNextSpan(k, day, spans, j, at, dayEnd);
          if to <= from {
            continue;
          }
          var open := to - from;
          if open >= d {
            ReachedInside(k, day, spans, j, at, from + d);
            ReachedOpen(k, day, spans, j, at, from + d);
            DeadlineReached(k, at, goal, from + d);
            WorkingTimeAdds(k, at, from + d, Horizon(k, at));
            return from + d;
          } else {
            d := d - open;
          }
        }
        DayDone(k, day, spans, at, dayEnd);
      }
      var day := (at + offset) / 86_400_000_000_000;
      var later := Dates.ToDay(Dates.YearLater(Dates.FromDay(day)));
      return Days(later) - offset + (at - (Days(day) - offset));
    }
  }
}
