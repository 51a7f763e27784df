/** A desk's saved hours: the spans of a weekday as text, in the order a day runs, and
    the instants a particular day holds because of them. */
module WeeklyHours {
  import opened Wrappers
  import opened Instants
  import Dates

  // Instants and durations are whole nanoseconds, as Go's time.Duration counts them.
  const DAY := 86_400_000_000_000

  function Minutes(n: int): int {
    n * 60_000_000_000
  }

  function Days(n: int): int {
    n * 86_400_000_000_000
  }

  /** One open stretch of a weekday, written as HH:MM. */
  datatype Span = Span(from: string, to: string)

  const WEEKDAYS: seq<string> := ["mon", "tue", "wed", "thu", "fri", "sat", "sun"]

  /** The key of a day's weekday; day 0, 1 January 1970, was a Thursday. */
  function WeekdayKey(n: int): (key: string)
    ensures key in WEEKDAYS
  {
    WEEKDAYS[(n + 3) % 7]
  }

  /** A time of day in minutes: an hour of one or two digits, a colon, two digits of minute. */
  function MinuteOf(s: string): (r: Option<nat>)
    ensures r.Some? ==> r.value < 1440
  {
    if |s| == 5 && Digits(s[0], s[1]) && s[2] == ':' && Digits(s[3], s[4]) then
      Clock(Number(s[0], s[1]), Number(s[3], s[4]))
    else if |s| == 4 && Digits('0', s[0]) && s[1] == ':' && Digits(s[2], s[3]) then
      Clock(Number('0', s[0]), Number(s[2], s[3]))
    else None
  }

  predicate Digits(c: char, d: char) {
    Dates.IsDigit(c) && Dates.IsDigit(d)
  }

  function Number(c: char, d: char): nat
    requires Digits(c, d)
  {
    10 * Dates.DigitValue(c) + Dates.DigitValue(d)
  }

  function Clock(hour: nat, minute: nat): Option<nat> {
    if hour < 24 && minute < 60 then Some(60 * hour + minute) else None
  }

  /** Which weekday a day is, by its number alone; 1 January 1970, day 0, was a Thursday. */
  lemma WeekdayIs(n: int)
    ensures WeekdayKey(n) == ["thu", "fri", "sat", "sun", "mon", "tue", "wed"][n % 7]
  {
    assert (n + 3) % 7 == if n % 7 < 4 then n % 7 + 3 else n % 7 - 4;
  }

  lemma WeekdaysAre()
    ensures forall key :: key in WEEKDAYS <==> key in {"mon", "tue", "wed", "thu", "fri", "sat", "sun"}
  {
  }

  /** Every time of day is read, written with two digits of hour or, before ten, with one. */
  lemma MinuteRead(hour: int, minute: int)
    requires 0 <= hour < 24 && 0 <= minute < 60
    ensures MinuteOf(Dates.Two(hour) + ":" + Dates.Two(minute)) == Some(60 * hour + minute)
    ensures hour < 10 ==> MinuteOf([Dates.Digit(hour)] + ":" + Dates.Two(minute)) == Some(60 * hour + minute)
  {
    hide Dates.Digit;
    TwoRead(hour);
    TwoRead(minute);
    var s := Dates.Two(hour) + ":" + Dates.Two(minute);
    assert s[0] == Dates.Two(hour)[0] && s[1] == Dates.Two(hour)[1] && s[2] == ':';
    assert s[3] == Dates.Two(minute)[0] && s[4] == Dates.Two(minute)[1];
    if hour < 10 {
      var u := [Dates.Digit(hour)] + ":" + Dates.Two(minute);
      assert u[0] == Dates.Digit(hour) && u[1] == ':';
      assert u[2] == Dates.Two(minute)[0] && u[3] == Dates.Two(minute)[1];
    }
  }

  lemma TwoRead(n: int)
    requires 0 <= n < 100
    ensures var t := Dates.Two(n); |t| == 2 && Digits(t[0], t[1]) && Number(t[0], t[1]) == n
  {
    assert Dates.Two(n)[0] == Dates.Digit(n / 10) && Dates.Two(n)[1] == Dates.Digit(n % 10);
  }

  /** And nothing else is. */
  lemma MinuteOnly(s: string) returns (hour: nat, minute: nat)
    requires MinuteOf(s).Some?
    ensures hour < 24 && minute < 60 && MinuteOf(s) == Some(60 * hour + minute)
    ensures s == Dates.Two(hour) + ":" + Dates.Two(minute)
      || (hour < 10 && s == [Dates.Digit(hour)] + ":" + Dates.Two(minute))
  {
    if |s| == 5 {
      hour, minute := Dates.TwoValue(s[..2]), Dates.TwoValue(s[3..]);
      assert s == s[..2] + ":" + s[3..];
    } else {
      hour, minute := Dates.DigitValue(s[0]), Dates.TwoValue(s[2..]);
      assert s == [s[0]] + ":" + s[2..];
    }
  }

  predicate Readable(s: Span) {
    MinuteOf(s.from).Some? && MinuteOf(s.to).Some?
  }

  /** A readable span that ends after it starts. */
  predicate Forward(s: Span) {
    Readable(s) && MinuteOf(s.from).value < MinuteOf(s.to).value
  }

  /** What sorting compares: an unreadable start counts as midnight. */
  function StartKey(s: Span): nat {
    match MinuteOf(s.from)
    case None => 0
    case Some(m) => m
  }

  // ---- The order a day runs ----

  function Insert(s: Span, sorted: seq<Span>): seq<Span> {
    if sorted == [] || StartKey(s) <= StartKey(sorted[0]) then [s] + sorted
    else [sorted[0]] + Insert(s, sorted[1..])
  }

  /** The stable sort by start. */
  function SortedSpans(spans: seq<Span>): seq<Span> {
    if spans == [] then [] else Insert(spans[0], SortedSpans(spans[1..]))
  }

  ghost predicate InOrder(spans: seq<Span>) {
    forall i, j | 0 <= i < j < |spans| :: StartKey(spans[i]) <= StartKey(spans[j])
  }

  ghost function WithKey(spans: seq<Span>, key: nat): seq<Span> {
    if spans == [] then []
    else (if StartKey(spans[0]) == key then [spans[0]] else []) + WithKey(spans[1..], key)
  }

  lemma {:induction false} InsertMultiset(s: Span, sorted: seq<Span>)
    ensures multiset(Insert(s, sorted)) == multiset{s} + multiset(sorted)
  {
    if sorted != [] && StartKey(s) > StartKey(sorted[0]) {
      InsertMultiset(s, sorted[1..]);
      assert sorted == [sorted[0]] + sorted[1..];
    }
  }

  lemma {:induction false} InsertInOrder(s: Span, sorted: seq<Span>)
    requires InOrder(sorted)
    ensures InOrder(Insert(s, sorted))
  {
    if sorted != [] && StartKey(s) > StartKey(sorted[0]) {
      hide MinuteOf;
      var x, r := sorted[0], Insert(s, sorted[1..]);
      InsertInOrder(s, sorted[1..]);
      InsertMultiset(s, sorted[1..]);
      forall y | y in r
        ensures StartKey(x) <= StartKey(y)
      {
        assert y in multiset(r);
        assert y == s || y in sorted[1..];
      }
    }
  }

  lemma WithKeyFirst(x: Span, rest: seq<Span>, key: nat)
    ensures WithKey([x] + rest, key) == (if StartKey(x) == key then [x] else []) + WithKey(rest, key)
  {
    assert ([x] + rest)[1..] == rest;
  }

  lemma {:induction false} InsertStable(s: Span, sorted: seq<Span>, key: nat)
    ensures WithKey(Insert(s, sorted), key) == WithKey([s] + sorted, key)
  {
    if sorted != [] && StartKey(s) > StartKey(sorted[0]) {
      var x, rest := sorted[0], sorted[1..];
      InsertStable(s, rest, key);
      WithKeyFirst(x, Insert(s, rest), key);
      WithKeyFirst(s, rest, key);
      WithKeyFirst(s, sorted, key);
    }
  }

  /** Sorting puts a day in order and loses and gains no span. */
  lemma {:induction false} SortedSpansSorts(spans: seq<Span>)
    ensures InOrder(SortedSpans(spans)) && multiset(SortedSpans(spans)) == multiset(spans)
  {
    if spans != [] {
      SortedSpansSorts(spans[1..]);
      InsertInOrder(spans[0], SortedSpans(spans[1..]));
      InsertMultiset(spans[0], SortedSpans(spans[1..]));
      assert spans == [spans[0]] + spans[1..];
    }
  }

  /** Sorting keeps the saved order of spans that start together. */
  lemma {:induction false} SortedSpansStable(spans: seq<Span>, key: nat)
    ensures WithKey(SortedSpans(spans), key) == WithKey(spans, key)
  {
    if spans != [] {
      SortedSpansStable(spans[1..], key);
      InsertStable(spans[0], SortedSpans(spans[1..]), key);
      WithKeyFirst(spans[0], SortedSpans(spans[1..]), key);
    }
  }

  lemma SortedSpansMembers(spans: seq<Span>)
    ensures |SortedSpans(spans)| == |spans|
    ensures InOrder(SortedSpans(spans))
    ensures forall s :: s in SortedSpans(spans) <==> s in spans
  {
    SortedSpansSorts(spans);
    assert |multiset(SortedSpans(spans))| == |multiset(spans)|;
    forall s
      ensures s in SortedSpans(spans) <==> s in spans
    {
      assert s in multiset(spans) <==> s in multiset(SortedSpans(spans));
    }
  }

  // ---- Overlaps ----

  predicate HoldsMinute(s: Span, m: int) {
    Readable(s) && MinuteOf(s.from).value <= m < MinuteOf(s.to).value
  }

  /** Two spans of a day overlap when some minute is open because of both. */
  ghost predicate Overlap(a: Span, b: Span) {
    exists m :: HoldsMinute(a, m) && HoldsMinute(b, m)
  }

  lemma OverlapByEnds(a: Span, b: Span)
    requires Forward(a) && Forward(b)
    ensures Overlap(a, b) <==>
      && MinuteOf(a.from).value < MinuteOf(b.to).value
      && MinuteOf(b.from).value < MinuteOf(a.to).value
  {
    var m := Max(MinuteOf(a.from).value, MinuteOf(b.from).value);
    if MinuteOf(a.from).value < MinuteOf(b.to).value && MinuteOf(b.from).value < MinuteOf(a.to).value {
      assert HoldsMinute(a, m) && HoldsMinute(b, m);
    }
  }

  ghost predicate ClashesWith(s: Span, spans: seq<Span>) {
    exists x | x in spans :: Overlap(s, x)
  }

  /** Some two spans of the list, at different places in it, overlap. */
  ghost predicate Clash(spans: seq<Span>) {
    spans != [] && (ClashesWith(spans[0], spans[1..]) || Clash(spans[1..]))
  }

  lemma {:induction false} ClashAt(spans: seq<Span>, i: nat, j: nat)
    requires i < j < |spans| && Overlap(spans[i], spans[j])
    ensures Clash(spans)
  {
    if i == 0 {
      assert spans[1..][j - 1] == spans[j];
    } else {
      ClashAt(spans[1..], i - 1, j - 1);
    }
  }

  lemma {:induction false} ClashPlaces(spans: seq<Span>) returns (i: nat, j: nat)
    requires Clash(spans)
    ensures i < j < |spans| && Overlap(spans[i], spans[j])
  {
    if ClashesWith(spans[0], spans[1..]) {
      var x :| x in spans[1..] && Overlap(spans[0], x);
      i := 0;
      j :| 1 <= j < |spans| && spans[j] == x;
    } else {
      var i', j' := ClashPlaces(spans[1..]);
      assert spans[1..][i'] == spans[i' + 1] && spans[1..][j'] == spans[j' + 1];
      i, j := i' + 1, j' + 1;
    }
  }

  /** Spans clash exactly when two of them, at different places, hold one minute. */
  lemma ClashIs(spans: seq<Span>)
    ensures Clash(spans) <==> exists i, j, m :: 0 <= i < j < |spans| && Shared(spans[i], spans[j], m)
  {
    if Clash(spans) {
      var i, j := ClashPlaces(spans);
      var m :| HoldsMinute(spans[i], m) && HoldsMinute(spans[j], m);
      assert Shared(spans[i], spans[j], m);
    }
    if i, j, m :| 0 <= i < j < |spans| && Shared(spans[i], spans[j], m) {
      assert HoldsMinute(spans[i], m) && HoldsMinute(spans[j], m);
      ClashAt(spans, i, j);
    }
  }

  /** Both spans can be read, and run from no later than a minute to past it. */
  predicate Shared(a: Span, b: Span, m: int) {
    && MinuteOf(a.from).Some? && MinuteOf(a.to).Some? && MinuteOf(a.from).value <= m < MinuteOf(a.to).value
    && MinuteOf(b.from).Some? && MinuteOf(b.to).Some? && MinuteOf(b.from).value <= m < MinuteOf(b.to).value
  }

  lemma {:induction false} ClashInsert(s: Span, sorted: seq<Span>)
    ensures Clash(Insert(s, sorted)) <==> ClashesWith(s, sorted) || Clash(sorted)
  {
    assert ([s] + sorted)[1..] == sorted;
    if sorted != [] && StartKey(s) > StartKey(sorted[0]) {
      var x, rest := sorted[0], sorted[1..];
      var r := Insert(s, rest);
      ClashInsert(s, rest);
      assert ([x] + r)[1..] == r;
      assert ClashesWith(x, r) <==> Overlap(x, s) || ClashesWith(x, rest) by {
        InsertMembers(s, rest);
      }
      assert ClashesWith(s, sorted) <==> Overlap(s, x) || ClashesWith(s, rest);
    }
  }

  lemma InsertMembers(s: Span, sorted: seq<Span>)
    ensures forall y :: y in Insert(s, sorted) <==> y == s || y in sorted
  {
    InsertMultiset(s, sorted);
    assert forall y :: y in Insert(s, sorted) <==> y in multiset(Insert(s, sorted));
  }

  /** Sorting a day's spans neither makes nor hides an overlap. */
  lemma {:induction false} ClashSorted(spans: seq<Span>)
    ensures Clash(SortedSpans(spans)) <==> Clash(spans)
  {
    if spans != [] {
      var s, rest := spans[0], spans[1..];
      ClashSorted(rest);
      SortedSpansMembers(rest);
      ClashInsert(s, SortedSpans(rest));
      assert ClashesWith(s, SortedSpans(rest)) <==> ClashesWith(s, rest);
    }
  }

  /** What the first `n` spans in order leave behind: no overlap, and the latest end with a span that has it. */
  ghost predicate Settled(sorted: seq<Span>, n: nat, held: Span, heldTo: int)
    requires n <= |sorted|
  {
    && (forall s | s in sorted[..n] :: Forward(s) && MinuteOf(s.to).value <= heldTo)
    && !Clash(sorted[..n])
    && (if n == 0 then heldTo == -1 else held in sorted[..n] && MinuteOf(held.to).value == heldTo)
  }

  lemma {:induction false} ClashAppend(spans: seq<Span>, s: Span)
    requires Clash(spans + [s])
    ensures Clash(spans) || exists x | x in spans :: Overlap(x, s)
  {
    var i, j := ClashPlaces(spans + [s]);
    if j < |spans| {
      ClashAt(spans, i, j);
    } else {
      assert spans[i] in spans;
    }
  }

  lemma SettledStep(sorted: seq<Span>, n: nat, held: Span, heldTo: int)
    requires n < |sorted| && Settled(sorted, n, held, heldTo) && Forward(sorted[n])
    requires heldTo <= MinuteOf(sorted[n].from).value
    ensures MinuteOf(sorted[n].to).value > heldTo
    ensures Settled(sorted, n + 1, sorted[n], MinuteOf(sorted[n].to).value)
  {
    var s := sorted[n];
    assert sorted[..n + 1] == sorted[..n] + [s];
    forall x | x in sorted[..n]
      ensures !Overlap(x, s)
    {
      OverlapByEnds(x, s);
    }
    if Clash(sorted[..n] + [s]) {
      ClashAppend(sorted[..n], s);
    }
  }

  lemma {:induction false} ClashPrefix(spans: seq<Span>, n: nat)
    requires n < |spans| && exists x | x in spans[..n] :: Overlap(x, spans[n])
    ensures Clash(spans)
  {
    var x :| x in spans[..n] && Overlap(x, spans[n]);
    var i :| 0 <= i < n && spans[i] == x;
    ClashAt(spans, i, n);
  }

  /** Finds an overlap exactly when some two spans share a minute, and then answers with two that do. */
  method NoOverlaps(spans: seq<Span>) returns (r: Option<(Span, Span)>)
    requires forall s | s in spans :: Forward(s)
    ensures r.None? <==> !Clash(spans)
    ensures r.Some? ==> r.value.0 in spans && r.value.1 in spans && Overlap(r.value.0, r.value.1)
  {
    var sorted := SortedSpans(spans);
    SortedSpansMembers(spans);
    ClashSorted(spans);
    var held := Span("", "");
    var heldTo: int := -1;
    for n := 0 to |sorted|
      invariant Settled(sorted, n, held, heldTo)
    {
      var s := sorted[n];
      assert s in sorted && Forward(s);
      var from, to := MinuteOf(s.from).value, MinuteOf(s.to).value;
      if from < heldTo {
        HeldOverlaps(sorted, n, held, heldTo);
        return Some((s, held));
      }
      SettledStep(sorted, n, held, heldTo);
      if to > heldTo {
        held, heldTo := s, to;
      }
    }
    assert sorted[..|sorted|] == sorted;
    return None;
  }

  lemma HeldOverlaps(sorted: seq<Span>, n: nat, held: Span, heldTo: int)
    requires n < |sorted| && InOrder(sorted) && Settled(sorted, n, held, heldTo) && Forward(sorted[n])
    requires MinuteOf(sorted[n].from).value < heldTo
    ensures held in sorted && Overlap(sorted[n], held) && Clash(sorted)
  {
    var i :| 0 <= i < n && sorted[i] == held;
    assert StartKey(held) <= StartKey(sorted[n]);
    OverlapByEnds(sorted[n], held);
    assert Overlap(held, sorted[n]);
    ClashPrefix(sorted, n);
  }
}
