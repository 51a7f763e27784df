/** Sets of instants, how many of their ticks fall in a stretch of time, and
    sequences of half-open spans as sets of instants. */
module Instants {

  /** A half-open stretch of instants: `from` is in it and `to` is not. */
  datatype OpenSpan = OpenSpan(from: int, to: int)

  predicate Holds(x: int, y: int, t: int) {
    x <= t < y
  }

  ghost function Between(x: int, y: int): iset<int> {
    iset t: int | Holds(x, y, t)
  }

  /** How many ticks of `s` lie in [a, b). */
  ghost function Ticks(s: iset<int>, a: int, b: int): nat
    decreases b - a
  {
    if b <= a then 0 else Ticks(s, a, b - 1) + if b - 1 in s then 1 else 0
  }

  lemma {:induction false} TicksSplit(s: iset<int>, a: int, m: int, b: int)
    requires a <= m <= b
    ensures Ticks(s, a, b) == Ticks(s, a, m) + Ticks(s, m, b)
    decreases b - m
  {
    if m < b {
      TicksSplit(s, a, m, b - 1);
    }
  }

  lemma {:induction false} TicksSubset(s: iset<int>, u: iset<int>, a: int, b: int)
    requires forall t | a <= t < b && t in s :: t in u
    ensures Ticks(s, a, b) <= Ticks(u, a, b)
    decreases b - a
  {
    if a < b {
      TicksSubset(s, u, a, b - 1);
    }
  }

  /** A set that lacks a tick of another counts fewer. */
  lemma TicksFewer(s: iset<int>, u: iset<int>, a: int, x: int, b: int)
    requires a <= x < b && x !in s && x in u && forall t | a <= t < b && t in s :: t in u
    ensures Ticks(s, a, b) < Ticks(u, a, b)
  {
    TicksSplit(s, a, x + 1, b);
    TicksSplit(u, a, x + 1, b);
    TicksSubset(s, u, a, x);
    TicksSubset(s, u, x + 1, b);
  }

  lemma TicksSame(s: iset<int>, u: iset<int>, a: int, b: int)
    requires forall t | a <= t < b :: t in s <==> t in u
    ensures Ticks(s, a, b) == Ticks(u, a, b)
  {
    TicksSubset(s, u, a, b);
    TicksSubset(u, s, a, b);
  }

  lemma TicksNone(s: iset<int>, a: int, b: int)
    requires forall t | a <= t < b :: t !in s
    ensures Ticks(s, a, b) == 0
  {
    TicksSame(s, iset{}, a, b);
    TicksEmpty(a, b);
  }

  lemma {:induction false} TicksEmpty(a: int, b: int)
    ensures Ticks(iset{}, a, b) == 0
    decreases b - a
  {
    if a < b {
      TicksEmpty(a, b - 1);
    }
  }

  lemma {:induction false} TicksUnion(s: iset<int>, u: iset<int>, a: int, b: int)
    requires forall t | a <= t < b && t in s :: t !in u
    ensures Ticks(s + u, a, b) == Ticks(s, a, b) + Ticks(u, a, b)
    decreases b - a
  {
    if a < b {
      TicksUnion(s, u, a, b - 1);
    }
  }

  lemma {:induction false} TicksBounded(s: iset<int>, a: int, b: int)
    requires a <= b
    ensures Ticks(s, a, b) <= b - a
    decreases b - a
  {
    if a < b {
      TicksBounded(s, a, b - 1);
    }
  }

  lemma {:induction false} TicksFull(s: iset<int>, a: int, b: int)
    requires a <= b
    requires forall t | a <= t < b :: t in s
    ensures Ticks(s, a, b) == b - a
    decreases b - a
  {
    if a < b {
      TicksFull(s, a, b - 1);
    }
  }

  function Max(x: int, y: int): int { if x < y then y else x }

  function Min(x: int, y: int): int { if x < y then x else y }

  /** The length of the part of a span that lies in [a, b). */
  function Clip(s: OpenSpan, a: int, b: int): nat {
    Max(0, Min(s.to, b) - Max(s.from, a))
  }

  lemma TicksBetween(s: OpenSpan, a: int, b: int)
    ensures Ticks(Between(s.from, s.to), a, b) == Clip(s, a, b)
  {
    var set' := Between(s.from, s.to);
    var x, y := Max(s.from, a), Min(s.to, b);
    if x < y {
      TicksSplit(set', a, x, b);
      TicksSplit(set', x, y, b);
      TicksNone(set', a, x);
      TicksFull(set', x, y);
      TicksNone(set', y, b);
    } else {
      TicksNone(set', a, b);
    }
  }

  /** The instants inside any of the spans. */
  ghost function Cover(spans: seq<OpenSpan>): iset<int> {
    if spans == [] then iset{} else Between(spans[0].from, spans[0].to) + Cover(spans[1..])
  }

  lemma {:induction false} InCover(spans: seq<OpenSpan>, t: int)
    ensures t in Cover(spans) <==> exists i :: 0 <= i < |spans| && spans[i].from <= t < spans[i].to
  {
    if spans != [] {
      InCover(spans[1..], t);
      if t in Cover(spans[1..]) {
        var i :| 0 <= i < |spans[1..]| && spans[1..][i].from <= t < spans[1..][i].to;
        assert spans[i + 1] == spans[1..][i];
      }
      forall i | 0 <= i < |spans| && spans[i].from <= t < spans[i].to
        ensures t in Cover(spans)
      {
        if i > 0 {
          assert spans[1..][i - 1] == spans[i];
        }
      }
    }
  }

  lemma {:induction false} CoverAppend(p: seq<OpenSpan>, q: seq<OpenSpan>)
    ensures Cover(p + q) == Cover(p) + Cover(q)
  {
    if p == [] {
      assert p + q == q;
    } else {
      assert (p + q)[1..] == p[1..] + q;
      CoverAppend(p[1..], q);
    }
  }

  lemma CoverSnoc(p: seq<OpenSpan>, s: OpenSpan)
    ensures Cover(p + [s]) == Cover(p) + Between(s.from, s.to)
  {
    CoverAppend(p, [s]);
  }

  /** Spans that hold something and run in order without overlapping; touching is allowed. */
  ghost predicate Ordered(spans: seq<OpenSpan>) {
    && (forall i | 0 <= i < |spans| :: spans[i].from < spans[i].to)
    && (forall i, j | 0 <= i < j < |spans| :: spans[i].to <= spans[j].from)
  }

  /** Ordered spans with a gap between each and the next. */
  ghost predicate Separated(spans: seq<OpenSpan>) {
    && (forall i | 0 <= i < |spans| :: spans[i].from < spans[i].to)
    && (forall i, j | 0 <= i < j < |spans| :: spans[i].to < spans[j].from)
  }

  /** The spans all lie inside [a, b]. */
  ghost predicate Inside(spans: seq<OpenSpan>, a: int, b: int) {
    forall i | 0 <= i < |spans| :: a <= spans[i].from && spans[i].to <= b
  }

  function Total(spans: seq<OpenSpan>): int {
    if spans == [] then 0 else spans[0].to - spans[0].from + Total(spans[1..])
  }

  lemma {:induction false} TotalAppend(p: seq<OpenSpan>, q: seq<OpenSpan>)
    ensures Total(p + q) == Total(p) + Total(q)
  {
    if p == [] {
      assert p + q == q;
    } else {
      assert (p + q)[1..] == p[1..] + q;
      TotalAppend(p[1..], q);
    }
  }

  lemma TotalNext(spans: seq<OpenSpan>, i: nat)
    requires i < |spans|
    ensures Total(spans[..i + 1]) == Total(spans[..i]) + (spans[i].to - spans[i].from)
  {
    assert spans[..i + 1] == spans[..i] + [spans[i]];
    TotalAppend(spans[..i], [spans[i]]);
  }

  /** Counting a set of ordered spans in [a, b) one span at a time. */
  lemma TicksNextSpan(spans: seq<OpenSpan>, i: nat, a: int, b: int)
    requires i < |spans| && Ordered(spans)
    ensures Ticks(Cover(spans[..i + 1]), a, b) == Ticks(Cover(spans[..i]), a, b) + Clip(spans[i], a, b)
  {
    var s := spans[i];
    assert spans[..i + 1] == spans[..i] + [s];
    CoverSnoc(spans[..i], s);
    forall t | t in Cover(spans[..i])
      ensures t !in Between(s.from, s.to)
    {
      InCover(spans[..i], t);
    }
    TicksUnion(Cover(spans[..i]), Between(s.from, s.to), a, b);
    TicksBetween(s, a, b);
  }

  /** The length of ordered spans is the number of ticks they hold. */
  lemma {:induction false} TotalIsTicks(spans: seq<OpenSpan>, a: int, b: int)
    requires Ordered(spans) && Inside(spans, a, b)
    ensures Total(spans) == Ticks(Cover(spans), a, b)
  {
    if spans == [] {
      TicksEmpty(a, b);
    } else {
      var n, s := |spans| - 1, spans[|spans| - 1];
      assert spans == spans[..n] + [s] && spans[..n + 1] == spans;
      TotalAppend(spans[..n], [s]);
      assert Total([s]) == Clip(s, a, b);
      TotalIsTicks(spans[..n], a, b);
      TicksNextSpan(spans, n, a, b);
    }
  }

  /** The ticks of ordered spans up to an instant inside or at the end of the j-th. */
  lemma TicksIntoSpan(spans: seq<OpenSpan>, j: nat, a: int, x: int, b: int)
    requires Ordered(spans) && j < |spans| && x <= b
    requires Max(spans[j].from, a) < x <= spans[j].to
    ensures Ticks(Cover(spans), a, x) == Ticks(Cover(spans[..j]), a, b) + (x - Max(spans[j].from, a))
    ensures x - 1 in Cover(spans)
  {
    TicksNextSpan(spans, j, a, x);
    var rest, done := spans[j + 1..], spans[..j];
    assert spans == spans[..j + 1] + rest;
    CoverAppend(spans[..j + 1], rest);
    forall t | a <= t < x
      ensures t !in Cover(rest)
    {
      InCover(rest, t);
    }
    TicksSame(Cover(spans), Cover(spans[..j + 1]), a, x);
    forall t | x <= t < b
      ensures t !in Cover(done)
    {
      InCover(done, t);
    }
    TicksSplit(Cover(done), a, x, b);
    TicksNone(Cover(done), x, b);
    InCover(spans, x - 1);
  }

  /** The count just past a counted tick is reached there for the first time. */
  lemma FirstReached(s: iset<int>, a: int, x: int, y: int)
    requires a <= y < x && x - 1 in s
    ensures Ticks(s, a, y) < Ticks(s, a, x)
  {
    TicksSplit(s, a, y, x - 1);
  }
}
