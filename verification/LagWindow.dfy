/** A replica's last few lag readings, kept in a ring and judged by their lower median. */
module Lag {

  // ---- Sorting, and how many readings are over a bound ----

  function Insert(x: int, sorted: seq<int>): seq<int> {
    if sorted == [] || x <= sorted[0] then [x] + sorted else [sorted[0]] + Insert(x, sorted[1..])
  }

  function Sorted(s: seq<int>): seq<int> {
    if s == [] then [] else Insert(s[0], Sorted(s[1..]))
  }

  ghost predicate Ascending(s: seq<int>) {
    forall i, j | 0 <= i < j < |s| :: s[i] <= s[j]
  }

  function CountOver(s: seq<int>, bound: int): nat {
    if s == [] then 0 else (if s[0] > bound then 1 else 0) + CountOver(s[1..], bound)
  }

  lemma {:induction false} CountOverLast(s: seq<int>, x: int, bound: int)
    ensures CountOver(s + [x], bound) == CountOver(s, bound) + if x > bound then 1 else 0
  {
    if s != [] {
      assert (s + [x])[1..] == s[1..] + [x];
      CountOverLast(s[1..], x, bound);
    }
  }

  /** How many places of a sequence are over a bound. */
  lemma {:induction false} CountOverIs(s: seq<int>, bound: int)
    ensures CountOver(s, bound) == |set i | 0 <= i < |s| && s[i] > bound|
  {
    var over := set i | 0 <= i < |s| && s[i] > bound;
    if s == [] {
      assert over == {};
    } else {
      var n := |s| - 1;
      var before := set i | 0 <= i < |s[..n]| && s[..n][i] > bound;
      CountOverIs(s[..n], bound);
      assert s == s[..n] + [s[n]];
      CountOverLast(s[..n], s[n], bound);
      assert over == before + if s[n] > bound then {n} else {};
    }
  }

  lemma {:induction false} InsertSorts(x: int, sorted: seq<int>, bound: int)
    requires Ascending(sorted)
    ensures var r := Insert(x, sorted);
      && Ascending(r) && |r| == |sorted| + 1
      && (forall y | y in r :: y == x || y in sorted)
      && CountOver(r, bound) == CountOver(sorted, bound) + if x > bound then 1 else 0
  {
    assert ([x] + sorted)[1..] == sorted;
    if sorted != [] && x > sorted[0] {
      var r := Insert(x, sorted[1..]);
      InsertSorts(x, sorted[1..], bound);
      assert ([sorted[0]] + r)[1..] == r;
      forall y | y in r
        ensures sorted[0] <= y
      {
      }
    }
  }

  lemma {:induction false} SortedSorts(s: seq<int>, bound: int)
    ensures Ascending(Sorted(s)) && |Sorted(s)| == |s|
    ensures CountOver(Sorted(s), bound) == CountOver(s, bound)
  {
    if s != [] {
      SortedSorts(s[1..], bound);
      InsertSorts(s[0], Sorted(s[1..]), bound);
    }
  }

  lemma {:induction false} CountFrom(s: seq<int>, bound: int, m: nat)
    requires Ascending(s) && m < |s|
    ensures if s[m] > bound then CountOver(s, bound) >= |s| - m else CountOver(s, bound) <= |s| - m - 1
  {
    if m > 0 {
      assert s[1..][m - 1] == s[m];
      CountFrom(s[1..], bound, m - 1);
    } else if s[0] > bound {
      assert forall i | 0 <= i < |s| :: s[0] <= s[i];
      CountAll(s, bound);
    } else {
      CountAtMost(s[1..], bound);
    }
  }

  lemma {:induction false} CountAtMost(s: seq<int>, bound: int)
    ensures CountOver(s, bound) <= |s|
  {
    if s != [] {
      CountAtMost(s[1..], bound);
    }
  }

  lemma {:induction false} CountAll(s: seq<int>, bound: int)
    requires forall i | 0 <= i < |s| :: s[i] > bound
    ensures CountOver(s, bound) == |s|
  {
    if s != [] {
      CountAll(s[1..], bound);
    }
  }

  /** The reading that decides: the lower median of a sorted copy. */
  function Median(samples: seq<int>): int
    requires samples != []
  {
    SortedSorts(samples, 0);
    var sorted := Sorted(samples);
    sorted[(|sorted| - 1) / 2]
  }

  /** The lower median is over a bound exactly when more than half of the readings are. */
  lemma MedianOver(samples: seq<int>, bound: int)
    requires samples != []
    ensures Median(samples) > bound <==> 2 * CountOver(samples, bound) > |samples|
  {
    SortedSorts(samples, bound);
    CountFrom(Sorted(samples), bound, (|samples| - 1) / 2);
  }

  lemma MedianOverAny(samples: seq<int>)
    requires samples != []
    ensures forall bound :: Median(samples) > bound <==> 2 * CountOver(samples, bound) > |samples|
  {
    hide Median, CountOver;
    forall bound
      ensures Median(samples) > bound <==> 2 * CountOver(samples, bound) > |samples|
    {
      MedianOver(samples, bound);
    }
  }

  // ---- The ring ----

  class LagWindow {
    var samples: seq<int>
    var next: nat
    const size: nat
    /** Every reading ever added, oldest first. */
    ghost var readings: seq<int>

    ghost predicate Valid()
      reads this
    {
      Ring(samples, next, size, readings)
    }

    ghost function Kept(): seq<int>
      requires |samples| <= |readings|
      reads this
    {
      readings[|readings| - |samples|..]
    }

    /** An empty window with room for `size` readings, and always for one. */
    constructor (size: int)
      ensures Valid() && readings == [] && samples == [] && this.size == if size < 1 then 1 else size
    {
      this.size := if size < 1 then 1 else size;
      samples, next, readings := [], 0, [];
    }

    /** Afterwards the ring holds the latest readings up to its size, and the answer is over a bound
        just when most of them are. */
    method Add(lag: int) returns (typical: int)
      requires Valid()
      modifies this
      ensures Valid() && readings == old(readings) + [lag]
      ensures |samples| == if |readings| < size then |readings| else size
      ensures multiset(samples) == multiset(Kept())
      ensures samples != [] && typical == Median(samples)
      ensures forall bound :: typical > bound <==> 2 * CountOver(samples, bound) > |samples|
    {
      hide Median, CountOver, Ring, Kept;
      RingAdds(samples, next, lag, readings, size);
      if |samples| < size {
        samples := samples + [lag];
      } else {
        samples := samples[next := lag];
      }
      next := (next + 1) % size;
      readings := readings + [lag];
      RingLength(samples, next, size, readings);
      KeptLatest();
      typical := Median(samples);
      MedianOverAny(samples);
    }

    lemma KeptLatest()
      requires Valid() && |samples| <= |readings|
      ensures multiset(samples) == multiset(Kept())
    {
      hide Ring;
      RingMultiset(samples, next, size, readings);
    }
  }

  /** The ring, read from its oldest reading, is the latest readings. */
  ghost predicate Ring(samples: seq<int>, next: nat, size: nat, readings: seq<int>) {
    && 1 <= size && |samples| <= size && |samples| <= |readings|
    && (|samples| < size ==> next == |samples| && samples == readings)
    && (|samples| == size ==> next < size && samples[next..] + samples[..next] == readings[|readings| - |samples|..])
  }

  lemma Wrap(next: nat, size: nat)
    requires next < size
    ensures (next + 1) % size == if next + 1 == size then 0 else next + 1
  {
  }

  lemma RingGrows(samples: seq<int>, next: nat, lag: int, readings: seq<int>, size: nat)
    requires Ring(samples, next, size, readings) && |samples| < size
    ensures Ring(samples + [lag], if next + 1 == size then 0 else next + 1, size, readings + [lag])
  {
    var grown := samples + [lag];
    assert grown[0..] + grown[..0] == grown;
    assert (readings + [lag])[0..] == readings + [lag];
  }

  lemma RingTurns(samples: seq<int>, next: nat, lag: int, readings: seq<int>, size: nat)
    requires Ring(samples, next, size, readings) && |samples| == size
    ensures Ring(samples[next := lag], if next + 1 == size then 0 else next + 1, size, readings + [lag])
  {
    var turned := samples[next := lag];
    var kept := samples[next..] + samples[..next];
    assert turned[next + 1..] + turned[..next + 1] == kept[1..] + [lag];
    assert (readings + [lag])[|readings| + 1 - size..] == readings[|readings| - size..][1..] + [lag];
    if next + 1 == size {
      assert turned[0..] + turned[..0] == turned[next + 1..] + turned[..next + 1];
    }
  }

  /** Adding a reading, by growing the ring or overwriting its oldest, keeps it the latest readings. */
  lemma RingAdds(samples: seq<int>, next: nat, lag: int, readings: seq<int>, size: nat)
    requires Ring(samples, next, size, readings)
    ensures Ring(if |samples| < size then samples + [lag] else samples[next := lag],
                 (next + 1) % size, size, readings + [lag])
    ensures |samples| < size || next < |samples|
  {
    Wrap(next, size);
    if |samples| < size {
      RingGrows(samples, next, lag, readings, size);
    } else {
      RingTurns(samples, next, lag, readings, size);
    }
  }

  lemma RingLength(samples: seq<int>, next: nat, size: nat, readings: seq<int>)
    requires Ring(samples, next, size, readings)
    ensures |samples| == (if |readings| < size then |readings| else size) && 1 <= size && |samples| <= |readings|
  {
  }

  lemma RingMultiset(samples: seq<int>, next: nat, size: nat, readings: seq<int>)
    requires Ring(samples, next, size, readings)
    ensures multiset(samples) == multiset(readings[|readings| - |samples|..])
  {
    if |samples| == size {
      assert samples == samples[..next] + samples[next..];
    } else {
      assert readings[0..] == readings;
    }
  }
}
