/** Which pool serves a read: pins, replica health, and the rotation over replicas. */
module Routing {
  import opened Wrappers
  import opened Lsn
  import opened Lag

  // ---- The freshness a context asks for ----

  datatype Pin = Pin(forcePrimary: bool, requiredLSN: LSN)

  const UNPINNED := Pin(false, 0)

  function PinPrimary(p: Pin): Pin {
    p.(forcePrimary := true)
  }

  function PinLSN(p: Pin, lsn: LSN): Pin {
    if lsn > p.requiredLSN then p.(requiredLSN := lsn) else p
  }

  function PinAll(p: Pin, lsns: seq<LSN>): Pin
    decreases lsns
  {
    if lsns == [] then p else PinAll(PinLSN(p, lsns[0]), lsns[1..])
  }

  /** A pin is a running maximum: it asks for every position it was ever given and for nothing later
      than all of them. */
  lemma {:induction false} PinIsMaximum(p: Pin, lsns: seq<LSN>)
    ensures var q := PinAll(p, lsns);
      && q.forcePrimary == p.forcePrimary && PinPrimary(q).forcePrimary && PinPrimary(q).requiredLSN == q.requiredLSN
      && q.requiredLSN >= p.requiredLSN
      && (forall l | l in lsns :: l <= q.requiredLSN)
      && (q.requiredLSN == p.requiredLSN || q.requiredLSN in lsns)
    decreases lsns
  {
    if lsns != [] {
      PinIsMaximum(PinLSN(p, lsns[0]), lsns[1..]);
      assert forall l | l in lsns :: l == lsns[0] || l in lsns[1..];
    }
  }

  // ---- Choosing a replica ----

  /** What a read sees of a replica when it is routed. */
  datatype Seen = Seen(healthy: bool, replay: LSN)

  predicate Eligible(v: Seen, p: Pin) {
    v.healthy && !(p.requiredLSN != 0 && v.replay < p.requiredLSN)
  }

  datatype Outcome = RouteReplica | RoutePinned | RouteStale | RouteNoHealthy

  function Abs(x: int): nat {
    if x < 0 then -x else x
  }

  /** The i-th place going round n replicas from `start`. */
  function Place(n: nat, start: nat, i: nat): (j: nat)
    requires 0 < n
    ensures j < n
  {
    (start + i) % n
  }

  /** The first place, going round from `start`, whose replica may serve the pin. */
  function Scan(seen: seq<Seen>, start: nat, p: Pin, i: nat): Option<nat>
    requires seen != [] && i <= |seen|
    decreases |seen| - i
  {
    if i == |seen| then None
    else
      var j := Place(|seen|, start, i);
      if Eligible(seen[j], p) then Some(j) else Scan(seen, start, p, i + 1)
  }

  function Pick(seen: seq<Seen>, start: int, p: Pin): Option<nat> {
    if p.forcePrimary || seen == [] then None else Scan(seen, Abs(start), p, 0)
  }

  ghost predicate AnyEligible(seen: seq<Seen>, p: Pin) {
    exists j :: 0 <= j < |seen| && Eligible(seen[j], p)
  }

  lemma Multiple(n: nat, k: int)
    requires -(n as int) < n * k < n
    ensures k == 0
  {
    if k != 0 {
      calc {
        n * k == 0;
      ==  { if k > 0 { Larger(n, k); } else { Larger(n, -k); } }
        false;
      }
    }
  }

  lemma Larger(n: nat, k: int)
    requires k >= 1
    ensures n * k >= n
  {
  }

  lemma Remainder(n: nat, q: int, j: nat)
    requires j < n
    ensures (n * q + j) % n == j
  {
    var x := n * q + j;
    assert x == n * (x / n) + x % n;
    assert n * (x / n - q) == j - x % n;
    Multiple(n, x / n - q);
  }

  lemma PlaceOnce(n: nat, start: nat, i: nat, k: nat)
    requires i < n && k < n && Place(n, start, i) == Place(n, start, k)
    ensures i == k
  {
    var x, y := start + i, start + k;
    assert x == n * (x / n) + x % n && y == n * (y / n) + y % n;
    assert n * (x / n - y / n) == i - k;
    Multiple(n, x / n - y / n);
  }

  /** Going round from a start comes past every place, and past each only once. */
  lemma RoundFinds(n: nat, start: nat, j: nat) returns (i: nat)
    requires j < n
    ensures i < n && Place(n, start, i) == j
    ensures forall k | 0 <= k < n && Place(n, start, k) == j :: k == i
  {
    var s, q := start % n, start / n;
    assert start == n * q + s;
    if j >= s {
      i := j - s;
      Remainder(n, q, j);
    } else {
      i := j - s + n;
      assert n * (q + 1) == n * q + n;
      Remainder(n, q + 1, j);
    }
    assert Place(n, start, i) == j;
    forall k | 0 <= k < n && Place(n, start, k) == j
      ensures k == i
    {
      PlaceOnce(n, start, i, k);
    }
  }

  lemma {:induction false} ScanFinds(seen: seq<Seen>, start: nat, p: Pin, i: nat)
    requires seen != [] && i <= |seen|
    ensures var r := Scan(seen, start, p, i);
      && (r.Some? ==> r.value < |seen| && Eligible(seen[r.value], p))
      && (r.None? ==> forall k | i <= k < |seen| :: !Eligible(seen[Place(|seen|, start, k)], p))
    decreases |seen| - i
  {
    hide Place;
    if i < |seen| && !Eligible(seen[Place(|seen|, start, i)], p) {
      ScanFinds(seen, start, p, i + 1);
    }
  }

  /** A read that may go to a replica gets one exactly when some replica is healthy and caught up, and
      then such a one. */
  lemma PickFinds(seen: seq<Seen>, start: int, p: Pin)
    ensures var r := Pick(seen, start, p);
      && (r.Some? <==> !p.forcePrimary && AnyEligible(seen, p))
      && (r.Some? ==> r.value < |seen| && Eligible(seen[r.value], p))
  {
    if !p.forcePrimary && seen != [] {
      ScanFinds(seen, Abs(start), p, 0);
      forall j | 0 <= j < |seen|
        ensures Pick(seen, start, p).None? ==> !Eligible(seen[j], p)
      {
        var i := RoundFinds(|seen|, Abs(start), j);
        assert Pick(seen, start, p).None? ==> !Eligible(seen[Place(|seen|, Abs(start), i)], p);
      }
    }
  }

  /** Whether the replica at the i-th place going round, from a start of either sign, is healthy and
      has replayed what is asked for. */
  predicate Serves(seen: seq<Seen>, start: int, p: Pin, i: nat)
    requires seen != []
  {
    var v := seen[((if start < 0 then -start else start) + i) % |seen|];
    v.healthy && p.requiredLSN <= v.replay
  }

  /** The replica picked is the first that serves, going round from the start. */
  lemma PickIsFirst(seen: seq<Seen>, start: int, p: Pin) returns (j: nat)
    requires Pick(seen, start, p).Some?
    ensures j < |seen| && !p.forcePrimary
    ensures Pick(seen, start, p) == Some(((if start < 0 then -start else start) + j) % |seen|)
    ensures Serves(seen, start, p, j) && forall i: nat | i < j :: !Serves(seen, start, p, i)
  {
    hide Scan;
    j := ScanIsFirst(seen, Abs(start), p, 0);
    forall i: nat | i < j
      ensures !Serves(seen, start, p, i)
    {
      assert !Eligible(seen[Place(|seen|, Abs(start), i)], p);
    }
  }

  lemma {:induction false} ScanIsFirst(seen: seq<Seen>, start: nat, p: Pin, i: nat) returns (j: nat)
    requires seen != [] && i <= |seen| && Scan(seen, start, p, i).Some?
    ensures i <= j < |seen| && Scan(seen, start, p, i) == Some(Place(|seen|, start, j))
    ensures Eligible(seen[Place(|seen|, start, j)], p)
    ensures forall k | i <= k < j :: !Eligible(seen[Place(|seen|, start, k)], p)
    decreases |seen| - i
  {
    hide Place, Eligible;
    if Eligible(seen[Place(|seen|, start, i)], p) {
      j := i;
    } else {
      j := ScanIsFirst(seen, start, p, i + 1);
    }
  }

  /** The replica the k-th of several reads in a row is sent to. */
  function Turn(seen: seq<Seen>, first: nat, p: Pin, k: nat): Option<nat> {
    Pick(seen, first + k, p)
  }

  /** With every replica eligible, |seen| reads in a row serve each replica once: each place
      is picked by exactly one of the turns. */
  lemma RotationIsFair(seen: seq<Seen>, first: nat, p: Pin, j: nat) returns (i: nat)
    requires !p.forcePrimary && j < |seen| && forall v | v in seen :: Eligible(v, p)
    ensures i < |seen| && Turn(seen, first, p, i) == Some(j)
    ensures forall k: nat | k < |seen| && Turn(seen, first, p, k) == Some(j) :: k == i
  {
    i := RoundFinds(|seen|, first, j);
    forall k: nat | k < |seen|
      ensures Turn(seen, first, p, k) == Some(Place(|seen|, first, k))
    {
      assert Place(|seen|, first + k, 0) == Place(|seen|, first, k);
      assert Scan(seen, first + k, p, 0) == Some(Place(|seen|, first + k, 0));
    }
  }
}
