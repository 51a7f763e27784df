/** The cluster object: health checks that move replicas in and out of the rotation, and reads routed over them. */
module ReplicaCluster {
  import opened Wrappers
  import opened Lsn
  import opened Lag
  import opened Routing

  /** What a health query comes back with. */
  datatype Reading =
    | Failed(error: string)
    | Answer(inRecovery: bool, lsnText: string, lag: int, receiver: string)

  class Replica {
    const name: string
    /** Whether the pool has been opened; it stays closed until the replica first answers. */
    var connected: bool
    const lags: LagWindow
    var healthy: bool
    var replayLSN: LSN
    var lagMillis: int
    var lastErr: Option<string>

    /** A replica in the rotation has a pool and no error against it. */
    ghost predicate Sound()
      reads this, lags
    {
      lags.Valid() && (healthy ==> connected && lastErr.None?)
    }

    constructor (name: string, connected: bool, lagSamples: int)
      ensures Sound() && !healthy && lastErr.None? && replayLSN == 0
      ensures this.connected == connected && this.name == name && fresh(lags) && lags.readings == []
    {
      this.name, this.connected := name, connected;
      lags := new LagWindow(lagSamples);
      healthy, replayLSN, lagMillis, lastErr := false, 0, 0, None;
    }

    function View(): Seen
      reads this
    {
      Seen(healthy, replayLSN)
    }
  }

  function Views(replicas: seq<Replica>): seq<Seen>
    reads set r | r in replicas
  {
    if replicas == [] then [] else [replicas[0].View()] + Views(replicas[1..])
  }

  lemma {:induction false} ViewAt(replicas: seq<Replica>)
    ensures |Views(replicas)| == |replicas|
    ensures forall i | 0 <= i < |replicas| :: Views(replicas)[i] == replicas[i].View()
  {
    if replicas != [] {
      ViewAt(replicas[1..]);
    }
  }

  /** Every replica is an object of its own, with readings of its own. */
  ghost predicate Apart(replicas: seq<Replica>) {
    forall i, j | 0 <= i < j < |replicas| :: replicas[i] != replicas[j] && replicas[i].lags != replicas[j].lags
  }

  ghost predicate AnyHealthy(seen: seq<Seen>) {
    exists j :: 0 <= j < |seen| && seen[j].healthy
  }

  /** Why a read is not given a replica. */
  ghost function Reason(seen: seq<Seen>, p: Pin): Outcome {
    if p.forcePrimary then RoutePinned else if AnyHealthy(seen) then RouteStale else RouteNoHealthy
  }

  /** Returns the first eligible replica going round from the start, and otherwise the one reason that applies. */
  method PickReplica(replicas: seq<Replica>, start: int, p: Pin) returns (r: Replica?, outcome: Outcome)
    ensures match Pick(Views(replicas), start, p)
      case Some(i) => i < |replicas| && r == replicas[i] && outcome == RouteReplica
      case None => r == null && outcome == Reason(Views(replicas), p)
    ensures outcome == RouteReplica <==> r != null
    ensures outcome == RoutePinned <==> p.forcePrimary
    ensures outcome == RouteStale ==> exists v | v in replicas :: v.healthy
    ensures outcome == RouteNoHealthy ==> forall v | v in replicas :: !v.healthy
  {
    ViewAt(replicas);
    ghost var seen := Views(replicas);
    if p.forcePrimary {
      return null, RoutePinned;
    }
    var n := |replicas|;
    if n == 0 {
      return null, RouteNoHealthy;
    }
    var from := if start < 0 then -start else start;
    var sawHealthy := false;
    for i := 0 to n
      invariant Pick(seen, start, p) == Scan(seen, from, p, i)
      invariant sawHealthy ==> AnyHealthy(seen)
      invariant !sawHealthy ==> forall k | 0 <= k < i :: !seen[Place(n, from, k)].healthy
    {
      hide Place;
      r := replicas[Place(n, from, i)];
      if !r.healthy {
        continue;
      }
      assert seen[Place(n, from, i)].healthy;
      sawHealthy := true;
      if p.requiredLSN != 0 && r.replayLSN < p.requiredLSN {
        continue;
      }
      return r, RouteReplica;
    }
    forall j | 0 <= j < n
      ensures !sawHealthy ==> !seen[j].healthy
    {
      var k := RoundFinds(n, from, j);
      assert !sawHealthy ==> !seen[Place(n, from, k)].healthy;
    }
    return null, if sawHealthy then RouteStale else RouteNoHealthy;
  }

  class Cluster {
    const replicas: seq<Replica>
    const maxLag: int
    var rr: nat
    var readsToPrimary: nat
    var readsToReplica: nat
    var staleFallbacks: nat
    var noHealthyReplica: nat
    /** How many reads were ever routed. */
    ghost var routed: nat

    ghost predicate Sound()
      reads this, replicas, set r | r in replicas :: r.lags
    {
      && (forall r | r in replicas :: r.Sound())
      && Apart(replicas)
      && Counted()
    }

    /** Every read went to exactly one kind of pool, and a fallback is counted among the primary's. */
    ghost predicate Counted()
      reads this
    {
      && readsToPrimary + readsToReplica == routed
      && staleFallbacks + noHealthyReplica <= readsToPrimary
    }

    constructor (replicas: seq<Replica>, maxLag: int, rr: nat)
      requires forall r | r in replicas :: r.Sound()
      requires Apart(replicas)
      ensures Sound() && this.replicas == replicas && this.maxLag == maxLag && this.rr == rr && routed == 0
    {
      this.replicas, this.maxLag, this.rr := replicas, maxLag, rr;
      readsToPrimary, readsToReplica, staleFallbacks, noHealthyReplica, routed := 0, 0, 0, 0, 0;
    }

    /** Picks the pool that serves a read: a replica, or the primary, which is null here.
        A replica that is picked has an open pool and is known to have replayed what the pin asks for. */
    method Reader(p: Pin) returns (pool: Replica?)
      requires Sound()
      modifies this
      ensures Sound() && routed == old(routed) + 1 && rr == old(rr) + 1
      ensures match Pick(Views(replicas), rr, p)
        case Some(i) => i < |replicas| && pool == replicas[i]
        case None => pool == null
      ensures pool != null ==>
        && pool in replicas && pool.connected && pool.healthy && pool.lastErr.None?
        && !p.forcePrimary && p.requiredLSN <= pool.replayLSN
      ensures pool == null ==> p.forcePrimary || forall r | r in replicas :: !r.healthy || r.replayLSN < p.requiredLSN
      ensures readsToReplica == old(readsToReplica) + if pool != null then 1 else 0
      ensures readsToPrimary == old(readsToPrimary) + if pool == null then 1 else 0
      ensures staleFallbacks == old(staleFallbacks)
        + if pool == null && !p.forcePrimary && exists r | r in replicas :: r.healthy then 1 else 0
      ensures noHealthyReplica == old(noHealthyReplica)
        + if pool == null && !p.forcePrimary && forall r | r in replicas :: !r.healthy then 1 else 0
    {
      hide Pick, Reason, Views, LagWindow.Valid;
      rr := rr + 1;
      ViewAt(replicas);
      PickFinds(Views(replicas), rr, p);
      var r, outcome := PickReplica(replicas, rr, p);
      routed := routed + 1;
      match outcome {
        case RouteReplica =>
          readsToReplica := readsToReplica + 1;
          return r;
        case RouteStale =>
          staleFallbacks := staleFallbacks + 1;
        case RouteNoHealthy =>
          noHealthyReplica := noHealthyReplica + 1;
        case RoutePinned =>
      }
      readsToPrimary := readsToPrimary + 1;
      pool := null;
      assert p.forcePrimary || forall i | 0 <= i < |replicas| :: !Eligible(replicas[i].View(), p);
    }

    method MarkUnhealthy(r: Replica, reason: string)
      modifies r`lastErr, r`healthy
      ensures r.lastErr == Some(reason) && !r.healthy
    {
      r.lastErr := Some(reason);
      r.healthy := false;
    }

    /** Whether the kept readings say a replica lags: more than half of them over the limit. */
    ghost predicate Late(samples: seq<int>) {
      maxLag > 0 && 2 * CountOver(samples, maxLag) > |samples|
    }

    predicate Streaming(receiver: string) {
      receiver == "" || receiver == "streaming"
    }

    /** Afterwards the replica is in the rotation exactly when it is no standby, or streams and is not mostly late. */
    method Judge(r: Replica, inRecovery: bool, lag: nat, receiver: string)
      requires r.Sound() && r.connected
      modifies r`lagMillis, r`lastErr, r`healthy, r.lags
      ensures r.Sound() && r.lagMillis == lag / 1_000_000
      ensures r.lags.readings == old(r.lags.readings) + if inRecovery && Streaming(receiver) then [lag] else []
      ensures r.healthy <==> inRecovery ==> Streaming(receiver) && !Late(r.lags.samples)
      ensures r.healthy <==> r.lastErr.None?
      ensures r.healthy <==> inRecovery ==>
        (receiver == "" || receiver == "streaming")
        && (maxLag <= 0 || 2 * CountOver(r.lags.samples, maxLag) <= |r.lags.samples|)
    {
      r.lagMillis := lag / 1_000_000;
      if inRecovery {
        if receiver != "" && receiver != "streaming" {
          MarkUnhealthy(r, "wal receiver is not streaming");
          return;
        }
        var typical := r.lags.Add(lag);
        if maxLag > 0 && typical > maxLag {
          MarkUnhealthy(r, "replication lag exceeds the limit");
          return;
        }
      }
      var was := r.healthy;
      r.healthy := true;
      if !was {
        r.lastErr := None;
      }
    }

    /** Whether a health query came back with a position that can be read. */
    ghost predicate Answered(r: Replica, reading: Reading)
      reads r
    {
      r.connected && reading.Answer? && Parse(reading.lsnText).Some?
    }

    /** Whether a replica is fit to serve by what its query came back with. */
    ghost predicate Fit(r: Replica, reading: Reading)
      reads r, r.lags
    {
      Answered(r, reading) && (reading.inRecovery ==> Streaming(reading.receiver) && !Late(r.lags.samples))
    }

    ghost predicate Passed(r: Replica, reading: Reading)
      reads r, r.lags
    {
      (r.healthy <==> Fit(r, reading)) && (r.healthy <==> r.lastErr.None?)
    }

    /** One health check of one replica. Afterwards it is in the rotation exactly when it has
        a pool, its query answered with a position that can be read, and it is not a standby
        whose receiver has stopped or most of whose kept readings are late; and exactly then
        it has no error. The position it is routed by is the one just read, or the one before. */
    method Check(r: Replica, open: Option<string>, reading: Reading)
      requires r.Sound()
      modifies r, r.lags
      ensures r.Sound() && (r.healthy <==> r.lastErr.None?)
      ensures r.connected == (old(r.connected) || open.None?)
      ensures r.healthy <==> Fit(r, reading)
      ensures r.healthy <==>
        && r.connected && reading.Answer? && Parse(reading.lsnText).Some?
        && (reading.inRecovery ==>
              && (reading.receiver == "" || reading.receiver == "streaming")
              && (maxLag <= 0 || 2 * CountOver(r.lags.samples, maxLag) <= |r.lags.samples|))
      ensures r.replayLSN == if r.connected && reading.Answer? && Parse(reading.lsnText).Some?
        then Parse(reading.lsnText).value else old(r.replayLSN)
      ensures var read := Answered(r, reading);
        && r.replayLSN == (if read then Parse(reading.lsnText).value else old(r.replayLSN))
        && r.lags.readings == old(r.lags.readings)
             + (if read && reading.inRecovery && Streaming(reading.receiver)
                then [if reading.lag < 0 then 0 else reading.lag] else [])
    {
      if !r.connected {
        if open.Some? {
          MarkUnhealthy(r, open.value);
          return;
        }
        r.connected := true;
      }
      if reading.Failed? {
        MarkUnhealthy(r, reading.error);
        return;
      }
      var lsn := Parse(reading.lsnText);
      if lsn.None? {
        MarkUnhealthy(r, "malformed lsn");
        return;
      }
      var lag := reading.lag;
      if lag < 0 {
        lag := 0;
      }
      r.replayLSN := lsn.value;
      Judge(r, reading.inRecovery, lag, reading.receiver);
    }

    /** One pass over every replica, each with its own answers: afterwards exactly those fit to
        serve are in the rotation, and they alone have no error. */
    method CheckAll(opens: seq<Option<string>>, readings: seq<Reading>)
      requires Sound() && |opens| == |readings| == |replicas|
      modifies replicas, set r | r in replicas :: r.lags
      ensures Sound()
      ensures forall i | 0 <= i < |replicas| :: Passed(replicas[i], readings[i])
      ensures forall i | 0 <= i < |replicas| :: replicas[i].connected == (old(replicas[i].connected) || opens[i].None?)
      ensures forall i | 0 <= i < |replicas| ::
        replicas[i].replayLSN ==
          if Answered(replicas[i], readings[i]) then Parse(readings[i].lsnText).value else old(replicas[i].replayLSN)
    {
      hide Parse, LagWindow.Valid, Late, Streaming;
      for i := 0 to |replicas|
        invariant Sound()
        invariant forall j | 0 <= j < i :: Passed(replicas[j], readings[j])
        invariant forall j | 0 <= j < i :: replicas[j].connected == (old(replicas[j].connected) || opens[j].None?)
        invariant forall j | 0 <= j < i ::
          replicas[j].replayLSN ==
            if Answered(replicas[j], readings[j]) then Parse(readings[j].lsnText).value else old(replicas[j].replayLSN)
        invariant forall j | i <= j < |replicas| ::
          replicas[j].connected == old(replicas[j].connected) && replicas[j].replayLSN == old(replicas[j].replayLSN)
      {
        Check(replicas[i], opens[i], readings[i]);
      }
    }
  }
}
