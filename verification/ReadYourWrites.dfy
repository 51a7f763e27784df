/** Reads that see the reader's own writes: commits of many sessions on one primary, replicas
    that replay its log, health checks that cache how far each has come, and pinned reads. */
module ReadYourWrites {
  import opened Wrappers
  import opened Lsn
  import opened Routing

  /** A record in the write-ahead log. A transaction's changes are visible where its commit has been replayed. */
  datatype Record = Change(tx: nat) | Commit(tx: nat)

  // ---- One write on the primary, in the order its steps run ----

  /** How a transaction goes: it may fail to begin, fail in its work, have its commit fail, which
      may have landed all the same when the answer was lost, or commit. */
  datatype Course = NoBegin | WorkFails | CommitFails(landed: bool) | Commits

  datatype WriteError = BeginError | WorkError | CommitError | PositionError

  /** The records of a transaction's changes. */
  function Work(tx: nat, changes: nat): (work: seq<Record>)
    ensures |work| == changes && forall r | r in work :: r == Change(tx)
  {
    if changes == 0 then [] else Work(tx, changes - 1) + [Change(tx)]
  }

  class Primary {
    var wal: seq<Record>

    constructor ()
      ensures wal == []
    {
      wal := [];
    }

    /** Runs a transaction; what other sessions write meanwhile lands before its commit. */
    method InTx(tx: nat, changes: nat, meanwhile: seq<Record>, course: Course) returns (failed: Option<WriteError>)
      modifies this
      ensures wal == old(wal) + (match course
        case NoBegin => []
        case WorkFails => Work(tx, changes) + meanwhile
        case CommitFails(false) => Work(tx, changes) + meanwhile
        case CommitFails(true) => Work(tx, changes) + meanwhile + [Commit(tx)]
        case Commits => Work(tx, changes) + meanwhile + [Commit(tx)])
      ensures failed == match course
        case NoBegin => Some(BeginError)
        case WorkFails => Some(WorkError)
        case CommitFails(_) => Some(CommitError)
        case Commits => None
      ensures course == Commits ==> wal != [] && wal[|wal| - 1] == Commit(tx)
      ensures Commit(tx) !in old(wal) && Commit(tx) !in meanwhile ==>
        (Commit(tx) in wal <==> course == Commits || course == CommitFails(true))
    {
      if course == NoBegin {
        return Some(BeginError);
      }
      for i := 0 to changes
        invariant wal == old(wal) + Work(tx, i)
      {
        wal := wal + [Change(tx)];
      }
      wal := wal + meanwhile;
      if course == WorkFails {
        return Some(WorkError);
      }
      if course == CommitFails(false) {
        return Some(CommitError);
      }
      wal := wal + [Commit(tx)];
      assert wal[|wal| - 1] == Commit(tx);
      return if course == Commits then None else Some(CommitError);
    }

    /** Commits, and only then reads the position; other sessions may write in between. A position
        that is returned has the commit before it, and a write that failed before its commit was
        tried has committed nothing. */
    method Write(tx: nat, changes: nat, meanwhile: seq<Record>, course: Course, after: seq<Record>, readable: bool)
      returns (r: Result<nat, WriteError>)
      requires Commit(tx) !in wal && Commit(tx) !in meanwhile && Commit(tx) !in after
      modifies this
      ensures old(wal) <= wal
      ensures r.Ok? ==> r.value == |wal| && old(wal) + Work(tx, changes) + meanwhile + [Commit(tx)] <= wal
      ensures r.Ok? <==> course == Commits && readable
      ensures Commit(tx) in wal <==> r.Ok? || r.error == PositionError || course == CommitFails(true)
    {
      var failed := InTx(tx, changes, meanwhile, course);
      if failed.Some? {
        return Err(failed.value);
      }
      assert wal[|wal| - 1] in wal;
      wal := wal + after;
      if !readable {
        return Err(PositionError);
      }
      return Ok(|wal|);
    }
  }

  // ---- The protocol, over every interleaving ----

  /** A replica: how far it has really replayed, what the latest health check has read of that,
      what of it was cached, and whether it is in the rotation. */
  datatype Standby = Standby(replayed: nat, reading: Option<nat>, cached: nat, healthy: bool)

  datatype Tx = Running | Gone | Committed | Returned(lsn: nat)

  datatype Route = ToPrimary | ToReplica(i: nat)

  /** A read, with the pin it was routed by; `saw` is how much of the log its snapshot held once it ran. */
  datatype Read = Read(ctx: nat, pin: Pin, route: Route, saw: Option<nat>)

  datatype State = State(
    wal: seq<Record>,
    txs: map<nat, Tx>,
    replicas: seq<Standby>,
    pins: map<nat, Pin>,
    queries: map<nat, Read>)

  datatype Event =
    | Begin(tx: nat)
    | WriteChange(tx: nat)
    | CommitTx(tx: nat)
    | RollBack(tx: nat)
    | ReadPosition(tx: nat)
    | PinTo(ctx: nat, lsn: LSN)
    | PinToPrimary(ctx: nat)
    | Replay(i: nat, to: nat)
    | AskHealth(i: nat)
    | StoreHealth(i: nat)
    | FlagHealth(i: nat, healthy: bool)
    | RouteRead(id: nat, ctx: nat, start: int)
    | RunRead(id: nat)

  function PinOf(s: State, ctx: nat): Pin {
    if ctx in s.pins then s.pins[ctx] else UNPINNED
  }

  function Clamp(n: nat): LSN {
    if n < 0x1_0000_0000_0000_0000 then n else 0xFFFF_FFFF_FFFF_FFFF
  }

  function SeenOf(replicas: seq<Standby>): seq<Seen> {
    seq(|replicas|, i requires 0 <= i < |replicas| => Seen(replicas[i].healthy, Clamp(replicas[i].cached)))
  }

  /** One step; an event that cannot happen changes nothing. */
  function Step(s: State, e: Event): State {
    match e
    case Begin(tx) => if tx in s.txs then s else s.(txs := s.txs[tx := Running])
    case WriteChange(tx) =>
      if tx in s.txs && s.txs[tx] == Running then s.(wal := s.wal + [Change(tx)]) else s
    case CommitTx(tx) =>
      if tx in s.txs && s.txs[tx] == Running then
        s.(wal := s.wal + [Commit(tx)], txs := s.txs[tx := Committed])
      else s
    case RollBack(tx) => if tx in s.txs && s.txs[tx] == Running then s.(txs := s.txs[tx := Gone]) else s
    case ReadPosition(tx) =>
      if tx in s.txs && s.txs[tx] == Committed then s.(txs := s.txs[tx := Returned(|s.wal|)]) else s
    case PinTo(ctx, lsn) => s.(pins := s.pins[ctx := PinLSN(PinOf(s, ctx), lsn)])
    case PinToPrimary(ctx) => s.(pins := s.pins[ctx := PinPrimary(PinOf(s, ctx))])
    case Replay(i, to) =>
      if i < |s.replicas| && s.replicas[i].replayed <= to <= |s.wal| then
        s.(replicas := s.replicas[i := s.replicas[i].(replayed := to)])
      else s
    case AskHealth(i) =>
      if i < |s.replicas| then
        s.(replicas := s.replicas[i := s.replicas[i].(reading := Some(s.replicas[i].replayed))])
      else s
    case StoreHealth(i) =>
      if i < |s.replicas| && s.replicas[i].reading.Some? then
        s.(replicas := s.replicas[i := s.replicas[i].(cached := s.replicas[i].reading.value)])
      else s
    // The flag is stored apart from the position, so reads may be routed in between.
    case FlagHealth(i, healthy) =>
      if i < |s.replicas| then s.(replicas := s.replicas[i := s.replicas[i].(healthy := healthy)]) else s
    case RouteRead(id, ctx, start) =>
      if id in s.queries then s
      else
        var p := PinOf(s, ctx);
        var route := match Pick(SeenOf(s.replicas), start, p)
          case None => ToPrimary
          case Some(i) => ToReplica(i);
        s.(queries := s.queries[id := Read(ctx, p, route, None)])
    case RunRead(id) =>
      if id in s.queries && s.queries[id].saw.None? then
        var r := s.queries[id];
        var saw := match r.route
          case ToPrimary => |s.wal|
          case ToReplica(i) => if i < |s.replicas| then s.replicas[i].replayed else 0;
        s.(queries := s.queries[id := r.(saw := Some(saw))])
      else s
  }

  function Run(s: State, events: seq<Event>): State
    decreases |events|
  {
    if events == [] then s else Step(Run(s, events[..|events| - 1]), events[|events| - 1])
  }

  /** Before anything happens: nothing written, nothing cached, no replica trusted. */
  ghost predicate Init(s: State) {
    && s.wal == [] && s.txs == map[] && s.pins == map[] && s.queries == map[]
    && forall i | 0 <= i < |s.replicas| :: s.replicas[i] == Standby(0, None, 0, false)
  }

  // ---- What every step keeps ----

  ghost predicate StandbyOk(r: Standby, end: nat) {
    r.cached <= r.replayed <= end && (r.reading.Some? ==> r.reading.value <= r.replayed)
  }

  /** No cached position is ahead of the real one. */
  ghost predicate StandbysOk(s: State) {
    forall i | 0 <= i < |s.replicas| :: StandbyOk(s.replicas[i], |s.wal|)
  }

  /** None of a transaction's changes follows its commit. */
  ghost predicate Settled(wal: seq<Record>, tx: nat) {
    forall i, j | 0 <= i < j < |wal| && wal[i] == Commit(tx) :: wal[j] != Change(tx)
  }

  /** The whole of a transaction, its changes and its commit, is in the first `n` records. */
  ghost predicate Whole(wal: seq<Record>, tx: nat, n: nat) {
    n <= |wal| && Commit(tx) in wal[..n] && forall i | 0 <= i < |wal| && wal[i] == Change(tx) :: i < n
  }

  /** A transaction is in the log when it has committed, before any position returned for it, and otherwise not. */
  ghost predicate TxOk(wal: seq<Record>, tx: nat, t: Tx) {
    match t
    case Running => Commit(tx) !in wal
    case Gone => Commit(tx) !in wal
    case Committed => Commit(tx) in wal && Settled(wal, tx)
    case Returned(lsn) => Whole(wal, tx, lsn) && Settled(wal, tx)
  }

  ghost predicate TxsOk(s: State) {
    && (forall tx | tx in s.txs :: TxOk(s.wal, tx, s.txs[tx]))
    && (forall r | r in s.wal :: r.tx in s.txs)
  }

  /** A read is on the primary, or on a replica that has replayed what its pin asks for; and it
      sees at least that, unless its pin asks for more than was ever written. */
  ghost predicate ReadOk(s: State, r: Read) {
    && (r.route.ToReplica? ==>
          && r.route.i < |s.replicas| && !r.pin.forcePrimary
          && r.pin.requiredLSN <= s.replicas[r.route.i].replayed)
    && (r.saw.Some? ==>
          && r.saw.value <= |s.wal|
          && (r.route.ToReplica? ==> r.pin.requiredLSN <= r.saw.value))
  }

  ghost predicate ReadsOk(s: State) {
    forall id | id in s.queries :: ReadOk(s, s.queries[id])
  }

  ghost predicate Inv(s: State) {
    StandbysOk(s) && TxsOk(s) && ReadsOk(s)
  }

  lemma StepKeepsStandbys(s: State, e: Event)
    requires StandbysOk(s)
    ensures StandbysOk(Step(s, e)) && |Step(s, e).replicas| == |s.replicas|
    ensures s.wal <= Step(s, e).wal
    ensures forall i | 0 <= i < |s.replicas| :: s.replicas[i].replayed <= Step(s, e).replicas[i].replayed
  {
    hide Pick, PinOf;
  }

  lemma WalGrows(wal: seq<Record>, r: Record, tx: nat, t: Tx)
    requires TxOk(wal, tx, t) && r != Commit(tx) && (r == Change(tx) ==> t == Running)
    ensures TxOk(wal + [r], tx, t)
  {
    if t.Returned? {
      assert (wal + [r])[..t.lsn] == wal[..t.lsn];
    }
  }

  lemma StepKeepsTxs(s: State, e: Event)
    requires TxsOk(s)
    ensures TxsOk(Step(s, e))
  {
    hide Pick, PinOf, SeenOf;
    var s' := Step(s, e);
    if s'.wal == s.wal {
      if e.ReadPosition? {
        assert s.wal[..|s.wal|] == s.wal;
      }
    } else {
      var r := s'.wal[|s.wal|];
      assert s'.wal == s.wal + [r];
      forall tx | tx in s'.txs
        ensures TxOk(s'.wal, tx, s'.txs[tx])
      {
        if r == Commit(tx) {
          assert s'.wal[|s.wal|] in s'.wal;
        } else {
          WalGrows(s.wal, r, tx, s.txs[tx]);
        }
      }
    }
  }

  lemma StepKeepsReads(s: State, e: Event)
    requires StandbysOk(s) && ReadsOk(s)
    ensures ReadsOk(Step(s, e))
  {
    hide Pick, PinOf, SeenOf;
    StepKeepsStandbys(s, e);
    var s' := Step(s, e);
    forall id | id in s'.queries
      ensures ReadOk(s', s'.queries[id])
    {
      if id in s.queries {
        assert ReadOk(s, s.queries[id]);
      } else {
        RoutedOk(s, e.start, PinOf(s, e.ctx));
      }
    }
  }

  lemma RoutedOk(s: State, start: int, p: Pin)
    requires StandbysOk(s)
    ensures var r := Pick(SeenOf(s.replicas), start, p);
      r.Some? ==> r.value < |s.replicas| && !p.forcePrimary && p.requiredLSN <= s.replicas[r.value].replayed
  {
    PickFinds(SeenOf(s.replicas), start, p);
  }

  lemma {:induction false} RunKeeps(s: State, events: seq<Event>)
    requires Init(s)
    ensures Inv(Run(s, events))
    decreases |events|
  {
    if events != [] {
      var before := events[..|events| - 1];
      RunKeeps(s, before);
      StepKeepsStandbys(Run(s, before), events[|events| - 1]);
      StepKeepsTxs(Run(s, before), events[|events| - 1]);
      StepKeepsReads(Run(s, before), events[|events| - 1]);
    }
  }

  // ---- Reading one's own writes ----

  /** What holds from the moment a context was pinned to `lsn`, in state `was`, while transaction
      `tx` had been given the position `l`: the pin never falls below it, reads routed since
      carry it, and the primary's readers see at least the log of that moment. */
  ghost predicate Since(was: State, ctx: nat, lsn: LSN, tx: nat, l: nat, s: State) {
    && |was.wal| <= |s.wal|
    && lsn <= PinOf(s, ctx).requiredLSN
    && tx in s.txs && s.txs[tx] == Returned(l)
    && forall id | id in s.queries && id !in was.queries :: CarriesPin(was, ctx, lsn, s.queries[id])
  }

  ghost predicate CarriesPin(was: State, ctx: nat, lsn: LSN, r: Read) {
    && (r.ctx == ctx ==> lsn <= r.pin.requiredLSN)
    && (r.saw.Some? && r.route.ToPrimary? ==> |was.wal| <= r.saw.value)
  }

  lemma StepKeepsSince(was: State, ctx: nat, lsn: LSN, tx: nat, l: nat, s: State, e: Event)
    requires Since(was, ctx, lsn, tx, l, s)
    ensures Since(was, ctx, lsn, tx, l, Step(s, e))
  {
    hide Pick;
    var s' := Step(s, e);
    forall id | id in s'.queries && id !in was.queries
      ensures CarriesPin(was, ctx, lsn, s'.queries[id])
    {
      if id in s.queries {
        assert CarriesPin(was, ctx, lsn, s.queries[id]);
      }
    }
  }

  lemma SinceStarts(s: State, ctx: nat, lsn: LSN, tx: nat, l: nat)
    requires tx in s.txs && s.txs[tx] == Returned(l)
    ensures Since(s, ctx, lsn, tx, l, Step(s, PinTo(ctx, lsn)))
  {
  }

  lemma {:induction false} SinceHolds(s0: State, run: seq<Event>, i: nat, k: nat, ctx: nat, lsn: LSN, tx: nat, l: nat)
    requires i < k <= |run| && run[i] == PinTo(ctx, lsn)
    requires tx in Run(s0, run[..i]).txs && Run(s0, run[..i]).txs[tx] == Returned(l)
    ensures Since(Run(s0, run[..i]), ctx, lsn, tx, l, Run(s0, run[..k]))
    decreases k
  {
    hide Step;
    assert run[..k][..k - 1] == run[..k - 1];
    if i + 1 == k {
      SinceStarts(Run(s0, run[..i]), ctx, lsn, tx, l);
    } else {
      hide Since;
      SinceHolds(s0, run, i, k - 1, ctx, lsn, tx, l);
      StepKeepsSince(Run(s0, run[..i]), ctx, lsn, tx, l, Run(s0, run[..k - 1]), run[k - 1]);
    }
  }

  /** In every interleaving: once a context is pinned to the position a write returned, or to a
      later one, every read it makes from then on sees that write, whichever pool serves it. */
  lemma ReadsSeeOwnWrites(s0: State, run: seq<Event>, i: nat, k: nat, ctx: nat, lsn: LSN, tx: nat, l: nat, id: nat)
    requires Init(s0) && i < k <= |run|
    requires run[i] == PinTo(ctx, lsn) && l <= lsn
    requires var was := Run(s0, run[..i]); tx in was.txs && was.txs[tx] == Returned(l) && id !in was.queries
    requires var s := Run(s0, run[..k]); id in s.queries && s.queries[id].ctx == ctx && s.queries[id].saw.Some?
    ensures var s := Run(s0, run[..k]); Whole(s.wal, tx, s.queries[id].saw.value)
  {
    var was, s := Run(s0, run[..i]), Run(s0, run[..k]);
    RunKeeps(s0, run[..i]);
    RunKeeps(s0, run[..k]);
    SinceHolds(s0, run, i, k, ctx, lsn, tx, l);
    var r := s.queries[id];
    assert ReadOk(s, r) && CarriesPin(was, ctx, lsn, r) && TxOk(s.wal, tx, s.txs[tx]) && TxOk(was.wal, tx, was.txs[tx]);
    assert l <= r.saw.value;
    var at :| 0 <= at < l && s.wal[..l][at] == Commit(tx);
    assert s.wal[..r.saw.value][at] == Commit(tx);
  }

  /** A read goes to a replica exactly when its context is not pinned to the primary and some replica in the
      rotation is known to have replayed what it asks for; so pinned reads are not all sent to the primary. */
  lemma ReplicasServePins(s: State, id: nat, ctx: nat, start: int)
    requires id !in s.queries
    ensures var r := Step(s, RouteRead(id, ctx, start)).queries[id];
      && r.ctx == ctx && r.saw.None?
      && (r.route.ToReplica? <==>
            && !PinOf(s, ctx).forcePrimary
            && exists i | 0 <= i < |s.replicas| ::
                 s.replicas[i].healthy && PinOf(s, ctx).requiredLSN <= Clamp(s.replicas[i].cached))
      && (r.route.ToReplica? ==> r.route.i < |s.replicas| && s.replicas[r.route.i].healthy)
  {
    hide Pick;
    var seen, p := SeenOf(s.replicas), PinOf(s, ctx);
    PickFinds(seen, start, p);
    if AnyEligible(seen, p) {
      var i :| 0 <= i < |seen| && Eligible(seen[i], p);
      assert s.replicas[i].healthy;
    }
    if i :| 0 <= i < |s.replicas| && s.replicas[i].healthy && p.requiredLSN <= Clamp(s.replicas[i].cached) {
      assert Eligible(seen[i], p);
    }
  }

  /** Every read a context makes after it was pinned to the primary goes to the primary. */
  lemma {:induction false} PrimaryPinSticks(s0: State, run: seq<Event>, i: nat, k: nat, ctx: nat)
    requires i < k <= |run| && run[i] == PinToPrimary(ctx)
    ensures var was, s := Run(s0, run[..i]), Run(s0, run[..k]);
      && PinOf(s, ctx).forcePrimary
      && forall id | id in s.queries && id !in was.queries && s.queries[id].ctx == ctx ::
           s.queries[id].route == ToPrimary
    decreases k
  {
    hide Step;
    assert run[..k][..k - 1] == run[..k - 1];
    if i + 1 == k {
      PrimaryPinned(Run(s0, run[..i]), ctx);
    } else {
      PrimaryPinSticks(s0, run, i, k - 1, ctx);
      PrimaryStays(Run(s0, run[..k - 1]), run[k - 1], ctx);
    }
  }

  lemma PrimaryPinned(s: State, ctx: nat)
    ensures PinOf(Step(s, PinToPrimary(ctx)), ctx).forcePrimary
    ensures Step(s, PinToPrimary(ctx)).queries == s.queries
  {
  }

  lemma PrimaryStays(s: State, e: Event, ctx: nat)
    requires PinOf(s, ctx).forcePrimary
    ensures PinOf(Step(s, e), ctx).forcePrimary
    ensures forall id | id in Step(s, e).queries && Step(s, e).queries[id].ctx == ctx ::
      if id in s.queries then s.queries[id].ctx == ctx && s.queries[id].route == Step(s, e).queries[id].route
      else Step(s, e).queries[id].route == ToPrimary
  {
    hide Scan, SeenOf;
  }

  /** A transaction that was rolled back is never seen, by any read, at any time. */
  lemma RolledBackIsNeverSeen(s0: State, run: seq<Event>, tx: nat, id: nat)
    requires Init(s0)
    requires var s := Run(s0, run);
      tx in s.txs && s.txs[tx] == Gone && id in s.queries && s.queries[id].saw.Some?
    ensures var s := Run(s0, run);
      s.queries[id].saw.value <= |s.wal| && Commit(tx) !in s.wal[..s.queries[id].saw.value]
  {
    RunKeeps(s0, run);
    assert ReadOk(Run(s0, run), Run(s0, run).queries[id]);
  }
}
