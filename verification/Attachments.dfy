/** Files on issues: rows in the database, bytes in a store, and tombstones for bytes whose row is
    gone. Every step may be the last one before a crash, and the store may fail at any of them. */
module Attachments {
  import opened Wrappers

  type Key = nat

  /** An upload under way: its row is written in a transaction not yet committed, and its bytes may be stored. */
  datatype Upload = RowWritten | BytesStored

  /** Rows and tombstones are the committed ones, objects what the store holds. `ended` are the keys
      of uploads that will never commit, `gone` those whose row was removed. Somebody has set out to
      remove the objects of `reaping`, and was told by the store that those of `removed` went. */
  datatype State = State(
    rows: set<Key>,
    tombstones: set<Key>,
    objects: set<Key>,
    uploads: map<Key, Upload>,
    ended: set<Key>,
    gone: set<Key>,
    reaping: set<Key>,
    removed: set<Key>)

  const EMPTY := State({}, {}, {}, map[], {}, {}, {}, {})

  /** An object's key holds its attachment's fresh id, so an upload never has a key that was used before. */
  predicate Unused(s: State, k: Key) {
    k !in s.rows && k !in s.uploads && k !in s.ended && k !in s.gone
  }

  datatype Step =
    | BeginUpload(k: Key)
    | PutBytes(k: Key)
    | PutFails(k: Key, landed: bool)
    | BytesLandLate(k: Key)
    | CommitUpload(k: Key)
    | AbandonUpload(k: Key)
    | DeleteRow(k: Key)
    | DropRow(k: Key)
    | CollectTombstones(ks: set<Key>)
    | RemoveObject(k: Key)
    | RemoveFails(k: Key, landed: bool)
    | ClearTombstone(k: Key)
    | GiveUp(k: Key)
    | Crash

  function Next(s: State, step: Step): State {
    match step
    case BeginUpload(k) =>
      if Unused(s, k) then s.(uploads := s.uploads[k := RowWritten]) else s
    case PutBytes(k) =>
      if k in s.uploads && s.uploads[k] == RowWritten then
        s.(uploads := s.uploads[k := BytesStored], objects := s.objects + {k})
      else s
    // A store that reports a failure may have kept the bytes; the transaction rolls back.
    case PutFails(k, landed) =>
      if k in s.uploads && s.uploads[k] == RowWritten then
        s.(uploads := s.uploads - {k}, ended := s.ended + {k}, objects := if landed then s.objects + {k} else s.objects)
      else s
    case BytesLandLate(k) =>
      if k in s.ended then s.(objects := s.objects + {k}) else s
    case CommitUpload(k) =>
      if k in s.uploads && s.uploads[k] == BytesStored then
        s.(uploads := s.uploads - {k}, rows := s.rows + {k})
      else s
    case AbandonUpload(k) =>
      if k in s.uploads then s.(uploads := s.uploads - {k}, ended := s.ended + {k}) else s
    // The row goes and the trigger leaves a tombstone, in one transaction; whoever removed it sets out to reap.
    case DeleteRow(k) =>
      if k in s.rows then
        s.(rows := s.rows - {k}, tombstones := s.tombstones + {k}, gone := s.gone + {k}, reaping := s.reaping + {k})
      else s
    // A row that goes with its issue leaves the same tombstone, for the reaper to find.
    case DropRow(k) =>
      if k in s.rows then s.(rows := s.rows - {k}, tombstones := s.tombstones + {k}, gone := s.gone + {k}) else s
    case CollectTombstones(ks) =>
      s.(reaping := s.reaping + (ks * s.tombstones))
    case RemoveObject(k) =>
      if k in s.reaping then s.(objects := s.objects - {k}, removed := s.removed + {k}) else s
    // A store that reports a failure may have removed the bytes.
    case RemoveFails(k, landed) =>
      if k in s.reaping && landed then s.(objects := s.objects - {k}) else s
    case ClearTombstone(k) =>
      if k in s.removed then s.(tombstones := s.tombstones - {k}) else s
    case GiveUp(k) =>
      s.(reaping := s.reaping - {k}, removed := s.removed - {k})
    // Nobody's work in progress survives; what was committed or stored does.
    case Crash =>
      s.(uploads := map[], ended := s.ended + s.uploads.Keys, reaping := {}, removed := {})
  }

  function Run(s: State, steps: seq<Step>): State
    decreases |steps|
  {
    if steps == [] then s else Next(Run(s, steps[..|steps| - 1]), steps[|steps| - 1])
  }

  lemma {:induction false} RunAppend(s: State, p: seq<Step>, q: seq<Step>)
    ensures Run(s, p + q) == Run(Run(s, p), q)
    decreases |q|
  {
    if q == [] {
      assert p + q == p;
    } else {
      assert (p + q)[..|p + q| - 1] == p + q[..|q| - 1];
      RunAppend(s, p, q[..|q| - 1]);
    }
  }

  // ---- What every step keeps ----

  /** A key is in one stage of its life at a time. */
  ghost predicate OneStage(s: State) {
    && s.rows !! s.uploads.Keys !! s.ended !! s.gone
    && s.tombstones <= s.gone && s.reaping <= s.gone && s.removed <= s.reaping
  }

  ghost predicate Stored(s: State) {
    && s.rows <= s.objects
    && (forall k | k in s.uploads && s.uploads[k] == BytesStored :: k in s.objects)
    && s.removed !! s.objects
  }

  /** Every object is a row's, a tombstone's, an upload's under way, or an orphan of an upload that
      never committed. */
  ghost predicate Explained(s: State) {
    s.objects <= s.rows + s.tombstones + s.uploads.Keys + s.ended
  }

  ghost predicate Inv(s: State) {
    OneStage(s) && Stored(s) && Explained(s)
  }

  lemma NextKeeps(s: State, step: Step)
    requires Inv(s)
    ensures Inv(Next(s, step))
  {
    NextKeepsStage(s, step);
    NextKeepsStored(s, step);
    NextKeepsExplained(s, step);
  }

  lemma NextKeepsStage(s: State, step: Step)
    requires OneStage(s)
    ensures OneStage(Next(s, step))
  {
  }

  lemma NextKeepsStored(s: State, step: Step)
    requires OneStage(s) && Stored(s)
    ensures Stored(Next(s, step))
  {
  }

  lemma NextKeepsExplained(s: State, step: Step)
    requires Inv(s)
    ensures Explained(Next(s, step))
  {
  }

  lemma {:induction false} RunKeeps(s: State, steps: seq<Step>)
    requires Inv(s)
    ensures Inv(Run(s, steps))
    decreases |steps|
  {
    hide Inv, Next;
    if steps != [] {
      RunKeeps(s, steps[..|steps| - 1]);
      NextKeeps(Run(s, steps[..|steps| - 1]), steps[|steps| - 1]);
    }
  }

  /** Whatever happens, in whatever order, with a crash after any step: every committed row has
      its object, every object is accounted for, and nobody is ever out to remove a live row's. */
  lemma NoBrokenLinks(steps: seq<Step>)
    ensures var s := Run(EMPTY, steps);
      && s.rows <= s.objects
      && s.objects <= s.rows + s.tombstones + s.uploads.Keys + s.ended
      && s.reaping !! s.rows
  {
    RunKeeps(EMPTY, steps);
  }

  /** Removing an object, told or untold, never touches a live row's. */
  lemma RemovalSparesRows(steps: seq<Step>, step: Step)
    requires step.RemoveObject? || step.RemoveFails?
    ensures var s := Run(EMPTY, steps);
      Next(s, step).rows == s.rows && s.rows <= Next(s, step).objects
  {
    RunKeeps(EMPTY, steps);
    NextKeeps(Run(EMPTY, steps), step);
  }

  /** An object whose row is gone keeps its tombstone for as long as it is in the store. */
  lemma TombstoneOutlivesObject(steps: seq<Step>, k: Key)
    requires var s := Run(EMPTY, steps); k in s.gone && k in s.objects
    ensures k in Run(EMPTY, steps).tombstones
  {
    RunKeeps(EMPTY, steps);
  }

  /** With no tombstone left, the store holds the rows' objects, those of uploads under way, and
      orphans of uploads that never committed; with none of those either, exactly the rows'. */
  lemma NothingLeftBehind(steps: seq<Step>)
    requires Run(EMPTY, steps).tombstones == {}
    ensures var s := Run(EMPTY, steps);
      && s.objects <= s.rows + s.uploads.Keys + s.ended
      && (s.uploads == map[] && s.ended * s.objects == {} ==> s.objects == s.rows)
  {
    RunKeeps(EMPTY, steps);
  }

  // ---- The service, statement by statement ----

  datatype Refusal = TooLarge | EmptyFile | NotFound | StoreRefused | DatabaseRefused

  /** How the store, or the database for a commit, answers; and whether what it was asked had effect
      when it answers with a failure, or its answer is lost. */
  datatype Answer = Works | Fails(landed: bool)

  predicate Landed(a: Answer) {
    a.Works? || a.landed
  }

  class Service {
    const maxSize: nat
    var rows: set<Key>
    /** Tombstones, oldest first. */
    var tombstones: seq<Key>
    var objects: set<Key>
    ghost var uploads: map<Key, Upload>
    ghost var ended: set<Key>
    ghost var gone: set<Key>
    ghost var reaping: set<Key>
    ghost var removed: set<Key>

    ghost function View(): State
      reads this
    {
      State(rows, (set k | k in tombstones), objects, uploads, ended, gone, reaping, removed)
    }

    ghost predicate Valid()
      reads this
    {
      Inv(View()) && forall i, j | 0 <= i < j < |tombstones| :: tombstones[i] != tombstones[j]
    }

    constructor (maxSize: nat)
      ensures Valid() && View() == EMPTY && this.maxSize == maxSize
    {
      this.maxSize := maxSize;
      rows, tombstones, objects := {}, [], {};
      uploads, ended, gone, reaping, removed := map[], {}, {}, {}, {};
    }

    /** A row is there afterwards exactly when its bytes were stored and its commit landed, and the
        caller is told of success only then; a failed upload leaves at most bytes without a row. */
    method Upload(k: Key, size: nat, put: Answer, rest: bool, commit: Answer) returns (r: Option<Refusal>)
      requires Valid() && Unused(View(), k)
      modifies this
      ensures Valid()
      ensures r.None? <==> 0 < size <= maxSize && put.Works? && rest && commit.Works?
      ensures View() == Run(old(View()),
        UploadSteps(k, 0 < size <= maxSize, put, rest && Landed(commit)))
      ensures rows == old(rows)
        + if 0 < size <= maxSize && put.Works? && rest && commit != Fails(false) then {k} else {}
      ensures objects == old(objects) + if 0 < size <= maxSize && put != Fails(false) then {k} else {}
      ensures tombstones == old(tombstones)
      ensures (r == Some(TooLarge) <==> size > maxSize) && (r == Some(EmptyFile) <==> size == 0)
      ensures r == Some(StoreRefused) <==> 0 < size <= maxSize && put.Fails?
      ensures r != Some(NotFound)
    {
      ghost var s0 := View();
      hide Inv, Next, Run, UploadSteps;
      UploadIs(s0, k, 0 < size <= maxSize, put, rest && Landed(commit));
      if size > maxSize {
        return Some(TooLarge);
      }
      if size == 0 {
        return Some(EmptyFile);
      }
      uploads := uploads[k := RowWritten];
      if put.Fails? {
        if put.landed {
          objects := objects + {k};
        }
        uploads, ended := uploads - {k}, ended + {k};
        assert uploads == s0.uploads;
        return Some(StoreRefused);
      }
      objects := objects + {k};
      uploads := uploads[k := BytesStored];
      if !rest || !Landed(commit) {
        uploads, ended := uploads - {k}, ended + {k};
        assert uploads == s0.uploads;
        return Some(DatabaseRefused);
      }
      rows := rows + {k};
      uploads := uploads - {k};
      assert uploads == s0.uploads;
      return if commit.Works? then None else Some(DatabaseRefused);
    }

    /** Leaves no object without its tombstone: the tombstone goes only when the store has said
        that the object did. */
    method Reap(k: Key, answer: Answer, cleared: Answer) returns (ok: bool)
      requires Valid() && k in reaping
      modifies this
      ensures Valid()
      ensures rows == old(rows)
      ensures ok <==> answer.Works? && cleared.Works?
      ensures View() == Run(old(View()), ReapSteps(k, answer, cleared))
      ensures tombstones == if answer.Works? && cleared != Fails(false) then Without(old(tombstones), k)
        else old(tombstones)
      ensures objects == old(objects) - if answer != Fails(false) then {k} else {}
      ensures reaping == old(reaping) - {k}
    {
      hide Inv, Without, Run, Next, ReapSteps;
      ReapIs(View(), k, answer, cleared);
      WithoutMembers(tombstones, k);
      if answer.Fails? {
        if answer.landed {
          objects := objects - {k};
        }
        reaping, removed := reaping - {k}, removed - {k};
        return false;
      }
      objects := objects - {k};
      if Landed(cleared) {
        tombstones := Without(tombstones, k);
        assert (set x | x in tombstones) == (set x | x in old(tombstones)) - {k};
      }
      reaping, removed := reaping - {k}, removed - {k};
      assert View() == Run(old(View()), ReapSteps(k, answer, cleared));
      return cleared.Works?;
    }

    /** Once the row is gone, its object is either gone too or still has a tombstone, whatever the
        store and the database answer. */
    method Delete(k: Key, commit: Answer, answer: Answer, cleared: Answer) returns (r: Option<Refusal>)
      requires Valid()
      modifies this
      ensures Valid()
      ensures View() == Run(old(View()),
        if k !in old(rows) || !Landed(commit) then []
        else if commit.Fails? then [DropRow(k)]
        else [DeleteRow(k)] + ReapSteps(k, answer, cleared))
      ensures r == (if k !in old(rows) then Some(NotFound) else if commit.Fails? then Some(DatabaseRefused) else None)
      ensures rows == old(rows) - if commit != Fails(false) then {k} else {}
      ensures objects == old(objects) - if r.None? && answer != Fails(false) then {k} else {}
      ensures k in old(rows) && Landed(commit) ==> k !in rows && (k in objects ==> k in tombstones)
      ensures tombstones == old(tombstones)
        + if k in old(rows) && commit != Fails(false) && !(r.None? && answer.Works? && cleared != Fails(false))
          then [k] else []
    {
      if k !in rows {
        return Some(NotFound);
      }
      if !Landed(commit) {
        return Some(DatabaseRefused);
      }
      hide Inv, Next, Run, ReapSteps, Without;
      ghost var s0 := View();
      RowGoes(s0, tombstones, k);
      rows := rows - {k};
      tombstones := tombstones + [k];
      gone := gone + {k};
      if commit.Fails? {
        assert View() == Run(s0, [DropRow(k)]);
        return Some(DatabaseRefused);
      }
      reaping := reaping + {k};
      assert View() == Run(s0, [DeleteRow(k)]);
      WithoutMembers(tombstones, k);
      WithoutLast(old(tombstones), k);
      var ok := Reap(k, answer, cleared);
      RunAppend(s0, [DeleteRow(k)], ReapSteps(k, answer, cleared));
      return None;
    }

    /** Takes out of the oldest batch of tombstones exactly those whose objects and rows went, keeps
        the others in place, and counts the ones it was told of; the whole batch when nothing fails. */
    method Once(answers: seq<Answer>, cleared: seq<Answer>) returns (count: nat)
      requires Valid() && |answers| == |cleared| == if |tombstones| <= 200 then |tombstones| else 200
      modifies this
      ensures Valid()
      ensures var keys := old(tombstones)[..|answers|];
        && View() == Run(old(View()), [CollectTombstones(Keys(keys))] + ReapAll(keys, answers, cleared))
        && tombstones == Remaining(old(tombstones), keys, answers, cleared)
      ensures Kept(old(tombstones), tombstones, old(tombstones)[..|answers|], answers, cleared)
      ensures forall x :: x in objects <==>
        x in old(objects) && forall i | 0 <= i < |answers| && old(tombstones)[i] == x :: answers[i] == Fails(false)
      ensures rows == old(rows)
      ensures count == |set i | 0 <= i < |answers| && answers[i].Works? && cleared[i].Works?|
      ensures (forall i | 0 <= i < |answers| :: answers[i].Works? && cleared[i].Works?) ==>
        tombstones == old(tombstones)[|answers|..] && count == |answers|
    {
      hide Inv, Next, Run, ReapSteps, ReapAll, Without, Remaining, Successes, Keys, Kept;
      StartBatch(tombstones, View());
      ghost var was, s0 := tombstones, View();
      var keys := tombstones[..|answers|];
      Collect(s0, was, |answers|);
      reaping := reaping + Keys(keys);
      ghost var s1 := View();
      count := 0;
      for i := 0 to |keys|
        invariant Valid()
        invariant forall j | i <= j < |keys| :: keys[j] in reaping
        invariant View() == Run(s1, ReapAll(keys[..i], answers[..i], cleared[..i]))
        invariant tombstones == Remaining(was, keys[..i], answers[..i], cleared[..i])
        invariant count == Successes(answers[..i], cleared[..i])
        invariant forall x :: x in objects <==>
          x in old(objects) && forall j | 0 <= j < i && keys[j] == x :: answers[j] == Fails(false)
        invariant rows == old(rows)
      {
        var ok := Reap(keys[i], answers[i], cleared[i]);
        NextInBatch(was, s1, keys, answers, cleared, i);
        if !ok {
          continue;
        }
        count := count + 1;
      }
      assert keys[..|keys|] == keys && answers[..|keys|] == answers && cleared[..|keys|] == cleared;
      RunAppend(s0, [CollectTombstones(Keys(keys))], ReapAll(keys, answers, cleared));
      SuccessesAre(answers, cleared);
      RemainingKept(was, keys, answers, cleared);
      if forall i | 0 <= i < |answers| :: answers[i].Works? && cleared[i].Works? {
        RemainingAll(was, |answers|, answers, cleared);
      }
    }
  }

  function Keys(keys: seq<Key>): set<Key> {
    set k | k in keys
  }

  /** Removing a batch, one key after another. */
  function ReapAll(keys: seq<Key>, answers: seq<Answer>, cleared: seq<Answer>): seq<Step>
    requires |keys| == |answers| == |cleared|
    decreases |keys|
  {
    if keys == [] then []
    else
      var n := |keys| - 1;
      ReapAll(keys[..n], answers[..n], cleared[..n]) + ReapSteps(keys[n], answers[n], cleared[n])
  }

  /** Whether an object went and its tombstone with it. */
  predicate Went(answer: Answer, cleared: Answer) {
    answer.Works? && Landed(cleared)
  }

  function ReapSteps(k: Key, answer: Answer, cleared: Answer): seq<Step> {
    if answer.Fails? then [RemoveFails(k, answer.landed), GiveUp(k)]
    else if !Landed(cleared) then [RemoveObject(k), GiveUp(k)]
    else [RemoveObject(k), ClearTombstone(k), GiveUp(k)]
  }

  /** What removing one object and its tombstone comes to. */
  lemma ReapIs(s: State, k: Key, answer: Answer, cleared: Answer)
    requires Inv(s) && k in s.reaping
    ensures var s' := s.(
        objects := if answer == Fails(false) then s.objects else s.objects - {k},
        tombstones := if Went(answer, cleared) then s.tombstones - {k} else s.tombstones,
        reaping := s.reaping - {k}, removed := s.removed - {k});
      Run(s, ReapSteps(k, answer, cleared)) == s' && Inv(s')
  {
    hide Inv, Run;
    if answer.Fails? {
      Two(s, RemoveFails(k, answer.landed), GiveUp(k));
    } else if !Landed(cleared) {
      Two(s, RemoveObject(k), GiveUp(k));
    } else {
      Three(s, RemoveObject(k), ClearTombstone(k), GiveUp(k));
    }
  }

  function Without(ts: seq<Key>, k: Key): seq<Key> {
    if ts == [] then [] else (if ts[0] == k then [] else [ts[0]]) + Without(ts[1..], k)
  }

  lemma {:induction false} WithoutMembers(ts: seq<Key>, k: Key)
    requires forall i, j | 0 <= i < j < |ts| :: ts[i] != ts[j]
    ensures var r := Without(ts, k);
      && (forall x :: x in r <==> x in ts && x != k)
      && (forall i, j | 0 <= i < j < |r| :: r[i] != r[j])
  {
    if ts != [] {
      WithoutMembers(ts[1..], k);
      assert ts == [ts[0]] + ts[1..];
      assert ts[0] !in ts[1..];
    }
  }

  lemma {:induction false} WithoutAbsent(ts: seq<Key>, k: Key)
    requires k !in ts
    ensures Without(ts, k) == ts
  {
    if ts != [] {
      assert ts[0] in ts && forall x | x in ts[1..] :: x in ts;
      WithoutAbsent(ts[1..], k);
    }
  }

  lemma {:induction false} WithoutLast(ts: seq<Key>, k: Key)
    requires k !in ts
    ensures Without(ts + [k], k) == ts
  {
    if ts == [] {
      assert [] + [k] == [k];
    } else {
      assert ts[0] in ts && forall x | x in ts[1..] :: x in ts;
      assert (ts + [k])[1..] == ts[1..] + [k];
      WithoutLast(ts[1..], k);
    }
  }

  /** One key comes before another in a list. */
  ghost predicate Before(ts: seq<Key>, x: Key, y: Key) {
    exists i, j :: 0 <= i < j < |ts| && ts[i] == x && ts[j] == y
  }

  lemma BeforeFirst(ts: seq<Key>, x: Key, y: Key)
    requires ts != []
    ensures Before(ts, x, y) <==> (ts[0] == x && y in ts[1..]) || Before(ts[1..], x, y)
  {
    if ts[0] == x && y in ts[1..] {
      var j :| 0 <= j < |ts[1..]| && ts[1..][j] == y;
      assert ts[0] == x && ts[j + 1] == y;
    } else if Before(ts[1..], x, y) {
      var i, j :| 0 <= i < j < |ts[1..]| && ts[1..][i] == x && ts[1..][j] == y;
      assert ts[i + 1] == x && ts[j + 1] == y;
    }
    if Before(ts, x, y) {
      var i, j :| 0 <= i < j < |ts| && ts[i] == x && ts[j] == y;
      assert ts[1..][j - 1] == y;
      if i > 0 {
        assert ts[1..][i - 1] == x;
      }
    }
  }

  lemma {:induction false} WithoutInOrder(ts: seq<Key>, k: Key, x: Key, y: Key)
    ensures x in Without(ts, k) <==> x in ts && x != k
    ensures Before(Without(ts, k), x, y) <==> Before(ts, x, y) && x != k && y != k
  {
    hide Before;
    if ts == [] {
      NothingBefore(x, y);
    } else {
      var rest := Without(ts[1..], k);
      WithoutInOrder(ts[1..], k, x, y);
      WithoutInOrder(ts[1..], k, y, x);
      BeforeFirst(ts, x, y);
      assert ts == [ts[0]] + ts[1..];
      if ts[0] != k {
        assert ([ts[0]] + rest)[1..] == rest;
        BeforeFirst([ts[0]] + rest, x, y);
      } else {
        assert Without(ts, k) == rest;
      }
    }
  }

  lemma NothingBefore(x: Key, y: Key)
    ensures !Before([], x, y)
  {
  }

  /** Whether a key is one of a batch whose object went and whose tombstone was cleared. */
  ghost predicate Cleared(keys: seq<Key>, answers: seq<Answer>, cleared: seq<Answer>, k: Key)
    requires |keys| == |answers| == |cleared|
  {
    exists i | 0 <= i < |keys| :: keys[i] == k && answers[i].Works? && cleared[i] != Fails(false)
  }

  /** The tombstones kept are those not cleared, in the order they were in. */
  ghost predicate Kept(
    ts: seq<Key>, left: seq<Key>, keys: seq<Key>, answers: seq<Answer>, cleared: seq<Answer>)
    requires |keys| == |answers| == |cleared|
  {
    && (forall x :: x in left <==> x in ts && !Cleared(keys, answers, cleared, x))
    && (forall x, y :: Before(left, x, y)
          <==> Before(ts, x, y) && !Cleared(keys, answers, cleared, x) && !Cleared(keys, answers, cleared, y))
  }

  lemma RemainingKept(ts: seq<Key>, keys: seq<Key>, answers: seq<Answer>, cleared: seq<Answer>)
    requires |keys| == |answers| == |cleared|
    ensures Kept(ts, Remaining(ts, keys, answers, cleared), keys, answers, cleared)
  {
    hide Before, Remaining, Cleared;
    var left := Remaining(ts, keys, answers, cleared);
    forall x
      ensures x in left <==> x in ts && !Cleared(keys, answers, cleared, x)
    {
      RemainingIs(ts, keys, answers, cleared, x, x);
    }
    forall x, y
      ensures Before(left, x, y)
        <==> Before(ts, x, y) && !Cleared(keys, answers, cleared, x) && !Cleared(keys, answers, cleared, y)
    {
      RemainingIs(ts, keys, answers, cleared, x, y);
    }
  }

  /** What is left after a batch: every tombstone not cleared, in the order they were in. */
  lemma {:induction false} RemainingIs(
    ts: seq<Key>, keys: seq<Key>, answers: seq<Answer>, cleared: seq<Answer>, x: Key, y: Key)
    requires |keys| == |answers| == |cleared|
    ensures var left := Remaining(ts, keys, answers, cleared);
      && (x in left <==> x in ts && !Cleared(keys, answers, cleared, x))
      && (Before(left, x, y)
          <==> Before(ts, x, y) && !Cleared(keys, answers, cleared, x) && !Cleared(keys, answers, cleared, y))
    decreases |keys|
  {
    hide Before, Without, Cleared;
    ClearedNext(keys, answers, cleared, x);
    ClearedNext(keys, answers, cleared, y);
    if keys != [] {
      var n := |keys| - 1;
      RemainingIs(ts, keys[..n], answers[..n], cleared[..n], x, y);
      WithoutInOrder(Remaining(ts, keys[..n], answers[..n], cleared[..n]), keys[n], x, y);
    }
  }

  lemma ClearedNext(keys: seq<Key>, answers: seq<Answer>, cleared: seq<Answer>, k: Key)
    requires |keys| == |answers| == |cleared|
    ensures keys == [] ==> !Cleared(keys, answers, cleared, k)
    ensures keys != [] ==>
      var n := |keys| - 1;
      (Cleared(keys, answers, cleared, k) <==>
         Cleared(keys[..n], answers[..n], cleared[..n], k) || (keys[n] == k && Went(answers[n], cleared[n])))
  {
    if keys != [] {
      var n := |keys| - 1;
      assert forall i | 0 <= i < n ::
        keys[..n][i] == keys[i] && answers[..n][i] == answers[i] && cleared[..n][i] == cleared[i];
    }
  }

  lemma {:induction false} SuccessesAre(answers: seq<Answer>, cleared: seq<Answer>)
    requires |answers| == |cleared|
    ensures Successes(answers, cleared) == |set i | 0 <= i < |answers| && answers[i].Works? && cleared[i].Works?|
    decreases |answers|
  {
    var told := set i | 0 <= i < |answers| && answers[i].Works? && cleared[i].Works?;
    if answers == [] {
      assert told == {};
    } else {
      var n := |answers| - 1;
      SuccessesAre(answers[..n], cleared[..n]);
      var before := set i | 0 <= i < n && answers[..n][i].Works? && cleared[..n][i].Works?;
      assert told == before + if answers[n].Works? && cleared[n].Works? then {n} else {};
    }
  }

  /** The tombstones left after a batch: those whose object or row of its own could not be removed, and
      those past the batch. */
  function Remaining(ts: seq<Key>, keys: seq<Key>, answers: seq<Answer>, cleared: seq<Answer>): seq<Key>
    requires |keys| == |answers| == |cleared|
    decreases |keys|
  {
    if keys == [] then ts
    else
      var n := |keys| - 1;
      var left := Remaining(ts, keys[..n], answers[..n], cleared[..n]);
      if Went(answers[n], cleared[n]) then Without(left, keys[n]) else left
  }

  function Successes(answers: seq<Answer>, cleared: seq<Answer>): nat
    requires |answers| == |cleared|
    decreases |answers|
  {
    if answers == [] then 0
    else
      var n := |answers| - 1;
      Successes(answers[..n], cleared[..n]) + if answers[n].Works? && cleared[n].Works? then 1 else 0
  }

  /** Setting out to remove the oldest tombstones' objects. */
  lemma Collect(s: State, ts: seq<Key>, n: nat)
    requires Inv(s) && n <= |ts| && s.tombstones == Keys(ts)
    ensures var s' := s.(reaping := s.reaping + Keys(ts[..n]));
      Run(s, [CollectTombstones(Keys(ts[..n]))]) == s' && Inv(s')
    ensures forall k | k in ts[..n] :: k in Keys(ts[..n])
  {
    hide Inv, Run;
    One(s, CollectTombstones(Keys(ts[..n])));
    assert Keys(ts[..n]) * s.tombstones == Keys(ts[..n]);
  }

  function UploadSteps(k: Key, sized: bool, put: Answer, kept: bool): seq<Step> {
    if !sized then []
    else if put.Fails? then [BeginUpload(k), PutFails(k, put.landed)]
    else [BeginUpload(k), PutBytes(k), if kept then CommitUpload(k) else AbandonUpload(k)]
  }

  /** What an upload comes to. */
  lemma UploadIs(s: State, k: Key, sized: bool, put: Answer, kept: bool)
    requires Inv(s) && Unused(s, k)
    ensures var kept' := put.Works? && kept;
      var s' := s.(
        rows := if kept' then s.rows + {k} else s.rows,
        objects := if Landed(put) then s.objects + {k} else s.objects,
        ended := if kept' then s.ended else s.ended + {k});
      Run(s, UploadSteps(k, sized, put, kept)) == (if sized then s' else s)
      && Inv(if sized then s' else s)
  {
    hide Inv;
    if sized {
      hide Run;
      if put.Fails? {
        Two(s, BeginUpload(k), PutFails(k, put.landed));
        assert s.uploads[k := RowWritten] - {k} == s.uploads;
      } else {
        Three(s, BeginUpload(k), PutBytes(k), if kept then CommitUpload(k) else AbandonUpload(k));
        assert s.uploads[k := RowWritten][k := BytesStored] - {k} == s.uploads;
      }
    }
  }

  /** A row that goes leaves a tombstone it did not have, and may be set out for. */
  lemma RowGoes(s: State, ts: seq<Key>, k: Key)
    requires Inv(s) && k in s.rows && s.tombstones == set x | x in ts
    ensures k !in ts && (set x | x in ts + [k]) == s.tombstones + {k}
    ensures var s' := s.(rows := s.rows - {k}, tombstones := s.tombstones + {k}, gone := s.gone + {k});
      && Run(s, [DropRow(k)]) == s' && Inv(s')
      && Run(s, [DeleteRow(k)]) == s'.(reaping := s.reaping + {k}) && Inv(s'.(reaping := s.reaping + {k}))
  {
    hide Run;
    One(s, DropRow(k));
    One(s, DeleteRow(k));
    assert k !in s.tombstones;
  }

  lemma StartBatch(ts: seq<Key>, s: State)
    ensures Remaining(ts, [], [], []) == ts && Successes([], []) == 0
    ensures forall t :: Run(t, ReapAll([], [], [])) == t
    ensures Keys(ts) == set k | k in ts
  {
  }

  lemma NextInBatch(ts: seq<Key>, s: State, keys: seq<Key>, answers: seq<Answer>, cleared: seq<Answer>, i: nat)
    requires |keys| == |answers| == |cleared| && i < |keys|
    ensures var left := Remaining(ts, keys[..i], answers[..i], cleared[..i]);
      var done := Successes(answers[..i], cleared[..i]);
      var ok := answers[i].Works? && cleared[i].Works?;
      && Remaining(ts, keys[..i + 1], answers[..i + 1], cleared[..i + 1])
           == (if Went(answers[i], cleared[i]) then Without(left, keys[i]) else left)
      && Successes(answers[..i + 1], cleared[..i + 1]) == done + if ok then 1 else 0
    ensures Run(s, ReapAll(keys[..i + 1], answers[..i + 1], cleared[..i + 1]))
      == Run(Run(s, ReapAll(keys[..i], answers[..i], cleared[..i])), ReapSteps(keys[i], answers[i], cleared[i]))
  {
    hide Run, ReapSteps, Without;
    assert keys[..i + 1][..i] == keys[..i];
    assert answers[..i + 1][..i] == answers[..i] && cleared[..i + 1][..i] == cleared[..i];
    RunAppend(s, ReapAll(keys[..i], answers[..i], cleared[..i]), ReapSteps(keys[i], answers[i], cleared[i]));
  }

  lemma {:induction false} RemainingAll(ts: seq<Key>, n: nat, answers: seq<Answer>, cleared: seq<Answer>)
    requires forall i, j | 0 <= i < j < |ts| :: ts[i] != ts[j]
    requires n <= |ts| && |answers| == |cleared| == n
    requires forall i | 0 <= i < n :: answers[i].Works? && cleared[i].Works?
    ensures Remaining(ts, ts[..n], answers, cleared) == ts[n..] && Successes(answers, cleared) == n
    decreases n
  {
    if n > 0 {
      var m := n - 1;
      RemainingAll(ts, m, answers[..m], cleared[..m]);
      assert ts[..n][..m] == ts[..m];
      assert ts[m..][1..] == ts[n..] && ts[m..][0] == ts[m];
      WithoutAbsent(ts[n..], ts[m]);
    }
  }

  lemma One(s: State, a: Step)
    requires Inv(s)
    ensures Run(s, [a]) == Next(s, a) && Inv(Next(s, a))
  {
    hide Next, Inv;
    NextKeeps(s, a);
    assert [a][..0] == [];
  }

  lemma Two(s: State, a: Step, b: Step)
    requires Inv(s)
    ensures Run(s, [a, b]) == Next(Next(s, a), b) && Inv(Next(Next(s, a), b))
  {
    hide Next, Inv;
    NextKeeps(s, a);
    NextKeeps(Next(s, a), b);
    assert [a, b][..1] == [a] && [a][..0] == [];
    assert Run(s, [a]) == Next(s, a);
  }

  lemma Three(s: State, a: Step, b: Step, c: Step)
    requires Inv(s)
    ensures Run(s, [a, b, c]) == Next(Next(Next(s, a), b), c) && Inv(Next(Next(Next(s, a), b), c))
  {
    hide Next, Inv;
    Two(s, a, b);
    NextKeeps(Next(Next(s, a), b), c);
    assert [a, b, c][..2] == [a, b];
    assert Run(s, [a, b, c]) == Next(Run(s, [a, b]), c);
  }
}
