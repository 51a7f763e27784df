/** The automation runner: events delivered at least once, a run claimed per rule and event, and
    a cap on how often a rule acts in an hour. Runs are handled one at a time. */
module Runner {
  import opened Wrappers
  import Text

  // Times are in seconds.
  const HOUR := 3600

  datatype Outcome = Running | Done | Skipped | Failed | Capped

  type RuleId = nat
  type EventId = nat

  /** What may start a rule. */
  datatype Kind = IssueCreated | IssueTransitioned | IssueUpdated | CommentAdded | SlaBreached | Scheduled | Incoming

  /** A rule; it watches every project when it names none, and `field` narrows an update trigger
      to one field when it is not empty. */
  datatype Rule = Rule(
    id: RuleId, enabled: bool, kind: Kind, project: Option<nat>, allowOwnEvents: bool, hourlyCap: nat, field: string)

  /** What an event is about: one rule, named by the clock, a call or a person; an issue, with its
      project when there is such an issue; or nothing that can be read. */
  datatype Source =
    | ForRule(rule: Option<RuleId>)
    | OnIssue(kind: Option<Kind>, keyed: bool, imported: bool, project: Option<nat>)
    | Malformed

  /** An event; `byAutomation` says the automation account caused it. */
  datatype Event = Event(id: EventId, byAutomation: bool, changes: seq<string>, source: Source)

  /** Whether an event is considered for a rule: a rule that is named runs even when it is
      switched off, and an issue that arrives from a file starts none. */
  predicate Starts(r: Rule, source: Source) {
    match source
    case ForRule(rule) => rule == Some(r.id)
    case OnIssue(kind, keyed, imported, project) =>
      keyed && !imported && kind == Some(r.kind) && r.enabled && (r.project.None? || r.project == project)
    case Malformed => false
  }

  /** The rules an event could start, in the order they are kept. */
  function Selected(rules: seq<Rule>, source: Source): (found: seq<Rule>)
    ensures forall r :: r in found <==> r in rules && Starts(r, source)
  {
    if rules == [] then []
    else
      assert rules == [rules[0]] + rules[1..];
      (if Starts(rules[0], source) then [rules[0]] else []) + Selected(rules[1..], source)
  }

  /** They keep the order of the rules, and a rule is among them by what it is itself. */
  lemma {:induction false} SelectedInOrder(a: seq<Rule>, b: seq<Rule>, source: Source)
    ensures Selected(a + b, source) == Selected(a, source) + Selected(b, source)
  {
    if a == [] {
      assert a + b == b;
    } else {
      assert (a + b)[1..] == a[1..] + b;
      SelectedInOrder(a[1..], b, source);
    }
  }

  predicate Narrowed(r: Rule) {
    r.kind == IssueUpdated && r.field != ""
  }

  /** What the query or the conditions said, and whether every action went well when they were taken. */
  datatype Tests = CannotTell | No | Act(ok: bool)

  /** When a run was claimed, when it counted the hour's runs, and when it asked whether the cap
      was told; and whether the database answered the count and the question. */
  datatype Clock = Clock(claimed: int, counted: int, asked: int, countRead: bool, askRead: bool)

  datatype Key = Key(rule: RuleId, event: EventId)

  datatype Row = Row(started: int, outcome: Outcome)

  type Log = map<Key, Row>

  predicate Counts(o: Outcome) {
    o == Done || o == Failed
  }

  function Recent(log: Log, key: Key, at: int): set<Key> {
    set k | k in log && k.rule == key.rule && k != key && log[k].started > at - HOUR && Counts(log[k].outcome)
  }

  function Told(log: Log, key: Key, at: int): set<Key> {
    set k | k in log && k.rule == key.rule && k != key && log[k].started > at - HOUR && log[k].outcome == Capped
  }

  predicate Changed(field: string, changes: seq<string>) {
    exists i | 0 <= i < |changes| :: Text.SameFold(changes[i], field)
  }

  /** What a run is left as: running, when its count could not be made; none when the cap was already
      told and its row goes. */
  function Judge(log: Log, r: Rule, e: Event, c: Clock, t: Tests): Option<Outcome> {
    var key := Key(r.id, e.id);
    if e.byAutomation && !r.allowOwnEvents then Some(Skipped)
    else if !c.countRead then Some(Running)
    else if |Recent(log, key, c.counted)| >= r.hourlyCap then
      if c.askRead && Told(log, key, c.asked) != {} then None else Some(Capped)
    else if Narrowed(r) && !Changed(r.field, e.changes) then Some(Skipped)
    else
      match t
      case CannotTell => Some(Failed)
      case No => Some(Skipped)
      case Act(ok) => Some(if ok then Done else Failed)
  }

  /** Whether the actions are taken. */
  predicate Acts(log: Log, r: Rule, e: Event, c: Clock, t: Tests) {
    && Key(r.id, e.id) !in log
    && !(e.byAutomation && !r.allowOwnEvents)
    && c.countRead && |Recent(log, Key(r.id, e.id), c.counted)| < r.hourlyCap
    && !(Narrowed(r) && !Changed(r.field, e.changes))
    && t.Act?
  }

  function RunOne(log: Log, r: Rule, e: Event, c: Clock, t: Tests): Log {
    var key := Key(r.id, e.id);
    if key in log then log
    else
      match Judge(log, r, e, c, t)
      case None => log
      case Some(o) => log[key := Row(c.claimed, o)]
  }

  // ---- The same, condition by condition ----

  /** The runs of a rule that took its actions in the hour before a time. */
  ghost function HourOf(log: Log, rule: RuleId, at: int): set<Key> {
    set k | k in log && k.rule == rule && at < log[k].started + 3600 && log[k].outcome in {Done, Failed}
  }

  /** Whether a run in the hour before a time says the rule was capped. */
  ghost predicate ToldInHour(log: Log, rule: RuleId, at: int) {
    exists k | k in log :: k.rule == rule && at < log[k].started + 3600 && log[k].outcome == Capped
  }

  ghost predicate Untouched(r: Rule, e: Event) {
    r.kind == IssueUpdated && r.field != "" && forall c | c in e.changes :: !Text.SameFold(c, r.field)
  }

  /** A run stopped before it acts, by what stops it; `o` is what its row says, and no row is left of a cap
      told within the hour. */
  ghost predicate StopsAs(log: Log, r: Rule, e: Event, c: Clock, t: Tests, o: Option<Outcome>) {
    var own, capped := e.byAutomation && !r.allowOwnEvents, |HourOf(log, r.id, c.counted)| >= r.hourlyCap;
    && (own ==> o == Some(Skipped))
    && (!own && !c.countRead ==> o == Some(Running))
    && (!own && c.countRead && capped ==>
          o == if c.askRead && ToldInHour(log, r.id, c.asked) then None else Some(Capped))
    && (!own && c.countRead && !capped && Untouched(r, e) ==> o == Some(Skipped))
    && (!own && c.countRead && !capped && !Untouched(r, e) && t == No ==> o == Some(Skipped))
    && (!own && c.countRead && !capped && !Untouched(r, e) && t == CannotTell ==> o == Some(Failed))
  }

  /** A run acts exactly when it is the first for its rule and event, is not the automation's own doing,
      finds fewer than the cap in the hour, and its field and its tests say yes; its row tells whether that went
      well, or else what stopped it, from when it was claimed, and no other row changes. */
  lemma RunIs(log: Log, r: Rule, e: Event, c: Clock, t: Tests)
    ensures var key := Key(r.id, e.id);
      var log' := RunOne(log, r, e, c, t);
      && (Acts(log, r, e, c, t) <==>
            && key !in log && (e.byAutomation ==> r.allowOwnEvents)
            && c.countRead && |HourOf(log, r.id, c.counted)| < r.hourlyCap && !Untouched(r, e) && t.Act?)
      && (key in log ==> log' == log)
      && (key !in log ==> log' - {key} == log)
      && (Acts(log, r, e, c, t) ==> log' == log[key := Row(c.claimed, if t == Act(true) then Done else Failed)])
      && (key !in log && !Acts(log, r, e, c, t) ==>
            && StopsAs(log, r, e, c, t, if key in log' then Some(log'[key].outcome) else None)
            && (key in log' ==> log'[key].started == c.claimed))
  {
    hide Recent, Told, Changed, HourOf, ToldInHour;
    if Key(r.id, e.id) !in log {
      HourIs(log, Key(r.id, e.id), c.counted);
      HourIs(log, Key(r.id, e.id), c.asked);
      ChangedIs(r.field, e.changes);
    }
  }

  lemma HourIs(log: Log, key: Key, at: int)
    requires key !in log
    ensures Recent(log, key, at) == HourOf(log, key.rule, at)
    ensures Told(log, key, at) != {} <==> ToldInHour(log, key.rule, at)
  {
    if ToldInHour(log, key.rule, at) {
      var k :| k in log && k.rule == key.rule && at < log[k].started + 3600 && log[k].outcome == Capped;
      assert k in Told(log, key, at);
    }
  }

  lemma ChangedIs(field: string, changes: seq<string>)
    ensures Changed(field, changes) <==> !forall c | c in changes :: !Text.SameFold(c, field)
  {
    hide Text.SameFold;
    if Changed(field, changes) {
      var i :| 0 <= i < |changes| && Text.SameFold(changes[i], field);
      assert changes[i] in changes;
    }
  }

  /** An event names the rule, or is about an issue, not brought in from a file, in the way an enabled rule
      asks for, and in a project it watches. */
  ghost predicate Concerns(e: Event, r: Rule) {
    || e.source == ForRule(Some(r.id))
    || (&& e.source.OnIssue? && e.source.keyed && !e.source.imported
        && r.enabled && e.source.kind == Some(r.kind) && (r.project == None || r.project == e.source.project))
  }

  class Automation {
    var log: Log
    /** The effects taken, in order. */
    var acts: seq<Key>

    constructor ()
      ensures log == map[] && acts == []
    {
      log, acts := map[], [];
    }

    method Finish(key: Key, outcome: Outcome)
      requires key in log
      modifies this`log
      ensures log == old(log)[key := old(log)[key].(outcome := outcome)]
    {
      log := log[key := log[key].(outcome := outcome)];
    }

    method FieldChanged(field: string, changes: seq<string>) returns (changed: bool)
      ensures changed == Changed(field, changes)
    {
      changed := false;
      for i := 0 to |changes|
        invariant changed <==> exists j | 0 <= j < i :: Text.SameFold(changes[j], field)
      {
        if Text.SameFold(changes[i], field) {
          changed := true;
        }
      }
    }

    /** A run that is claimed already is left alone; any other ends as its guards, the cap and the
        tests have it, and acts exactly when nothing stops it. */
    method Run(r: Rule, e: Event, c: Clock, t: Tests)
      modifies this
      ensures log == RunOne(old(log), r, e, c, t)
      ensures acts == old(acts) + if Acts(old(log), r, e, c, t) then [Key(r.id, e.id)] else []
    {
      hide Recent, Told, Changed;
      var key := Key(r.id, e.id);
      if key in log {
        return;
      }
      ghost var before := log;
      log := log[key := Row(c.claimed, Running)];
      ClaimIsInvisible(before, key, c.claimed, c.counted);
      ClaimIsInvisible(before, key, c.claimed, c.asked);
      if e.byAutomation && !r.allowOwnEvents {
        Finish(key, Skipped);
        return;
      }
      if !c.countRead {
        return;
      }
      var recent := |Recent(log, key, c.counted)|;
      if recent >= r.hourlyCap {
        var said := c.askRead && Told(log, key, c.asked) != {};
        if said {
          log := log - {key};
          assert log == before;
          return;
        }
        Finish(key, Capped);
        return;
      }
      if Narrowed(r) {
        var changed := FieldChanged(r.field, e.changes);
        if !changed {
          Finish(key, Skipped);
          return;
        }
      }
      if t.CannotTell? {
        Finish(key, Failed);
        return;
      }
      if t.No? {
        Finish(key, Skipped);
        return;
      }
      acts := acts + [key];
      Finish(key, if t.ok then Done else Failed);
    }

    /** Every rule the event could start is run against it in turn, and no other rule: no other gets a row or
        acts, and each of those has a row afterwards, unless it was capped and that was told already. */
    method Handle(rules: seq<Rule>, e: Event, clock: RuleId -> Clock, tests: RuleId -> Tests)
      modifies this
      ensures log == HandleAll(old(log), Selected(rules, e.source), e, clock, tests)
      ensures acts == old(acts) + ActsAll(old(log), Selected(rules, e.source), e, clock, tests)
      ensures forall k | k in old(log) :: k in log && log[k] == old(log)[k]
      ensures forall k | k in log && k !in old(log) ::
        k.event == e.id && exists r | r in rules :: r.id == k.rule && Concerns(e, r)
      ensures old(acts) <= acts
      ensures forall k | k in acts[|old(acts)|..] ::
        k.event == e.id && exists r | r in rules :: r.id == k.rule && Concerns(e, r)
      ensures forall r | r in rules && Concerns(e, r) :: LookedFor(log, r, e, clock(r.id))
    {
      hide RunOne, Acts, Selected, HourOf, ToldInHour, Concerns;
      HandleIs(log, rules, e, clock, tests);
      var found := Selected(rules, e.source);
      ghost var before, done := log, acts;
      for i := 0 to |found|
        invariant log == HandleAll(before, found[..i], e, clock, tests)
        invariant acts == done + ActsAll(before, found[..i], e, clock, tests)
      {
        Run(found[i], e, clock(found[i].id), tests(found[i].id));
        assert found[..i + 1][..i] == found[..i];
      }
      assert found[..|found|] == found;
    }
  }

  function HandleAll(log: Log, rules: seq<Rule>, e: Event, clock: RuleId -> Clock, tests: RuleId -> Tests): Log
    decreases |rules|
  {
    if rules == [] then log
    else
      var (before, r) := (rules[..|rules| - 1], rules[|rules| - 1]);
      RunOne(HandleAll(log, before, e, clock, tests), r, e, clock(r.id), tests(r.id))
  }

  function ActsAll(log: Log, rules: seq<Rule>, e: Event, clock: RuleId -> Clock, tests: RuleId -> Tests): seq<Key>
    decreases |rules|
  {
    if rules == [] then []
    else
      var (before, r) := (rules[..|rules| - 1], rules[|rules| - 1]);
      ActsAll(log, before, e, clock, tests)
      + if Acts(HandleAll(log, before, e, clock, tests), r, e, clock(r.id), tests(r.id)) then [Key(r.id, e.id)] else []
  }

  /** Handling an event writes about no other event and about no rule it does not start, changes no row
      there was, and so handling it again, with every rule recorded, changes nothing and acts on nothing. */
  lemma {:induction false} HandlesOnlyItsOwn(
    log: Log, rules: seq<Rule>, e: Event, clock: RuleId -> Clock, tests: RuleId -> Tests)
    ensures var log' := HandleAll(log, rules, e, clock, tests);
      && (forall k | k in log :: k in log' && log'[k] == log[k])
      && (forall k | k in log' && k !in log :: k.event == e.id && exists r :: r in rules && r.id == k.rule)
    ensures (forall r | r in rules :: Key(r.id, e.id) in log) ==>
      HandleAll(log, rules, e, clock, tests) == log && ActsAll(log, rules, e, clock, tests) == []
    decreases |rules|
  {
    hide Judge, Recent, Told, Changed;
    if rules != [] {
      var before, r := rules[..|rules| - 1], rules[|rules| - 1];
      assert rules == before + [r] && r in rules;
      HandlesOnlyItsOwn(log, before, e, clock, tests);
    }
  }

  lemma ConcernsStarts(rules: seq<Rule>, e: Event)
    ensures forall r :: r in Selected(rules, e.source) <==> r in rules && Concerns(e, r)
  {
  }

  lemma {:induction false} ActsOnlyTheirs(
    log: Log, rules: seq<Rule>, e: Event, clock: RuleId -> Clock, tests: RuleId -> Tests)
    ensures forall k | k in ActsAll(log, rules, e, clock, tests) ::
      k.event == e.id && exists r :: r in rules && r.id == k.rule
    decreases |rules|
  {
    hide Acts, HandleAll;
    if rules != [] {
      var before, r := rules[..|rules| - 1], rules[|rules| - 1];
      assert rules == before + [r] && r in rules;
      ActsOnlyTheirs(log, before, e, clock, tests);
    }
  }

  /** A rule was run against an event: its row is there, or it was capped and that was told within the hour. */
  ghost predicate LookedFor(log: Log, r: Rule, e: Event, c: Clock) {
    || Key(r.id, e.id) in log
    || (|HourOf(log, r.id, c.counted)| >= r.hourlyCap && ToldInHour(log, r.id, c.asked))
  }

  lemma {:induction false} EachIsLookedFor(
    log: Log, rules: seq<Rule>, e: Event, clock: RuleId -> Clock, tests: RuleId -> Tests, r: Rule)
    requires r in rules
    ensures LookedFor(HandleAll(log, rules, e, clock, tests), r, e, clock(r.id))
    decreases |rules|
  {
    hide RunOne, Acts, LookedFor;
    var before, last := rules[..|rules| - 1], rules[|rules| - 1];
    var was := HandleAll(log, before, e, clock, tests);
    if r == last {
      RunIsLookedFor(was, r, e, clock(r.id), tests(r.id));
    } else {
      assert rules == before + [last];
      EachIsLookedFor(log, before, e, clock, tests, r);
      StillLookedFor(was, r, last, e, clock(r.id), clock(last.id), tests(last.id));
    }
  }

  lemma RunIsLookedFor(log: Log, r: Rule, e: Event, c: Clock, t: Tests)
    ensures LookedFor(RunOne(log, r, e, c, t), r, e, c)
  {
    hide RunOne, Acts, HourOf, ToldInHour, Untouched;
    RunIs(log, r, e, c, t);
    var log' := RunOne(log, r, e, c, t);
    if Key(r.id, e.id) !in log' {
      assert log' == log;
    }
  }

  lemma StillLookedFor(log: Log, r: Rule, other: Rule, e: Event, c: Clock, d: Clock, t: Tests)
    requires LookedFor(log, r, e, c)
    ensures LookedFor(RunOne(log, other, e, d, t), r, e, c)
  {
    hide RunOne, Acts, StopsAs;
    RunIs(log, other, e, d, t);
    var log' := RunOne(log, other, e, d, t);
    var key := Key(other.id, e.id);
    assert forall k | k in log :: k in log' && log'[k] == log[k] by {
      assert forall k | k in log :: k != key ==> key in log || k in log' - {key};
    }
    if Key(r.id, e.id) !in log' {
      assert forall k | k in log' && k !in log :: k == key && k.rule != r.id;
      assert HourOf(log', r.id, c.counted) == HourOf(log, r.id, c.counted);
    }
  }

  lemma HandleIs(log: Log, rules: seq<Rule>, e: Event, clock: RuleId -> Clock, tests: RuleId -> Tests)
    ensures var log' := HandleAll(log, Selected(rules, e.source), e, clock, tests);
      && (forall k | k in log :: k in log' && log'[k] == log[k])
      && (forall k | k in log' && k !in log ::
            k.event == e.id && exists r | r in rules :: r.id == k.rule && Concerns(e, r))
      && (forall r | r in rules && Concerns(e, r) :: LookedFor(log', r, e, clock(r.id)))
    ensures forall k | k in ActsAll(log, Selected(rules, e.source), e, clock, tests) ::
      k.event == e.id && exists r | r in rules :: r.id == k.rule && Concerns(e, r)
  {
    hide RunOne, Acts, Selected, Concerns, LookedFor, HandleAll, ActsAll;
    ConcernsStarts(rules, e);
    var found := Selected(rules, e.source);
    HandlesOnlyItsOwn(log, found, e, clock, tests);
    ActsOnlyTheirs(log, found, e, clock, tests);
    forall r | r in found
      ensures LookedFor(HandleAll(log, found, e, clock, tests), r, e, clock(r.id))
    {
      EachIsLookedFor(log, found, e, clock, tests, r);
    }
  }

  lemma ClaimIsInvisible(log: Log, key: Key, claimed: int, at: int)
    requires key !in log
    ensures Recent(log[key := Row(claimed, Running)], key, at) == Recent(log, key, at)
    ensures Told(log[key := Row(claimed, Running)], key, at) == Told(log, key, at)
  {
  }

  // ---- Whole runs of deliveries ----

  /** One delivery of one event to one rule; the same may be delivered again, in any order. */
  datatype Delivery = Delivery(rule: Rule, event: Event, clock: Clock, tests: Tests)

  datatype Action = Action(key: Key, started: int, counted: int, cap: nat)

  datatype World = World(log: Log, actions: seq<Action>)

  function Step(w: World, d: Delivery): World {
    World(RunOne(w.log, d.rule, d.event, d.clock, d.tests),
          w.actions + if Acts(w.log, d.rule, d.event, d.clock, d.tests)
            then [Action(Key(d.rule.id, d.event.id), d.clock.claimed, d.clock.counted, d.rule.hourlyCap)] else [])
  }

  function Deliver(ds: seq<Delivery>): World
    decreases |ds|
  {
    if ds == [] then World(map[], []) else Step(Deliver(ds[..|ds| - 1]), ds[|ds| - 1])
  }

  /** Every action has its row, which says when it started and is never taken out or made not to count. */
  ghost predicate Recorded(w: World) {
    && (forall i | 0 <= i < |w.actions| ::
          var a := w.actions[i];
          a.key in w.log && w.log[a.key].started == a.started && Counts(w.log[a.key].outcome))
    && (forall i, j | 0 <= i < j < |w.actions| :: w.actions[i].key != w.actions[j].key)
  }

  /** How many of the actions are the rule's and started after a time. */
  function ActedSince(actions: seq<Action>, rule: RuleId, after: int): nat {
    if actions == [] then 0
    else
      var a := actions[|actions| - 1];
      ActedSince(actions[..|actions| - 1], rule, after) + if a.key.rule == rule && a.started > after then 1 else 0
  }

  /** The keys of those actions. */
  function KeysSince(actions: seq<Action>, rule: RuleId, after: int): set<Key> {
    if actions == [] then {}
    else
      var a := actions[|actions| - 1];
      KeysSince(actions[..|actions| - 1], rule, after) + if a.key.rule == rule && a.started > after then {a.key} else {}
  }

  lemma {:induction false} InKeysSince(actions: seq<Action>, rule: RuleId, after: int, k: Key)
    requires k in KeysSince(actions, rule, after)
    ensures exists i :: 0 <= i < |actions| && actions[i].key == k && k.rule == rule && actions[i].started > after
  {
    var before, a := actions[..|actions| - 1], actions[|actions| - 1];
    if k in KeysSince(before, rule, after) {
      InKeysSince(before, rule, after, k);
      var i :| 0 <= i < |before| && before[i].key == k && before[i].started > after;
      assert actions[i] == before[i];
    }
  }

  lemma {:induction false} ActedIsKeys(actions: seq<Action>, rule: RuleId, after: int)
    requires forall i, j | 0 <= i < j < |actions| :: actions[i].key != actions[j].key
    ensures ActedSince(actions, rule, after) == |KeysSince(actions, rule, after)|
  {
    if actions != [] {
      var before, a := actions[..|actions| - 1], actions[|actions| - 1];
      ActedIsKeys(before, rule, after);
      if a.key in KeysSince(before, rule, after) {
        InKeysSince(before, rule, after, a.key);
      }
    }
  }

  /** When an action was taken, the rule's actions in the hour before its count were under the cap. */
  lemma CapAtAction(w: World, d: Delivery)
    requires Recorded(w) && Acts(w.log, d.rule, d.event, d.clock, d.tests)
    ensures ActedSince(w.actions, d.rule.id, d.clock.counted - HOUR) < d.rule.hourlyCap
  {
    var key, after := Key(d.rule.id, d.event.id), d.clock.counted - HOUR;
    ActedIsKeys(w.actions, d.rule.id, after);
    var keys, recent := KeysSince(w.actions, d.rule.id, after), Recent(w.log, key, d.clock.counted);
    forall k | k in keys
      ensures k in recent
    {
      InKeysSince(w.actions, d.rule.id, after, k);
    }
    Subset(keys, recent);
  }

  lemma {:induction false} Subset(a: set<Key>, b: set<Key>)
    requires a <= b
    ensures |a| <= |b|
  {
    if a != {} {
      var k :| k in a;
      Subset(a - {k}, b - {k});
    }
  }

  /** Every action came when the rule's actions before it, in the hour before its count, were under its cap. */
  ghost predicate UnderCap(actions: seq<Action>) {
    actions == [] ||
    (var before, a := actions[..|actions| - 1], actions[|actions| - 1];
     UnderCap(before) && ActedSince(before, a.key.rule, a.counted - HOUR) < a.cap)
  }

  lemma StepKeepsRecorded(w: World, d: Delivery)
    requires Recorded(w)
    ensures Recorded(Step(w, d))
  {
    hide Recent, Told, Changed;
  }

  lemma StepKeepsUnderCap(w: World, d: Delivery)
    requires Recorded(w) && UnderCap(w.actions)
    ensures UnderCap(Step(w, d).actions)
  {
    hide RunOne, Acts, ActedSince;
    var actions := Step(w, d).actions;
    if Acts(w.log, d.rule, d.event, d.clock, d.tests) {
      CapAtAction(w, d);
      assert actions[..|actions| - 1] == w.actions;
    } else {
      assert actions == w.actions;
    }
  }

  lemma {:induction false} DeliverKeeps(ds: seq<Delivery>)
    ensures Recorded(Deliver(ds)) && UnderCap(Deliver(ds).actions)
    decreases |ds|
  {
    if ds != [] {
      DeliverKeeps(ds[..|ds| - 1]);
      StepKeepsRecorded(Deliver(ds[..|ds| - 1]), ds[|ds| - 1]);
      StepKeepsUnderCap(Deliver(ds[..|ds| - 1]), ds[|ds| - 1]);
    }
  }

  /** However events are delivered and delivered again, a rule acts on an event at most once. */
  lemma ActsAtMostOnce(ds: seq<Delivery>, i: nat, j: nat)
    requires i < j < |Deliver(ds).actions|
    ensures Deliver(ds).actions[i].key != Deliver(ds).actions[j].key
  {
    DeliverKeeps(ds);
  }

  // ---- The cap over an hour that begins anywhere ----

  /** How many of the actions are the rule's and started in (after, until]. */
  function ActedIn(actions: seq<Action>, rule: RuleId, after: int, until: int): nat {
    if actions == [] then 0
    else
      var a := actions[|actions| - 1];
      ActedIn(actions[..|actions| - 1], rule, after, until)
      + if a.key.rule == rule && after < a.started <= until then 1 else 0
  }

  /** No count of a delivery comes more than `gap` after its claim, and the rule's cap is never above `cap`. */
  ghost predicate Within(ds: seq<Delivery>, rule: RuleId, gap: nat, cap: nat) {
    forall d | d in ds ::
      && d.clock.claimed <= d.clock.counted <= d.clock.claimed + gap
      && d.clock.claimed <= d.clock.asked <= d.clock.claimed + gap
      && (d.rule.id == rule ==> d.rule.hourlyCap <= cap)
  }

  ghost predicate ActionsWithin(actions: seq<Action>, rule: RuleId, gap: nat, cap: nat) {
    forall a | a in actions :: a.counted <= a.started + gap && (a.key.rule == rule ==> a.cap <= cap)
  }

  lemma {:induction false} DeliverWithin(ds: seq<Delivery>, rule: RuleId, gap: nat, cap: nat)
    requires Within(ds, rule, gap, cap)
    ensures ActionsWithin(Deliver(ds).actions, rule, gap, cap)
    decreases |ds|
  {
    hide RunOne, Acts;
    if ds != [] {
      DeliverWithin(ds[..|ds| - 1], rule, gap, cap);
      assert ds[|ds| - 1] in ds;
    }
  }

  lemma {:induction false} FewerIn(actions: seq<Action>, rule: RuleId, after: int, until: int, since: int)
    requires since <= after
    ensures ActedIn(actions, rule, after, until) <= ActedSince(actions, rule, since)
  {
    if actions != [] {
      FewerIn(actions[..|actions| - 1], rule, after, until, since);
    }
  }

  lemma {:induction false} ActionsInHour(actions: seq<Action>, rule: RuleId, gap: nat, cap: nat, after: int, until: int)
    requires UnderCap(actions) && ActionsWithin(actions, rule, gap, cap)
    requires until - after <= HOUR - gap
    ensures ActedIn(actions, rule, after, until) <= cap
  {
    if actions != [] {
      var before, a := actions[..|actions| - 1], actions[|actions| - 1];
      if a.key.rule == rule && after < a.started <= until {
        assert a in actions;
        FewerIn(before, rule, after, until, a.counted - HOUR);
      } else {
        ActionsInHour(before, rule, gap, cap, after, until);
      }
    }
  }

  /** However events are delivered, when no run counts later than `gap` after its claim, a rule
      acts at most its cap of times in any hour less that gap; in any hour at all when a run is
      claimed and counted at one moment. */
  lemma CapHoldsInAnyHour(ds: seq<Delivery>, rule: RuleId, gap: nat, cap: nat, after: int, until: int)
    requires Within(ds, rule, gap, cap) && until - after <= HOUR - gap
    ensures ActedIn(Deliver(ds).actions, rule, after, until) <= cap
  {
    DeliverKeeps(ds);
    DeliverWithin(ds, rule, gap, cap);
    ActionsInHour(Deliver(ds).actions, rule, gap, cap, after, until);
  }

  function OpenRule(rule: RuleId, cap: nat): Rule {
    Rule(rule, true, IssueCreated, None, false, cap, "")
  }

  /** An event that starts a rule, claimed and counted at the times given, with nothing in its way. */
  function Delivered(r: Rule, n: nat, claimed: int, counted: int): Delivery {
    Delivery(r, Event(n, false, [], OnIssue(Some(IssueCreated), true, false, None)),
             Clock(claimed, counted, counted, true, true), Act(true))
  }

  /** `n` events delivered to a rule at once. */
  function AtOnce(r: Rule, n: nat): seq<Delivery> {
    if n == 0 then [] else AtOnce(r, n - 1) + [Delivered(r, n, 0, 0)]
  }

  /** A log of the first `n` events, each acted on at once. */
  ghost predicate FirstEvents(log: Log, n: nat) {
    forall k | k in log :: 1 <= k.event <= n && log[k] == Row(0, Done)
  }

  /** A rule acts on each of several events delivered at once, up to its cap. */
  lemma {:induction false} AtOnceActs(rule: RuleId, cap: nat, n: nat)
    requires n <= cap
    ensures var w := Deliver(AtOnce(OpenRule(rule, cap), n));
      |w.actions| == n && ActedIn(w.actions, rule, -1, 0) == n && FirstEvents(w.log, n)
    decreases n
  {
    hide Step, FirstEvents, ActedIn;
    if n == 0 {
      NothingActed(rule);
    } else {
      AtOnceActs(rule, cap, n - 1);
      var r := OpenRule(rule, cap);
      var before := AtOnce(r, n - 1);
      var d := Delivered(r, n, 0, 0);
      assert (before + [d])[..|before + [d]| - 1] == before;
      NextAtOnce(Deliver(before), rule, cap, n, d);
    }
  }

  lemma NothingActed(rule: RuleId)
    ensures FirstEvents(map[], 0) && ActedIn([], rule, -1, 0) == 0
  {
  }

  lemma NextAtOnce(w: World, rule: RuleId, cap: nat, n: nat, d: Delivery)
    requires 1 <= n <= cap && FirstEvents(w.log, n - 1)
    requires d == Delivered(OpenRule(rule, cap), n, 0, 0)
    ensures FirstEvents(Step(w, d).log, n)
    ensures |Step(w, d).actions| == |w.actions| + 1
    ensures ActedIn(Step(w, d).actions, rule, -1, 0) == ActedIn(w.actions, rule, -1, 0) + 1
  {
    hide ActedIn, Told, Changed, Step;
    FewBefore(w.log, rule, n);
    NextActs(w, d, rule, -1, 0);
    NextLog(w, d);
  }

  lemma NextLog(w: World, d: Delivery)
    requires Acts(w.log, d.rule, d.event, d.clock, d.tests) && d.tests.ok
    ensures Step(w, d).log == w.log[Key(d.rule.id, d.event.id) := Row(d.clock.claimed, Done)]
  {
    hide Recent, Told, Changed;
  }

  lemma FewBefore(log: Log, rule: RuleId, n: nat)
    requires 1 <= n && FirstEvents(log, n - 1)
    ensures |Recent(log, Key(rule, n), 0)| < n
  {
    EventKeysSize(rule, n - 1);
    Subset(Recent(log, Key(rule, n), 0), EventKeys(rule, n - 1));
  }

  /** The keys of a rule's first `n` events. */
  function EventKeys(rule: RuleId, n: nat): set<Key> {
    if n == 0 then {} else EventKeys(rule, n - 1) + {Key(rule, n)}
  }

  lemma {:induction false} EventKeysSize(rule: RuleId, n: nat)
    ensures |EventKeys(rule, n)| == n
    ensures forall k :: k in EventKeys(rule, n) <==> k.rule == rule && 1 <= k.event <= n
  {
    if n > 0 {
      EventKeysSize(rule, n - 1);
    }
  }

  /** A delivery that acts adds its action. */
  lemma NextActs(w: World, d: Delivery, rule: RuleId, after: int, until: int)
    requires d.rule.id == rule && Acts(w.log, d.rule, d.event, d.clock, d.tests)
    ensures |Step(w, d).actions| == |w.actions| + 1
    ensures ActedIn(Step(w, d).actions, rule, after, until)
      == ActedIn(w.actions, rule, after, until) + if after < d.clock.claimed <= until then 1 else 0
  {
    hide Acts;
    var actions := Step(w, d).actions;
    assert actions[..|actions| - 1] == w.actions;
  }

  /** No longer stretch will do: with as many actions as the cap allows at once, a run claimed an
      hour less the gap later and counted a gap after that still acts. */
  lemma CapMissesAcrossAGap(rule: RuleId, gap: nat, cap: nat) returns (ds: seq<Delivery>)
    requires gap <= HOUR && 1 <= cap
    ensures Within(ds, rule, gap, cap)
    ensures ActedIn(Deliver(ds).actions, rule, -1, HOUR - gap) == cap + 1
  {
    hide *;
    var r := OpenRule(rule, cap);
    var first := AtOnce(r, cap);
    var last := Delivered(r, cap + 1, HOUR - gap, HOUR);
    ds := first + [last];
    AtOnceActs(rule, cap, cap);
    AtOnceWithin(rule, gap, cap, cap);
    LastWithin(rule, gap, cap);
    WithinBoth(first, [last], rule, gap, cap);
    DeliverOneMore(first, last);
    LongerHoldsMore(Deliver(first).actions, rule, -1, 0, HOUR - gap);
    NoMoreThanAll(Deliver(first).actions, rule, -1, HOUR - gap);
    LastActs(Deliver(first), rule, gap, cap);
  }

  lemma DeliverOneMore(ds: seq<Delivery>, d: Delivery)
    ensures Deliver(ds + [d]) == Step(Deliver(ds), d)
  {
    hide Step;
    assert (ds + [d])[..|ds + [d]| - 1] == ds;
  }

  lemma WithinBoth(p: seq<Delivery>, q: seq<Delivery>, rule: RuleId, gap: nat, cap: nat)
    requires Within(p, rule, gap, cap) && Within(q, rule, gap, cap)
    ensures Within(p + q, rule, gap, cap)
  {
  }

  lemma LastWithin(rule: RuleId, gap: nat, cap: nat)
    requires gap <= HOUR
    ensures Within([Delivered(OpenRule(rule, cap), cap + 1, HOUR - gap, HOUR)], rule, gap, cap)
  {
  }

  /** The hour's count no longer sees actions as old as the hour. */
  lemma LastActs(w: World, rule: RuleId, gap: nat, cap: nat)
    requires FirstEvents(w.log, cap) && 1 <= cap && gap <= HOUR
    ensures var d := Delivered(OpenRule(rule, cap), cap + 1, HOUR - gap, HOUR);
      ActedIn(Step(w, d).actions, rule, -1, HOUR - gap) == ActedIn(w.actions, rule, -1, HOUR - gap) + 1
  {
    hide Step, ActedIn, Changed;
    assert Recent(w.log, Key(rule, cap + 1), HOUR) == {};
    NextActs(w, Delivered(OpenRule(rule, cap), cap + 1, HOUR - gap, HOUR), rule, -1, HOUR - gap);
  }

  lemma {:induction false} NoMoreThanAll(actions: seq<Action>, rule: RuleId, after: int, until: int)
    ensures ActedIn(actions, rule, after, until) <= |actions|
  {
    if actions != [] {
      NoMoreThanAll(actions[..|actions| - 1], rule, after, until);
    }
  }

  lemma {:induction false} AtOnceWithin(rule: RuleId, gap: nat, cap: nat, n: nat)
    ensures Within(AtOnce(OpenRule(rule, cap), n), rule, gap, cap)
  {
    if n > 0 {
      AtOnceWithin(rule, gap, cap, n - 1);
    }
  }

  /** The rule acted no more often than its cap in a stretch of time. */
  ghost predicate KeepsCap(ds: seq<Delivery>, rule: RuleId, cap: nat, after: int, length: int) {
    ActedIn(Deliver(ds).actions, rule, after, after + length) <= cap
  }

  /** Over however many deliveries, with at most `gap` seconds between any claim and its count and
      question, a rule keeps to its cap in every stretch of a length exactly when that length is
      no more than an hour less the gap. */
  lemma CapHoldsExactly(rule: RuleId, gap: nat, cap: nat, length: int)
    requires gap <= HOUR && 1 <= cap
    ensures (forall ds, after | Within(ds, rule, gap, cap) :: KeepsCap(ds, rule, cap, after, length))
      <==> length <= HOUR - gap
  {
    hide Within, Deliver, ActedIn;
    if length <= HOUR - gap {
      forall ds, after | Within(ds, rule, gap, cap)
        ensures KeepsCap(ds, rule, cap, after, length)
      {
        CapHoldsInAnyHour(ds, rule, gap, cap, after, after + length);
      }
    } else {
      var ds := CapMissesAcrossAGap(rule, gap, cap);
      LongerHoldsMore(Deliver(ds).actions, rule, -1, HOUR - gap, -1 + length);
      assert !KeepsCap(ds, rule, cap, -1, length);
    }
  }

  lemma {:induction false} LongerHoldsMore(actions: seq<Action>, rule: RuleId, after: int, until: int, later: int)
    requires until <= later
    ensures ActedIn(actions, rule, after, until) <= ActedIn(actions, rule, after, later)
  {
    if actions != [] {
      LongerHoldsMore(actions[..|actions| - 1], rule, after, until, later);
    }
  }

  // ---- The cap told once ----

  /** Any two surviving rows that say a rule was capped are that far apart. */
  ghost predicate ToldApart(log: Log, apart: int) {
    forall k, m |
      k in log && m in log && k != m && k.rule == m.rule && log[k].outcome == Capped && log[m].outcome == Capped ::
      log[k].started + apart <= log[m].started || log[m].started + apart <= log[k].started
  }

  lemma StepKeepsTold(log: Log, d: Delivery, gap: nat)
    requires ToldApart(log, HOUR - gap) && d.clock.askRead && d.clock.asked <= d.clock.claimed + gap
    ensures ToldApart(RunOne(log, d.rule, d.event, d.clock, d.tests), HOUR - gap)
  {
    hide Recent, Changed;
    var key := Key(d.rule.id, d.event.id);
    var log' := RunOne(log, d.rule, d.event, d.clock, d.tests);
    if key !in log && key in log' && log'[key].outcome == Capped {
      forall k | k in log && k.rule == key.rule && log[k].outcome == Capped
        ensures log[k].started <= d.clock.asked - HOUR
      {
        assert k !in Told(log, key, d.clock.asked);
      }
    }
  }

  /** However events are delivered, when the question whether the cap was told is answered, two
      rows left to say that a rule was capped are at least an hour, less the gap, apart: a storm
      leaves one an hour. */
  lemma {:induction false} CapIsToldOnceAnHour(ds: seq<Delivery>, gap: nat)
    requires forall d | d in ds :: d.clock.askRead && d.clock.asked <= d.clock.claimed + gap
    ensures ToldApart(Deliver(ds).log, HOUR - gap)
    decreases |ds|
  {
    hide ToldApart, RunOne;
    if ds == [] {
      NothingTold(gap);
    } else {
      CapIsToldOnceAnHour(ds[..|ds| - 1], gap);
      assert ds[|ds| - 1] in ds;
      StepKeepsTold(Deliver(ds[..|ds| - 1]).log, ds[|ds| - 1], gap);
    }
  }

  lemma NothingTold(gap: nat)
    ensures ToldApart(map[], HOUR - gap)
  {
  }
}
