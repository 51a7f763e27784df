/** Whole runs of the second factor: any order of enrolments, sign-ins and removals, by any
    number of people, with what happened kept in a journal. */
module SignInRuns {
  import opened Wrappers
  import opened Totp
  import opened SecondFactor

  /** What a run's journal says happened, in order. */
  datatype Entry =
    | Began(user: User, step: int, clock: int)
    | Ended(user: User)
    | Proved(user: User, spent: Spent, clock: int)
    | Renewed(user: User)
    | Challenged(user: User, token: Token)
    | WrongAnswer(token: Token)
    | Opened(session: Session)

  /** A password sign-in under way: whether a factor was in use was read with the password. */
  datatype Login = Login(user: User, enrolled: bool)

  datatype World = World(tables: Tables, logins: map<nat, Login>, journal: seq<Entry>)

  datatype Op =
    | StartOp(u: User, secret: Secret)
    | ConfirmOp(u: User, code: string, now: int, codes: seq<string>)
    | RenewOp(u: User, code: string, now: int, codes: seq<string>)
    | RemoveOp(u: User, keep: Option<nat>, code: string, now: int)
    | AdminRemoveOp(u: User, allowed: bool)
    | PasswordOp(login: nat, u: User)
    | ProceedOp(login: nat, token: Token, now: int, seated: bool)
    | CodeOp(token: Token, code: string, now: int, active: User -> bool, seated: bool)

  predicate IsChallenge(e: Entry, token: Token) {
    e.Challenged? && e.token == token
  }

  predicate Used(journal: seq<Entry>, token: Token) {
    exists i | 0 <= i < |journal| :: IsChallenge(journal[i], token)
  }

  ghost function Step(v: Server, w: World, op: Op): World {
    var (t, j) := (w.tables, w.journal);
    match op
    case StartOp(u, secret) =>
      (match Start(v, t, u, secret)
       case Err(_) => w
       case Ok(t') => w.(tables := t'))
    case ConfirmOp(u, code, now, codes) =>
      (match Confirm(v, t, u, code, now, codes)
       case Err(_) => w
       case Ok((t', step)) => w.(tables := t', journal := j + [Began(u, step, TotpStep(now))]))
    case RenewOp(u, code, now, codes) =>
      (match Spend(v, t, u, code, now)
       case Err(_) => w
       case Ok((t1, spent)) =>
         match Replace(v, t1, u, codes)
         case Err(_) => w
         case Ok(t') => w.(tables := t', journal := j + [Proved(u, spent, TotpStep(now)), Renewed(u)]))
    case RemoveOp(u, keep, code, now) =>
      (match Spend(v, t, u, code, now)
       case Err(_) => w
       case Ok((t1, spent)) =>
         w.(tables := EndOthers(Drop(t1, u), u, keep), journal := j + [Proved(u, spent, TotpStep(now)), Ended(u)]))
    case AdminRemoveOp(u, allowed) =>
      if allowed && Confirmed(t, u) then w.(tables := Drop(t, u), journal := j + [Ended(u)]) else w
    case PasswordOp(login, u) =>
      if login in w.logins then w else w.(logins := w.logins[login := Login(u, Confirmed(t, u))])
    case ProceedOp(login, token, now, seated) =>
      if login !in w.logins then w
      else
        var l := w.logins[login];
        // Tokens are long and random: one that was issued before is not issued again.
        if l.enrolled && Used(j, token) then w
        else
          (match Proceed(t, l.user, l.enrolled, login, token, now, seated)
           case Err(_) => w
           case Ok((t', CodeStep(_))) => w.(tables := t', journal := j + [Challenged(l.user, token)])
           case Ok((t', Entered(s))) => w.(tables := t', journal := j + [Opened(s)]))
    case CodeOp(token, code, now, active, seated) =>
      match Complete(v, t, token, code, now, active, seated)
      case Err(_) => w
      case Ok((t', Missed)) => w.(tables := t', journal := j + [WrongAnswer(token)])
      case Ok((t', Lapsed)) => w.(tables := t')
      case Ok((t', Taken(spent))) =>
        var u := Holder(t, token).value;
        w.(tables := t', journal := j + [Proved(u, spent, TotpStep(now)), Opened(Session(u, ByCode(token, spent)))])
  }

  ghost function Run(v: Server, ops: seq<Op>): World
    decreases |ops|
  {
    if ops == [] then World(Tables(map[], map[], map[], [], {}), map[], [])
    else Step(v, Run(v, ops[..|ops| - 1]), ops[|ops| - 1])
  }

  // ---- Each code is taken once ----

  /** The authenticator codes taken in the enrolment `u` is in now, oldest first. */
  function StepsTaken(journal: seq<Entry>, u: User): seq<Accepted> {
    if journal == [] then []
    else
      var before := StepsTaken(journal[..|journal| - 1], u);
      match journal[|journal| - 1]
      case Began(w, step, clock) => if w == u then [Accepted(step, clock)] else before
      case Ended(w) => if w == u then [] else before
      case Proved(w, Authenticator(step), clock) => if w == u then before + [Accepted(step, clock)] else before
      case _ => before
  }

  /** The recovery codes taken of the set `u` has now. */
  function CodesTaken(journal: seq<Entry>, u: User): seq<Digest> {
    if journal == [] then []
    else
      var before := CodesTaken(journal[..|journal| - 1], u);
      match journal[|journal| - 1]
      case Began(w, _, _) => if w == u then [] else before
      case Ended(w) => if w == u then [] else before
      case Renewed(w) => if w == u then [] else before
      case Proved(w, RecoveryCode(d), _) => if w == u then before + [d] else before
      case _ => before
  }

  /** Steps taken go up, stay within the skew of the clock, and end at the one kept with the factor. */
  ghost predicate StepsOk(w: World, u: User) {
    var s := StepsTaken(w.journal, u);
    && StrictlyIncreasing(s) && WithinSkew(s)
    && (Confirmed(w.tables, u) ==> forall i | 0 <= i < |s| :: s[i].step <= w.tables.factors[u].lastStep)
    && (!Confirmed(w.tables, u) ==> s == [])
  }

  /** Recovery codes taken differ, and are the ones marked used. */
  ghost predicate CodesOk(w: World, u: User) {
    var s := CodesTaken(w.journal, u);
    && Distinct(s)
    && (forall d | d in s :: d in CodesOf(w.tables, u) && CodesOf(w.tables, u)[d])
  }

  ghost predicate UserOk(w: World, u: User) {
    StepsOk(w, u) && CodesOk(w, u)
  }

  predicate About(e: Entry, u: User) {
    match e
    case Began(w, _, _) => w == u
    case Ended(w) => w == u
    case Proved(w, _, _) => w == u
    case Renewed(w) => w == u
    case _ => false
  }

  lemma Append(j: seq<Entry>, e: Entry, u: User)
    ensures (j + [e])[..|j + [e]| - 1] == j
    ensures !About(e, u) ==> StepsTaken(j + [e], u) == StepsTaken(j, u) && CodesTaken(j + [e], u) == CodesTaken(j, u)
  {
  }

  /** A user is untouched by changes to other tables and entries about other people. */
  lemma Untouched(w: World, w': World, u: User)
    requires UserOk(w, u)
    requires u in w.tables.factors <==> u in w'.tables.factors
    requires u in w.tables.factors ==> w.tables.factors[u] == w'.tables.factors[u]
    requires CodesOf(w.tables, u) == CodesOf(w'.tables, u)
    requires StepsTaken(w'.journal, u) == StepsTaken(w.journal, u)
    requires CodesTaken(w'.journal, u) == CodesTaken(w.journal, u)
    ensures UserOk(w', u)
  {
  }

  lemma SpendKeeps(v: Server, w: World, u: User, code: string, now: int, x: User)
    requires UserOk(w, x) && Spend(v, w.tables, u, code, now).Ok?
    ensures var (t, spent) := Spend(v, w.tables, u, code, now).value;
      UserOk(World(t, w.logins, w.journal + [Proved(u, spent, TotpStep(now))]), x)
  {
    hide Match, IsTotpCode, Normalize, TotpStep;
    var (t, spent) := Spend(v, w.tables, u, code, now).value;
    Append(w.journal, Proved(u, spent, TotpStep(now)), x);
    if x == u && IsTotpCode(code) {
      var f := w.tables.factors[u];
      assert Match(v.hotp, f.seal.secret, code, now, f.lastStep) == Some(spent.step);
    }
  }

  lemma ConfirmKeeps(v: Server, w: World, u: User, code: string, now: int, codes: seq<string>, x: User)
    requires UserOk(w, x) && Confirm(v, w.tables, u, code, now, codes).Ok?
    ensures UserOk(Step(v, w, ConfirmOp(u, code, now, codes)), x)
  {
    hide Match, Normalize, TotpStep, Digests;
    var (t, step) := Confirm(v, w.tables, u, code, now, codes).value;
    Append(w.journal, Began(u, step, TotpStep(now)), x);
    assert Match(v.hotp, w.tables.factors[u].seal.secret, code, now, 0) == Some(step);
  }

  lemma RenewKeeps(v: Server, w: World, u: User, codes: seq<string>, x: User)
    requires UserOk(w, x) && Replace(v, w.tables, u, codes).Ok?
    ensures UserOk(World(Replace(v, w.tables, u, codes).value, w.logins, w.journal + [Renewed(u)]), x)
  {
    hide Digests;
    Append(w.journal, Renewed(u), x);
  }

  lemma DropKeeps(w: World, u: User, x: User)
    requires UserOk(w, x)
    ensures UserOk(World(Drop(w.tables, u), w.logins, w.journal + [Ended(u)]), x)
  {
    Append(w.journal, Ended(u), x);
  }

  lemma CodeKeeps(
    v: Server, w: World, token: Token, code: string, now: int, active: User -> bool, seated: bool, x: User)
    requires UserOk(w, x)
    ensures UserOk(Step(v, w, CodeOp(token, code, now, active, seated)), x)
  {
    hide Spend, TotpStep, UserOk, Step, StepsTaken, CodesTaken, CodesOf;
    var w' := Step(v, w, CodeOp(token, code, now, active, seated));
    var h := Holder(w.tables, token);
    CodeChanges(v, w, token, code, now, active, seated);
    if h.Some? && Spend(v, w.tables, h.value, code, now).Ok? {
      var u := h.value;
      SpendKeeps(v, w, u, code, now, x);
      var (t1, spent) := Spend(v, w.tables, u, code, now).value;
      var e, f := Proved(u, spent, TotpStep(now)), Opened(Session(u, ByCode(token, spent)));
      Append(w.journal + [e], f, x);
      if w' != w {
        SameCodes(t1, w'.tables, x);
        Untouched(World(t1, w.logins, w.journal + [e]), w', x);
      }
    } else {
      Append(w.journal, WrongAnswer(token), x);
      SameCodes(w.tables, w'.tables, x);
      Untouched(w, w', x);
    }
  }

  lemma SameCodes(t: Tables, t': Tables, u: User)
    requires t.recovery == t'.recovery
    ensures CodesOf(t, u) == CodesOf(t', u)
  {
  }

  /** Answering a challenge changes factors and recovery codes only as spending its code does, and
      adds to the journal only that and the session, or a miss. */
  lemma CodeChanges(v: Server, w: World, token: Token, code: string, now: int, active: User -> bool, seated: bool)
    ensures var w' := Step(v, w, CodeOp(token, code, now, active, seated));
      var h := Holder(w.tables, token);
      if h.Some? && Spend(v, w.tables, h.value, code, now).Ok? then
        var (t1, spent) := Spend(v, w.tables, h.value, code, now).value;
        w' == w ||
        (&& w'.tables.factors == t1.factors && w'.tables.recovery == t1.recovery && w'.logins == w.logins
         && w'.journal == (w.journal + [Proved(h.value, spent, TotpStep(now))])
              + [Opened(Session(h.value, ByCode(token, spent)))])
      else
        && w'.tables.factors == w.tables.factors && w'.tables.recovery == w.tables.recovery && w'.logins == w.logins
        && (w'.journal == w.journal || w'.journal == w.journal + [WrongAnswer(token)])
  {
    hide Spend, TotpStep;
    var h := Holder(w.tables, token);
    if h.Some? && Spend(v, w.tables, h.value, code, now).Ok? {
      var spent := Spend(v, w.tables, h.value, code, now).value.1;
      var e, f := Proved(h.value, spent, TotpStep(now)), Opened(Session(h.value, ByCode(token, spent)));
      assert w.journal + [e, f] == (w.journal + [e]) + [f];
    }
  }

  lemma StartKeeps(v: Server, w: World, u: User, secret: Secret, x: User)
    requires UserOk(w, x)
    ensures UserOk(Step(v, w, StartOp(u, secret)), x)
  {
  }

  lemma RenewOpKeeps(v: Server, w: World, u: User, code: string, now: int, codes: seq<string>, x: User)
    requires UserOk(w, x)
    ensures UserOk(Step(v, w, RenewOp(u, code, now, codes)), x)
  {
    hide Spend, Replace, TotpStep, UserOk;
    if Spend(v, w.tables, u, code, now).Ok? {
      var (t1, spent) := Spend(v, w.tables, u, code, now).value;
      var e := Proved(u, spent, TotpStep(now));
      SpendKeeps(v, w, u, code, now, x);
      if Replace(v, t1, u, codes).Ok? {
        RenewKeeps(v, World(t1, w.logins, w.journal + [e]), u, codes, x);
        assert w.journal + [e, Renewed(u)] == (w.journal + [e]) + [Renewed(u)];
      }
    }
  }

  lemma RemoveOpKeeps(v: Server, w: World, u: User, keep: Option<nat>, code: string, now: int, x: User)
    requires UserOk(w, x)
    ensures UserOk(Step(v, w, RemoveOp(u, keep, code, now)), x)
  {
    hide Spend, Drop, TotpStep, UserOk;
    if Spend(v, w.tables, u, code, now).Ok? {
      var (t1, spent) := Spend(v, w.tables, u, code, now).value;
      var e := Proved(u, spent, TotpStep(now));
      SpendKeeps(v, w, u, code, now, x);
      DropKeeps(World(t1, w.logins, w.journal + [e]), u, x);
      assert w.journal + [e, Ended(u)] == (w.journal + [e]) + [Ended(u)];
      EndKeeps(World(Drop(t1, u), w.logins, w.journal + [e, Ended(u)]), u, keep, x);
    }
  }

  lemma EndKeeps(w: World, u: User, keep: Option<nat>, x: User)
    requires UserOk(w, x)
    ensures UserOk(w.(tables := EndOthers(w.tables, u, keep)), x)
  {
    Untouched(w, w.(tables := EndOthers(w.tables, u, keep)), x);
  }

  lemma LoginKeeps(v: Server, w: World, op: Op, x: User)
    requires UserOk(w, x) && (op.PasswordOp? || op.ProceedOp?)
    ensures UserOk(Step(v, w, op), x)
  {
    hide StepsOk, CodesOk;
    if op.ProceedOp? && op.login in w.logins {
      var u := w.logins[op.login].user;
      Append(w.journal, Challenged(u, op.token), x);
      Append(w.journal, Opened(Session(u, ByPassword(op.login))), x);
    }
    Untouched(w, Step(v, w, op), x);
  }

  lemma StepKeepsUser(v: Server, w: World, op: Op, x: User)
    requires UserOk(w, x)
    ensures UserOk(Step(v, w, op), x)
  {
    hide Spend, Confirm, Replace, Drop, TotpStep, Complete, UserOk;
    match op
    case StartOp(u, secret) => StartKeeps(v, w, u, secret, x);
    case ConfirmOp(u, code, now, codes) =>
      if Confirm(v, w.tables, u, code, now, codes).Ok? {
        ConfirmKeeps(v, w, u, code, now, codes, x);
      }
    case RenewOp(u, code, now, codes) => RenewOpKeeps(v, w, u, code, now, codes, x);
    case RemoveOp(u, keep, code, now) => RemoveOpKeeps(v, w, u, keep, code, now, x);
    case AdminRemoveOp(u, _) => DropKeeps(w, u, x);
    case PasswordOp(_, _) => LoginKeeps(v, w, op, x);
    case ProceedOp(_, _, _, _) => LoginKeeps(v, w, op, x);
    case CodeOp(token, code, now, active, seated) => CodeKeeps(v, w, token, code, now, active, seated, x);
  }

  lemma {:induction false} RunKeepsUser(v: Server, ops: seq<Op>, u: User)
    ensures UserOk(Run(v, ops), u)
    decreases |ops|
  {
    hide Step;
    if ops != [] {
      RunKeepsUser(v, ops[..|ops| - 1], u);
      StepKeepsUser(v, Run(v, ops[..|ops| - 1]), ops[|ops| - 1], u);
    }
  }

  /** In every run, the authenticator codes one enrolment takes are for steps that go up, each
      within a step of the clock; so while the clock shows steps p to q it takes at most q - p + 3. */
  lemma AuthenticatorCodesAreSpentOnce(v: Server, ops: seq<Op>, u: User, p: int, q: int)
    requires p <= q
    ensures var s := StepsTaken(Run(v, ops).journal, u);
      StrictlyIncreasing(s) && WithinSkew(s) && CountDuring(s, p, q) <= q - p + 3
  {
    RunKeepsUser(v, ops, u);
    CodesPerStretch(StepsTaken(Run(v, ops).journal, u), p, q);
  }

  /** In every run, no recovery code of a set is taken twice. */
  lemma RecoveryCodesAreSpentOnce(v: Server, ops: seq<Op>, u: User)
    ensures Distinct(CodesTaken(Run(v, ops).journal, u))
  {
    RunKeepsUser(v, ops, u);
  }

  /** Whose code a transaction was given, and at what time. */
  ghost predicate GivenBy(t: Tables, op: Op, u: User, code: string, now: int) {
    match op
    case ConfirmOp(w, c, n, _) => w == u && c == code && n == now
    case RenewOp(w, c, n, _) => w == u && c == code && n == now
    case RemoveOp(w, _, c, n) => w == u && c == code && n == now
    case CodeOp(token, c, n, _, _) => Holds(t, u, token) && c == code && n == now
    case _ => false
  }

  /** An entry about a code taken tells of one that was given then: the app shows it for the secret stored, at
      the step noted, or it is an unused recovery code. */
  ghost predicate Genuine(v: Server, t: Tables, op: Op, e: Entry) {
    match e
    case Proved(u, spent, clock) =>
      exists code, now, t1 ::
        GivenBy(t, op, u, code, now) && clock == TotpStep(now) && Takes(v, t, u, code, now, spent, t1)
    case Began(u, step, clock) =>
      exists code, now ::
        && GivenBy(t, op, u, code, now) && clock == TotpStep(now)
        && u in t.factors && v.hotp(t.factors[u].seal.secret, step) == Normalize(code)
        && clock - 1 <= step <= clock + 1
    case _ => true
  }

  lemma SpentIsGenuine(v: Server, t: Tables, op: Op, u: User, code: string, now: int)
    requires GivenBy(t, op, u, code, now) && Spend(v, t, u, code, now).Ok?
    ensures Genuine(v, t, op, Proved(u, Spend(v, t, u, code, now).value.1, TotpStep(now)))
  {
    hide Spend, GivenBy, Takes, TotpStep;
    SpendIs(v, t, u, code, now);
  }

  lemma StepIsGenuine(v: Server, w: World, op: Op)
    ensures var j := Step(v, w, op).journal;
      && w.journal <= j && forall k | |w.journal| <= k < |j| :: Genuine(v, w.tables, op, j[k])
  {
    hide Spend, Confirm, Answer, TotpStep, Takes, Replace, Used;
    match op
    case ConfirmOp(u, code, now, codes) =>
      if Confirm(v, w.tables, u, code, now, codes).Ok? {
        ConfirmIs(v, w.tables, u, code, now, codes);
        assert GivenBy(w.tables, op, u, code, now);
      }
    case RenewOp(u, code, now, codes) =>
      if Spend(v, w.tables, u, code, now).Ok? {
        SpentIsGenuine(v, w.tables, op, u, code, now);
      }
    case RemoveOp(u, keep, code, now) =>
      if Spend(v, w.tables, u, code, now).Ok? {
        SpentIsGenuine(v, w.tables, op, u, code, now);
      }
    case CodeOp(token, code, now, active, seated) =>
      AnswerIsGenuine(v, w, op);
    case _ =>
  }

  lemma AnswerIsGenuine(v: Server, w: World, op: Op)
    requires op.CodeOp?
    ensures var j := Step(v, w, op).journal;
      && w.journal <= j && forall k | |w.journal| <= k < |j| :: Genuine(v, w.tables, op, j[k])
  {
    hide Spend, TotpStep, Genuine;
    var h := Holder(w.tables, op.token);
    if h.Some? && Spend(v, w.tables, h.value, op.code, op.now).Ok? {
      SpentIsGenuine(v, w.tables, op, h.value, op.code, op.now);
    }
    OtherEntries(v, w.tables, op);
  }

  lemma OtherEntries(v: Server, t: Tables, op: Op)
    ensures forall token :: Genuine(v, t, op, WrongAnswer(token))
    ensures forall s :: Genuine(v, t, op, Opened(s))
  {
  }

  /** In every run, whatever code was taken had been given, and was the right one: for the authenticator, what
      the app shows for the stored secret at the step that was noted, within one of the clock's. */
  lemma {:induction false} TakenCodesAreShown(v: Server, ops: seq<Op>, k: nat)
    requires k < |Run(v, ops).journal|
    ensures exists i | 0 <= i < |ops| ::
      Genuine(v, Run(v, ops[..i]).tables, ops[i], Run(v, ops).journal[k])
    decreases |ops|
  {
    hide Step, Genuine;
    if ops != [] {
      var before, n := ops[..|ops| - 1], |ops| - 1;
      StepIsGenuine(v, Run(v, before), ops[n]);
      if k < |Run(v, before).journal| {
        TakenCodesAreShown(v, before, k);
        var i :| 0 <= i < n && Genuine(v, Run(v, before[..i]).tables, before[i], Run(v, before).journal[k]);
        assert before[..i] == ops[..i];
      }
    }
  }

  // ---- Challenges ----

  function WrongAnswers(journal: seq<Entry>, token: Token): nat {
    if journal == [] then 0
    else WrongAnswers(journal[..|journal| - 1], token) + if journal[|journal| - 1] == WrongAnswer(token) then 1 else 0
  }

  predicate OpenedBy(e: Entry, token: Token) {
    e.Opened? && e.session.via.ByCode? && e.session.via.token == token
  }

  function SessionsOpened(journal: seq<Entry>, token: Token): nat {
    if journal == [] then 0
    else SessionsOpened(journal[..|journal| - 1], token) + if OpenedBy(journal[|journal| - 1], token) then 1 else 0
  }

  /** What is known of one token: a stored challenge counts its wrong answers and has opened nothing. */
  ghost predicate TokenOk(w: World, token: Token) {
    var (missed, opens) := (WrongAnswers(w.journal, token), SessionsOpened(w.journal, token));
    && missed <= CHALLENGE_ATTEMPTS && opens <= 1
    && (!Used(w.journal, token) ==> missed == 0 && opens == 0)
    && (forall u | Holds(w.tables, u, token) ::
          Used(w.journal, token) && opens == 0 && missed == w.tables.challenges[u].attempts < CHALLENGE_ATTEMPTS)
  }

  ghost predicate TokensOk(w: World) {
    TokensUnique(w.tables) && forall token :: TokenOk(w, token)
  }

  lemma AppendTokens(j: seq<Entry>, e: Entry, token: Token)
    ensures Used(j + [e], token) <==> Used(j, token) || IsChallenge(e, token)
    ensures WrongAnswers(j + [e], token) == WrongAnswers(j, token) + if e == WrongAnswer(token) then 1 else 0
    ensures SessionsOpened(j + [e], token) == SessionsOpened(j, token) + if OpenedBy(e, token) then 1 else 0
  {
    assert (j + [e])[..|j + [e]| - 1] == j;
    if Used(j, token) {
      var i :| 0 <= i < |j| && IsChallenge(j[i], token);
      assert (j + [e])[i] == j[i];
    }
    assert (j + [e])[|j|] == e;
  }

  /** Challenges lost with a factor leave the rest of the account of tokens as it was. */
  lemma FewerChallenges(w: World, w': World, token: Token)
    requires TokenOk(w, token)
    requires forall u | u in w'.tables.challenges ::
      u in w.tables.challenges && w'.tables.challenges[u] == w.tables.challenges[u]
    requires Used(w'.journal, token) <==> Used(w.journal, token)
    requires WrongAnswers(w'.journal, token) == WrongAnswers(w.journal, token)
    requires SessionsOpened(w'.journal, token) == SessionsOpened(w.journal, token)
    ensures TokenOk(w', token)
  {
    assert forall u :: Holds(w'.tables, u, token) ==> Holds(w.tables, u, token);
  }

  lemma IssueKeeps(w: World, u: User, token: Token, now: int, x: Token)
    requires TokensOk(w) && !Used(w.journal, token)
    ensures TokenOk(World(Issue(w.tables, u, token, now), w.logins, w.journal + [Challenged(u, token)]), x)
    ensures TokensUnique(Issue(w.tables, u, token, now))
  {
    hide Used, WrongAnswers, SessionsOpened;
    AppendTokens(w.journal, Challenged(u, token), x);
    assert TokenOk(w, x) && TokenOk(w, token);
    forall y | y in w.tables.challenges
      ensures w.tables.challenges[y].token != token
    {
      assert !Holds(w.tables, y, token);
    }
    var t' := Issue(w.tables, u, token, now);
    forall y | Holds(t', y, x)
      ensures y == u || Holds(w.tables, y, x)
    {
    }
  }

  /** The outcomes of answering a challenge, as far as challenges go. */
  lemma AnswerOutcomes(v: Server, t: Tables, u: User, code: string, now: int, seated: bool)
    requires u in t.challenges && Answer(v, t, u, code, now, seated).Ok?
    ensures var (t', a) := Answer(v, t, u, code, now, seated).value;
      var c := t.challenges[u];
      t'.challenges == if a == Missed && c.attempts + 1 < CHALLENGE_ATTEMPTS
        then t.challenges[u := c.(attempts := c.attempts + 1)] else t.challenges - {u}
  {
    hide Match, IsTotpCode, Normalize;
  }

  lemma MissKeeps(w: World, u: User, token: Token, t': Tables, x: Token)
    requires TokensOk(w) && Holds(w.tables, u, token)
    requires var c := w.tables.challenges[u];
      t'.challenges == if c.attempts + 1 < CHALLENGE_ATTEMPTS
        then w.tables.challenges[u := c.(attempts := c.attempts + 1)] else w.tables.challenges - {u}
    ensures TokenOk(World(t', w.logins, w.journal + [WrongAnswer(token)]), x)
  {
    hide Used, WrongAnswers, SessionsOpened;
    AppendTokens(w.journal, WrongAnswer(token), x);
    assert TokenOk(w, x) && TokenOk(w, token);
    forall y | Holds(t', y, x)
      ensures Holds(w.tables, y, x) && (x == token ==> y == u)
    {
    }
  }

  lemma TakenKeeps(w: World, u: User, token: Token, spent: Spent, clock: int, t': Tables, x: Token)
    requires TokensOk(w) && Holds(w.tables, u, token) && t'.challenges == w.tables.challenges - {u}
    ensures var entry := Opened(Session(u, ByCode(token, spent)));
      TokenOk(World(t', w.logins, w.journal + [Proved(u, spent, clock), entry]), x)
  {
    hide Used, WrongAnswers, SessionsOpened;
    var e, f := Proved(u, spent, clock), Opened(Session(u, ByCode(token, spent)));
    AppendTokens(w.journal, e, x);
    AppendTokens(w.journal + [e], f, x);
    assert w.journal + [e, f] == (w.journal + [e]) + [f];
    assert TokenOk(w, x) && TokenOk(w, token);
    forall y | Holds(t', y, x)
      ensures Holds(w.tables, y, x) && x != token
    {
    }
  }

  lemma CodeKeepsToken(
    v: Server, w: World, token: Token, code: string, now: int, active: User -> bool, seated: bool, x: Token)
    requires TokensOk(w)
    ensures TokenOk(Step(v, w, CodeOp(token, code, now, active, seated)), x)
    ensures TokensUnique(Step(v, w, CodeOp(token, code, now, active, seated)).tables)
  {
    hide Answer, TotpStep, TokenOk;
    var h := Holder(w.tables, token);
    if h.Some? && w.tables.challenges[h.value].expires > now && active(h.value) {
      var u := h.value;
      assert Holds(w.tables, u, token);
      if Answer(v, w.tables, u, code, now, seated).Ok? {
        AnswerOutcomes(v, w.tables, u, code, now, seated);
        var (t', a) := Answer(v, w.tables, u, code, now, seated).value;
        match a
        case Missed => MissKeeps(w, u, token, t', x);
        case Lapsed => FewerChallenges(w, World(t', w.logins, w.journal), x);
        case Taken(spent) => TakenKeeps(w, u, token, spent, TotpStep(now), t', x);
      }
    }
  }

  lemma SpendKeepsChallenges(v: Server, t: Tables, u: User, code: string, now: int)
    requires Spend(v, t, u, code, now).Ok?
    ensures Spend(v, t, u, code, now).value.0.challenges == t.challenges
    ensures Spend(v, t, u, code, now).value.0.sessions == t.sessions
    ensures Spend(v, t, u, code, now).value.0.ended == t.ended
  {
    hide Match, IsTotpCode, Normalize;
  }

  lemma ConfirmKeepsChallenges(v: Server, t: Tables, u: User, code: string, now: int, codes: seq<string>)
    requires Confirm(v, t, u, code, now, codes).Ok?
    ensures Confirm(v, t, u, code, now, codes).value.0.challenges == t.challenges
    ensures Confirm(v, t, u, code, now, codes).value.0.sessions == t.sessions
    ensures Confirm(v, t, u, code, now, codes).value.0.ended == t.ended
  {
    hide Match, Normalize, Digests;
  }

  predicate TokenFree(e: Entry) {
    !e.Challenged? && !e.WrongAnswer? && (e.Opened? ==> e.session.via.ByPassword?)
  }

  lemma Append2Tokens(j: seq<Entry>, e: Entry, f: Entry, token: Token)
    requires TokenFree(e) && TokenFree(f)
    ensures var j' := j + [e, f];
      && (Used(j', token) <==> Used(j, token))
      && WrongAnswers(j', token) == WrongAnswers(j, token) && SessionsOpened(j', token) == SessionsOpened(j, token)
  {
    assert j + [e, f] == (j + [e]) + [f];
    AppendTokens(j, e, token);
    AppendTokens(j + [e], f, token);
  }

  /** Every transaction but the two about challenges leaves the journal of tokens alone and adds no challenge. */
  lemma OtherOps(v: Server, w: World, op: Op, token: Token)
    requires !op.CodeOp? && !(op.ProceedOp? && op.login in w.logins && w.logins[op.login].enrolled)
    ensures var w' := Step(v, w, op);
      && (Used(w'.journal, token) <==> Used(w.journal, token))
      && WrongAnswers(w'.journal, token) == WrongAnswers(w.journal, token)
      && SessionsOpened(w'.journal, token) == SessionsOpened(w.journal, token)
      && (forall u | u in w'.tables.challenges ::
            u in w.tables.challenges && w'.tables.challenges[u] == w.tables.challenges[u])
  {
    hide Spend, Confirm, TotpStep, Digests, Used, WrongAnswers, SessionsOpened;
    match op
    case StartOp(_, _) =>
    case ConfirmOp(u, code, now, codes) =>
      if Confirm(v, w.tables, u, code, now, codes).Ok? {
        ConfirmKeepsChallenges(v, w.tables, u, code, now, codes);
        AppendTokens(w.journal, Began(u, Confirm(v, w.tables, u, code, now, codes).value.1, TotpStep(now)), token);
      }
    case RenewOp(u, code, now, codes) =>
      if Spend(v, w.tables, u, code, now).Ok? {
        SpendKeepsChallenges(v, w.tables, u, code, now);
        var spent := Spend(v, w.tables, u, code, now).value.1;
        Append2Tokens(w.journal, Proved(u, spent, TotpStep(now)), Renewed(u), token);
      }
    case RemoveOp(u, keep, code, now) =>
      if Spend(v, w.tables, u, code, now).Ok? {
        SpendKeepsChallenges(v, w.tables, u, code, now);
        var spent := Spend(v, w.tables, u, code, now).value.1;
        Append2Tokens(w.journal, Proved(u, spent, TotpStep(now)), Ended(u), token);
      }
    case AdminRemoveOp(u, _) => AppendTokens(w.journal, Ended(u), token);
    case PasswordOp(_, _) =>
    case ProceedOp(login, _, _, _) =>
      if login in w.logins {
        AppendTokens(w.journal, Opened(Session(w.logins[login].user, ByPassword(login))), token);
      }
  }

  lemma StepKeepsToken(v: Server, w: World, op: Op, x: Token)
    requires TokensOk(w)
    ensures TokenOk(Step(v, w, op), x) && TokensUnique(Step(v, w, op).tables)
  {
    hide TokenOk;
    if op.CodeOp? {
      CodeKeepsToken(v, w, op.token, op.code, op.now, op.active, op.seated, x);
    } else if op.ProceedOp? && op.login in w.logins && w.logins[op.login].enrolled {
      if !Used(w.journal, op.token) {
        IssueKeeps(w, w.logins[op.login].user, op.token, op.now, x);
      }
    } else {
      hide Step;
      OtherOps(v, w, op, x);
      FewerChallenges(w, Step(v, w, op), x);
    }
  }

  lemma {:induction false} RunKeepsTokens(v: Server, ops: seq<Op>)
    ensures TokensOk(Run(v, ops))
    decreases |ops|
  {
    hide Step, TokenOk;
    if ops == [] {
      forall token
        ensures TokenOk(Run(v, ops), token)
      {
        NothingYet(Run(v, ops), token);
      }
    } else {
      var w := Run(v, ops[..|ops| - 1]);
      var w' := Run(v, ops);
      RunKeepsTokens(v, ops[..|ops| - 1]);
      forall token
        ensures TokenOk(w', token)
      {
        StepKeepsToken(v, w, ops[|ops| - 1], token);
      }
      StepKeepsToken(v, w, ops[|ops| - 1], 0);
    }
  }

  lemma NothingYet(w: World, token: Token)
    requires w.journal == [] && w.tables.challenges == map[]
    ensures TokenOk(w, token)
  {
  }

  /** In every run, a challenge takes at most five wrong codes and opens at most one session;
      one that is stored has taken fewer, as many as it says, and has opened none. */
  lemma ChallengesAreBounded(v: Server, ops: seq<Op>, token: Token)
    ensures var w := Run(v, ops);
      && WrongAnswers(w.journal, token) <= 5 && SessionsOpened(w.journal, token) <= 1
      && forall u | Holds(w.tables, u, token) ::
           && w.tables.challenges[u].attempts == WrongAnswers(w.journal, token) < 5
           && SessionsOpened(w.journal, token) == 0
  {
    RunKeepsTokens(v, ops);
    assert TokenOk(Run(v, ops), token);
  }

  // ---- No session past a factor without a code ----

  /** The sessions there are, as the journal has them opened. */
  function SessionsOf(journal: seq<Entry>): seq<Session> {
    if journal == [] then []
    else
      var before := SessionsOf(journal[..|journal| - 1]);
      if journal[|journal| - 1].Opened? then before + [journal[|journal| - 1].session] else before
  }

  /** A session opened by a code comes right after that code's being proved by its owner; one
      opened by a password alone belongs to a sign-in that read no factor. */
  ghost predicate Justified(w: World, i: nat)
    requires i < |w.journal|
  {
    var e := w.journal[i];
    e.Opened? ==>
      match e.session.via
      case ByCode(_, spent) =>
        i > 0 && w.journal[i - 1].Proved? && w.journal[i - 1].user == e.session.user && w.journal[i - 1].spent == spent
      case ByPassword(login) =>
        login in w.logins && w.logins[login] == Login(e.session.user, false)
  }

  ghost predicate SessionsOk(w: World) {
    && w.tables.sessions == SessionsOf(w.journal)
    && forall i | 0 <= i < |w.journal| :: Justified(w, i)
  }

  lemma AppendSessions(j: seq<Entry>, e: Entry)
    ensures SessionsOf(j + [e]) == SessionsOf(j) + if e.Opened? then [e.session] else []
  {
    assert (j + [e])[..|j + [e]| - 1] == j;
  }

  lemma Append2Sessions(j: seq<Entry>, e: Entry, f: Entry)
    requires !e.Opened?
    ensures SessionsOf(j + [e, f]) == SessionsOf(j) + if f.Opened? then [f.session] else []
  {
    assert j + [e, f] == (j + [e]) + [f];
    AppendSessions(j, e);
    AppendSessions(j + [e], f);
  }

  /** What a transaction adds to the journal, and to the sessions. */
  lemma StepAdds(v: Server, w: World, op: Op) returns (added: seq<Entry>)
    ensures var w' := Step(v, w, op);
      && w'.journal == w.journal + added
      && SessionsOf(w'.journal) == SessionsOf(w.journal) + w'.tables.sessions[|w.tables.sessions|..]
      && w.tables.sessions <= w'.tables.sessions
      && (forall l | l in w.logins :: l in w'.logins && w'.logins[l] == w.logins[l])
      && (forall i | 0 <= i < |added| && added[i].Opened? ::
            match added[i].session.via
            case ByCode(_, spent) =>
              i == 1 && added[0].Proved? && added[0].user == added[1].session.user && added[0].spent == spent
            case ByPassword(login) => login in w.logins && w.logins[login] == Login(added[i].session.user, false))
  {
    hide Spend, Confirm, Answer, TotpStep, Digests, SessionsOf;
    added := [];
    match op
    case StartOp(_, _) =>
    case ConfirmOp(u, code, now, codes) =>
      if Confirm(v, w.tables, u, code, now, codes).Ok? {
        ConfirmKeepsChallenges(v, w.tables, u, code, now, codes);
        added := [Began(u, Confirm(v, w.tables, u, code, now, codes).value.1, TotpStep(now))];
        AppendSessions(w.journal, added[0]);
      }
    case RenewOp(u, code, now, codes) =>
      if Spend(v, w.tables, u, code, now).Ok? {
        SpendKeepsChallenges(v, w.tables, u, code, now);
        var (t1, spent) := Spend(v, w.tables, u, code, now).value;
        if Replace(v, t1, u, codes).Ok? {
          added := [Proved(u, spent, TotpStep(now)), Renewed(u)];
          Append2Sessions(w.journal, added[0], added[1]);
        }
      }
    case RemoveOp(u, keep, code, now) =>
      if Spend(v, w.tables, u, code, now).Ok? {
        SpendKeepsChallenges(v, w.tables, u, code, now);
        added := [Proved(u, Spend(v, w.tables, u, code, now).value.1, TotpStep(now)), Ended(u)];
        Append2Sessions(w.journal, added[0], added[1]);
      }
    case AdminRemoveOp(u, allowed) =>
      if allowed && Confirmed(w.tables, u) {
        added := [Ended(u)];
        AppendSessions(w.journal, added[0]);
      }
    case PasswordOp(_, _) =>
    case ProceedOp(_, _, _, _) => added := ProceedAdds(v, w, op);
    case CodeOp(_, _, _, _, _) => added := CodeAdds(v, w, op);
  }

  lemma ProceedAdds(v: Server, w: World, op: Op) returns (added: seq<Entry>)
    requires op.ProceedOp?
    ensures var w' := Step(v, w, op);
      && w'.journal == w.journal + added && w'.logins == w.logins
      && SessionsOf(w'.journal) == SessionsOf(w.journal) + w'.tables.sessions[|w.tables.sessions|..]
      && w.tables.sessions <= w'.tables.sessions
      && (forall i | 0 <= i < |added| && added[i].Opened? ::
            added[i].session.via.ByPassword? && added[i].session.via.login in w.logins
            && w.logins[added[i].session.via.login] == Login(added[i].session.user, false))
  {
    hide SessionsOf, Used;
    added := [];
    if op.login in w.logins {
      var l := w.logins[op.login];
      if l.enrolled {
        if !Used(w.journal, op.token) {
          added := [Challenged(l.user, op.token)];
          AppendSessions(w.journal, added[0]);
        }
      } else if op.seated {
        added := [Opened(Session(l.user, ByPassword(op.login)))];
        AppendSessions(w.journal, added[0]);
      }
    }
  }

  lemma AnswerSessions(v: Server, t: Tables, u: User, code: string, now: int, seated: bool)
    requires u in t.challenges && Answer(v, t, u, code, now, seated).Ok?
    ensures var (t', a) := Answer(v, t, u, code, now, seated).value;
      t'.sessions == t.sessions + match a
        case Taken(spent) => [Session(u, ByCode(t.challenges[u].token, spent))]
        case _ => []
  {
    hide Spend;
    if Spend(v, t, u, code, now).Ok? {
      SpendKeepsChallenges(v, t, u, code, now);
    }
  }

  lemma CodeAdds(v: Server, w: World, op: Op) returns (added: seq<Entry>)
    requires op.CodeOp?
    ensures var w' := Step(v, w, op);
      && w'.journal == w.journal + added && w'.logins == w.logins
      && SessionsOf(w'.journal) == SessionsOf(w.journal) + w'.tables.sessions[|w.tables.sessions|..]
      && w.tables.sessions <= w'.tables.sessions
      && (forall i | 0 <= i < |added| && added[i].Opened? ::
            i == 1 && added[0].Proved? && added[0].user == added[1].session.user
            && added[1].session.via.ByCode? && added[0].spent == added[1].session.via.spent)
  {
    hide Answer, TotpStep, SessionsOf;
    added := [];
    var h := Holder(w.tables, op.token);
    if h.Some? && w.tables.challenges[h.value].expires > op.now && op.active(h.value) {
      var u := h.value;
      if Answer(v, w.tables, u, op.code, op.now, op.seated).Ok? {
        AnswerSessions(v, w.tables, u, op.code, op.now, op.seated);
        var (t', a) := Answer(v, w.tables, u, op.code, op.now, op.seated).value;
        match a
        case Missed =>
          added := [WrongAnswer(op.token)];
          AppendSessions(w.journal, added[0]);
        case Lapsed =>
        case Taken(spent) =>
          assert Holds(w.tables, u, op.token);
          added := [Proved(u, spent, TotpStep(op.now)), Opened(Session(u, ByCode(op.token, spent)))];
          Append2Sessions(w.journal, added[0], added[1]);
      }
    }
  }

  lemma StepKeepsSessions(v: Server, w: World, op: Op)
    requires SessionsOk(w)
    ensures SessionsOk(Step(v, w, op))
  {
    hide Step, SessionsOf;
    var added := StepAdds(v, w, op);
    var w' := Step(v, w, op);
    forall i | 0 <= i < |w'.journal|
      ensures Justified(w', i)
    {
      if i < |w.journal| {
        assert Justified(w, i);
      } else {
        assert w'.journal[i] == added[i - |w.journal|];
      }
    }
  }

  lemma {:induction false} RunKeepsSessions(v: Server, ops: seq<Op>)
    ensures SessionsOk(Run(v, ops))
    decreases |ops|
  {
    hide Step;
    if ops != [] {
      RunKeepsSessions(v, ops[..|ops| - 1]);
      StepKeepsSessions(v, Run(v, ops[..|ops| - 1]), ops[|ops| - 1]);
    }
  }

  /** Only a removal ends sessions, and it ends none opened since: a session just opened is live. */
  ghost predicate EndedOk(t: Tables) {
    forall i | i in t.ended :: i < |t.sessions|
  }

  lemma AnswerKeepsEnded(v: Server, t: Tables, u: User, code: string, now: int, seated: bool)
    requires u in t.challenges && Answer(v, t, u, code, now, seated).Ok?
    ensures Answer(v, t, u, code, now, seated).value.0.ended == t.ended
  {
    hide Spend;
    if Spend(v, t, u, code, now).Ok? {
      SpendKeepsChallenges(v, t, u, code, now);
    }
  }

  lemma CodeKeepsEnded(v: Server, w: World, op: Op)
    requires op.CodeOp?
    ensures Step(v, w, op).tables.ended == w.tables.ended
  {
    hide Answer, TotpStep;
    var h := Holder(w.tables, op.token);
    if h.Some? && h.value in w.tables.challenges && Answer(v, w.tables, h.value, op.code, op.now, op.seated).Ok? {
      AnswerKeepsEnded(v, w.tables, h.value, op.code, op.now, op.seated);
    }
  }

  lemma RenewKeepsEnded(v: Server, w: World, op: Op)
    requires op.RenewOp?
    ensures Step(v, w, op).tables.ended == w.tables.ended
  {
    hide Spend, TotpStep, Digests;
    if Spend(v, w.tables, op.u, op.code, op.now).Ok? {
      SpendKeepsChallenges(v, w.tables, op.u, op.code, op.now);
    }
  }

  lemma OthersKeepEnded(v: Server, w: World, op: Op)
    requires !op.CodeOp? && !op.RenewOp? && !op.RemoveOp?
    ensures Step(v, w, op).tables.ended == w.tables.ended
  {
    hide Confirm, TotpStep, Used;
    if op.ConfirmOp? && Confirm(v, w.tables, op.u, op.code, op.now, op.codes).Ok? {
      ConfirmKeepsChallenges(v, w.tables, op.u, op.code, op.now, op.codes);
    }
  }

  lemma StepKeepsEnded(v: Server, w: World, op: Op)
    requires EndedOk(w.tables)
    ensures EndedOk(Step(v, w, op).tables)
    ensures !op.RemoveOp? ==> Step(v, w, op).tables.ended == w.tables.ended
  {
    hide Step;
    var added := StepAdds(v, w, op);
    if op.CodeOp? {
      CodeKeepsEnded(v, w, op);
    } else if op.RenewOp? {
      RenewKeepsEnded(v, w, op);
    } else if op.RemoveOp? {
      RemovalEnds(v, w, op);
    } else {
      OthersKeepEnded(v, w, op);
    }
  }

  lemma {:induction false} RunKeepsEnded(v: Server, ops: seq<Op>)
    ensures EndedOk(Run(v, ops).tables)
    decreases |ops|
  {
    hide Step;
    if ops != [] {
      RunKeepsEnded(v, ops[..|ops| - 1]);
      StepKeepsEnded(v, Run(v, ops[..|ops| - 1]), ops[|ops| - 1]);
    }
  }

  /** In every run, a code that removes a factor leaves its owner signed in nowhere but in the
      session it was asked from; and a session is ended by nothing else. */
  lemma RemovalSignsOutElsewhere(v: Server, ops: seq<Op>, op: Op, i: nat)
    requires i < |Run(v, ops).tables.sessions|
    ensures var (t, t') := (Run(v, ops).tables, Run(v, ops + [op]).tables);
      && t.sessions <= t'.sessions
      && (forall k: nat | |t.sessions| <= k < |t'.sessions| :: Live(t', k))
      && (Live(t, i) && !Live(t', i) <==>
            && op.RemoveOp? && Spend(v, t, op.u, op.code, op.now).Ok?
            && Live(t, i) && t.sessions[i].user == op.u && op.keep != Some(i))
  {
    hide Step;
    assert (ops + [op])[..|ops + [op]| - 1] == ops;
    RunKeepsEnded(v, ops);
    var added := StepAdds(v, Run(v, ops), op);
    StepKeepsEnded(v, Run(v, ops), op);
    if op.RemoveOp? {
      RemovalEnds(v, Run(v, ops), op);
    }
  }

  lemma RemovalEnds(v: Server, w: World, op: Op)
    requires op.RemoveOp?
    ensures var t' := Step(v, w, op).tables;
      if Spend(v, w.tables, op.u, op.code, op.now).Ok? then t'.ended == EndOthers(w.tables, op.u, op.keep).ended
      else t' == w.tables
    ensures Step(v, w, op).tables.sessions == w.tables.sessions
  {
    hide Spend, TotpStep;
    if Spend(v, w.tables, op.u, op.code, op.now).Ok? {
      SpendKeepsChallenges(v, w.tables, op.u, op.code, op.now);
    }
  }

  lemma {:induction false} LoginStays(v: Server, ops: seq<Op>, i: nat, login: nat)
    requires i <= |ops| && login in Run(v, ops[..i]).logins
    ensures login in Run(v, ops).logins && Run(v, ops).logins[login] == Run(v, ops[..i]).logins[login]
    decreases |ops|
  {
    hide Step;
    if i < |ops| {
      assert ops[..|ops| - 1][..i] == ops[..i];
      LoginStays(v, ops[..|ops| - 1], i, login);
      var added := StepAdds(v, Run(v, ops[..|ops| - 1]), ops[|ops| - 1]);
    } else {
      assert ops[..i] == ops;
    }
  }

  /** In every run, a sign-in that found a factor in use when it read the password never opens a
      session by the password alone; and every session a code opened follows that code's being
      accepted for its owner, which happens once. */
  lemma NoSessionPastAFactor(v: Server, ops: seq<Op>, i: nat, login: nat, u: User, k: nat)
    requires i < |ops| && ops[i] == PasswordOp(login, u)
    requires login !in Run(v, ops[..i]).logins && Confirmed(Run(v, ops[..i]).tables, u)
    requires k < |Run(v, ops).journal| && Run(v, ops).journal[k].Opened?
    ensures var e := Run(v, ops).journal[k]; e.session.via != ByPassword(login)
    ensures Justified(Run(v, ops), k)
  {
    hide Justified;
    RunKeepsSessions(v, ops);
    assert ops[..i + 1][..i] == ops[..i];
    LoginStays(v, ops, i + 1, login);
    assert Justified(Run(v, ops), k);
    assert Run(v, ops).logins[login] == Login(u, true);
    NotByPassword(Run(v, ops), k, login);
  }

  lemma NotByPassword(w: World, k: nat, login: nat)
    requires k < |w.journal| && Justified(w, k) && w.journal[k].Opened?
    requires login in w.logins && w.logins[login].enrolled
    ensures w.journal[k].session.via != ByPassword(login)
  {
  }
}
