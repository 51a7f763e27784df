/** The second factor at sign-in as its transactions leave it: enrolment, recovery codes,
    login challenges and the sessions they open. A transaction commits whole or changes nothing. */
module SecondFactor {
  import opened Wrappers
  import opened Totp

  const CHALLENGE_ATTEMPTS := 5
  const CHALLENGE_TTL := 300

  type User = nat
  type Token = nat
  type Digest = nat

  /** An authenticator secret as stored: which key sealed it, and what it opens to. */
  datatype Sealed = Sealed(key: nat, secret: Secret)

  /** A user's factor; it is in use once confirmed. */
  datatype Factor = Factor(seal: Sealed, confirmed: bool, lastStep: int)

  datatype Challenge = Challenge(token: Token, expires: int, attempts: nat)

  /** What a code that was taken used up: a step of the app, or a recovery code. */
  datatype Spent = Authenticator(step: int) | RecoveryCode(digest: Digest)

  /** What opened a password-path session: the password alone, in the login named, or a challenge
      answered with a code. */
  datatype Via = ByPassword(login: nat) | ByCode(token: Token, spent: Spent)

  datatype Session = Session(user: User, via: Via)

  /** The key secrets are sealed with, if any, and the uninterpreted functions: the app's codes and the
      digest of a recovery code. */
  datatype Server = Server(key: Option<nat>, hotp: Hotp, digest: (User, string) -> Digest)

  /** The rows there are. Sessions are kept in the order they were opened, with the places of those ended since. */
  datatype Tables = Tables(
    factors: map<User, Factor>,
    recovery: map<User, map<Digest, bool>>,
    challenges: map<User, Challenge>,
    sessions: seq<Session>,
    ended: set<nat>)

  datatype Refusal =
    | Unavailable | Enrolled | NoEnrolment | NoSecondFactor | WrongCode
    | ChallengeInvalid | CodeRefused | DatabaseRefused | AccountRefused | InvalidCredentials | UserInactive

  predicate Confirmed(t: Tables, u: User) {
    u in t.factors && t.factors[u].confirmed
  }

  predicate CanOpen(v: Server, f: Factor) {
    v.key == Some(f.seal.key)
  }

  function CodesOf(t: Tables, u: User): map<Digest, bool> {
    if u in t.recovery then t.recovery[u] else map[]
  }

  function RecoveryDigest(v: Server, u: User, code: string): Digest {
    v.digest(u, Normalize(code))
  }

  // ---- What each transaction does, as one step ----

  /** A code in the app's form counts only as the app's, and any other only as a recovery code; what is
      taken can never be taken again. */
  function Spend(v: Server, t: Tables, u: User, code: string, now: int): Result<(Tables, Spent), Refusal> {
    if !Confirmed(t, u) then Err(NoSecondFactor)
    else if IsTotpCode(code) then
      var f := t.factors[u];
      if !CanOpen(v, f) then Err(Unavailable)
      else
        match Match(v.hotp, f.seal.secret, code, now, f.lastStep)
        case None => Err(WrongCode)
        case Some(step) => Ok((t.(factors := t.factors[u := f.(lastStep := step)]), Authenticator(step)))
    else
      var d := RecoveryDigest(v, u, code);
      if d in CodesOf(t, u) && !CodesOf(t, u)[d] then
        Ok((t.(recovery := t.recovery[u := CodesOf(t, u)[d := true]]), RecoveryCode(d)))
      else Err(WrongCode)
  }

  function Digests(v: Server, u: User, codes: seq<string>): seq<Digest> {
    seq(|codes|, i requires 0 <= i < |codes| => RecoveryDigest(v, u, codes[i]))
  }

  predicate Distinct(s: seq<Digest>) {
    forall i, j | 0 <= i < j < |s| :: s[i] != s[j]
  }

  function Unused(ds: seq<Digest>): map<Digest, bool> {
    map d | d in ds :: false
  }

  /** Every recovery code of before is void and every new one unused; a set with two digests alike is
      refused whole. */
  function Replace(v: Server, t: Tables, u: User, codes: seq<string>): Result<Tables, Refusal> {
    var ds := Digests(v, u, codes);
    if Distinct(ds) then Ok(t.(recovery := t.recovery[u := Unused(ds)])) else Err(DatabaseRefused)
  }

  function Drop(t: Tables, u: User): Tables {
    t.(factors := t.factors - {u}, recovery := t.recovery - {u}, challenges := t.challenges - {u})
  }

  /** A person's sessions end, but for the one to keep. */
  function EndOthers(t: Tables, u: User, keep: Option<nat>): Tables {
    t.(ended := t.ended + set i | 0 <= i < |t.sessions| && t.sessions[i].user == u && keep != Some(i))
  }

  predicate Live(t: Tables, i: nat) {
    i < |t.sessions| && i !in t.ended
  }

  function Start(v: Server, t: Tables, u: User, secret: Secret): Result<Tables, Refusal> {
    if v.key.None? then Err(Unavailable)
    else if u !in t.factors then Ok(t.(factors := t.factors[u := Factor(Sealed(v.key.value, secret), false, 0)]))
    else if !t.factors[u].confirmed then
      Ok(t.(factors := t.factors[u := t.factors[u].(seal := Sealed(v.key.value, secret))]))
    else Err(Enrolled)
  }

  function Confirm(v: Server, t: Tables, u: User, code: string, now: int, codes: seq<string>)
    : Result<(Tables, int), Refusal>
  {
    if u !in t.factors || t.factors[u].confirmed then Err(NoEnrolment)
    else
      var f := t.factors[u];
      if v.key.None? then Err(Unavailable)
      else if !CanOpen(v, f) then Err(NoEnrolment)
      else
        match Match(v.hotp, f.seal.secret, code, now, 0)
        case None => Err(WrongCode)
        case Some(step) =>
          match Replace(v, t.(factors := t.factors[u := f.(confirmed := true, lastStep := step)]), u, codes)
          case Err(e) => Err(e)
          case Ok(t') => Ok((t', step))
  }

  /** A challenge for a person, who has no other. */
  function Issue(t: Tables, u: User, token: Token, now: int): Tables {
    t.(challenges := t.challenges[u := Challenge(token, now + CHALLENGE_TTL, 0)])
  }

  /** What a sign-in finds: no account under the address, one without a password or with another than
      was typed, or the right one. */
  datatype Account = Unknown | NoPassword | WrongPassword | RightPassword(user: User, active: bool)

  datatype SignIn = CodeStep(expires: int) | Entered(session: Session)

  /** The second transaction of a sign-in, by whether the first found a factor in use: a code is
      asked for, or a session opened unless the account is refused one. */
  function Proceed(t: Tables, u: User, enrolled: bool, login: nat, token: Token, now: int, seated: bool)
    : Result<(Tables, SignIn), Refusal>
  {
    if enrolled then Ok((Issue(t, u, token, now), CodeStep(now + CHALLENGE_TTL)))
    else if !seated then Err(AccountRefused)
    else
      var s := Session(u, ByPassword(login));
      Ok((t.(sessions := t.sessions + [s]), Entered(s)))
  }

  /** A whole sign-in with nothing between its two transactions. */
  function SignedIn(t: Tables, found: Account, login: nat, token: Token, now: int, seated: bool)
    : Result<(Tables, SignIn), Refusal>
  {
    if !found.RightPassword? then Err(InvalidCredentials)
    else if !found.active then Err(UserInactive)
    else Proceed(t, found.user, Confirmed(t, found.user), login, token, now, seated)
  }

  /** Replaces the recovery codes of somebody who proves a code; nothing is spent when that fails. */
  function Renew(v: Server, t: Tables, u: User, code: string, now: int, codes: seq<string>): Result<Tables, Refusal> {
    match Spend(v, t, u, code, now)
    case Err(e) => Err(e)
    case Ok((t1, _)) => Replace(v, t1, u, codes)
  }

  ghost predicate Holds(t: Tables, u: User, token: Token) {
    u in t.challenges && t.challenges[u].token == token
  }

  /** The token of a challenge is one user's, as the table's unique key has it. */
  ghost predicate TokensUnique(t: Tables) {
    forall u, w | u in t.challenges && w in t.challenges && t.challenges[u].token == t.challenges[w].token :: u == w
  }

  ghost function Holder(t: Tables, token: Token): Option<User> {
    if u :| Holds(t, u, token) then Some(u) else None
  }

  lemma HolderIs(t: Tables, u: User, token: Token)
    requires TokensUnique(t) && Holds(t, u, token)
    ensures Holder(t, token) == Some(u)
  {
  }

  /** Nothing in the tables about a person differs. */
  ghost predicate SameFor(t: Tables, t': Tables, u: User) {
    && (u in t.factors <==> u in t'.factors) && (u in t.factors ==> t.factors[u] == t'.factors[u])
    && (u in t.recovery <==> u in t'.recovery) && (u in t.recovery ==> t.recovery[u] == t'.recovery[u])
    && (u in t.challenges <==> u in t'.challenges) && (u in t.challenges ==> t.challenges[u] == t'.challenges[u])
  }

  datatype Answered = Taken(spent: Spent) | Missed | Lapsed

  /** Finishes a sign-in: a wrong code is counted and the count is kept, the factor gone ends
      the challenge, and a right one opens the session, unless the account is refused one, which undoes it all. */
  function Answer(v: Server, t: Tables, u: User, code: string, now: int, seated: bool)
    : Result<(Tables, Answered), Refusal>
    requires u in t.challenges
  {
    var c := t.challenges[u];
    match Spend(v, t, u, code, now)
    case Err(WrongCode) =>
      if c.attempts + 1 >= CHALLENGE_ATTEMPTS then Ok((t.(challenges := t.challenges - {u}), Missed))
      else Ok((t.(challenges := t.challenges[u := c.(attempts := c.attempts + 1)]), Missed))
    case Err(NoSecondFactor) => Ok((t.(challenges := t.challenges - {u}), Lapsed))
    case Err(e) => Err(e)
    case Ok((t1, spent)) =>
      if !seated then Err(AccountRefused)
      else
        Ok((t1.(challenges := t1.challenges - {u}, sessions := t1.sessions + [Session(u, ByCode(c.token, spent))]),
            Taken(spent)))
  }

  ghost function Complete(
    v: Server, t: Tables, token: Token, code: string, now: int, active: User -> bool, seated: bool)
    : Result<(Tables, Answered), Refusal>
  {
    match Holder(t, token)
    case None => Err(ChallengeInvalid)
    case Some(u) =>
      if u in t.challenges && t.challenges[u].expires > now && active(u) then Answer(v, t, u, code, now, seated)
      else Err(ChallengeInvalid)
  }

  // ---- What the transactions promise, said of the tables alone ----

  /** A typed code proves who somebody is: the app shows it at a step not yet used and near the clock's, under
      the key there is; or, not having the app's form, it is one of the recovery codes left. What it used up
      and what the tables then hold. */
  ghost predicate Takes(v: Server, t: Tables, u: User, code: string, now: int, spent: Spent, t': Tables) {
    && u in t.factors && t.factors[u].confirmed
    && match spent
       case Authenticator(s) =>
         var f := t.factors[u];
         && IsTotpCode(code) && v.key == Some(f.seal.key)
         && v.hotp(f.seal.secret, s) == Normalize(code)
         && f.lastStep < s && TotpStep(now) - 1 <= s <= TotpStep(now) + 1
         && t' == t.(factors := t.factors[u := Factor(f.seal, true, s)])
       case RecoveryCode(d) =>
         && !IsTotpCode(code) && d == v.digest(u, Normalize(code))
         && u in t.recovery && d in t.recovery[u] && !t.recovery[u][d]
         && t' == t.(recovery := t.recovery[u := CodesOf(t, u)[d := true]])
  }

  /** A code is taken exactly when it proves something, and otherwise one reason is given. */
  lemma SpendIs(v: Server, t: Tables, u: User, code: string, now: int)
    ensures match Spend(v, t, u, code, now)
      case Ok((t', spent)) => Takes(v, t, u, code, now, spent, t')
      case Err(e) =>
        && (forall spent, t' :: !Takes(v, t, u, code, now, spent, t'))
        && e == (if !(u in t.factors && t.factors[u].confirmed) then NoSecondFactor
                 else if IsTotpCode(code) && v.key != Some(t.factors[u].seal.key) then Unavailable
                 else WrongCode)
  {
    hide Normalize, TotpStep, Match;
    if u in t.factors {
      MatchIs(v.hotp, t.factors[u].seal.secret, code, now, t.factors[u].lastStep);
      TotpCodeIs(code);
    }
  }

  /** The rows of a new set of recovery codes: their digests and no other, none used. */
  ghost predicate NewCodes(v: Server, u: User, codes: seq<string>, rows: map<Digest, bool>) {
    && (forall i | 0 <= i < |codes| :: v.digest(u, Normalize(codes[i])) in rows)
    && (forall d | d in rows :: !rows[d] && exists i | 0 <= i < |codes| :: d == v.digest(u, Normalize(codes[i])))
  }

  ghost predicate Alike(v: Server, u: User, codes: seq<string>) {
    exists i, j | 0 <= i < j < |codes| :: v.digest(u, Normalize(codes[i])) == v.digest(u, Normalize(codes[j]))
  }

  lemma NewCodesAre(v: Server, u: User, codes: seq<string>)
    ensures NewCodes(v, u, codes, Unused(Digests(v, u, codes)))
    ensures Alike(v, u, codes) <==> !Distinct(Digests(v, u, codes))
  {
    hide Normalize, Digests;
    var ds := Digests(v, u, codes);
    DigestsAre(v, u, codes);
    assert forall i | 0 <= i < |codes| :: ds[i] in ds && ds[i] == v.digest(u, Normalize(codes[i]));
    if !Distinct(ds) {
      var i, j :| 0 <= i < j < |ds| && ds[i] == ds[j];
      assert v.digest(u, Normalize(codes[i])) == v.digest(u, Normalize(codes[j]));
    }
  }

  /** New codes take the place of all there were, unless two have the same digest. */
  lemma ReplacesAll(v: Server, t: Tables, u: User, codes: seq<string>)
    ensures match Replace(v, t, u, codes)
      case Err(e) => e == DatabaseRefused && Alike(v, u, codes)
      case Ok(t') =>
        !Alike(v, u, codes)
        && exists rows: map<Digest, bool> :: NewCodes(v, u, codes, rows) && t' == t.(recovery := t.recovery[u := rows])
  {
    hide Digests, Distinct, Unused, NewCodes, Alike;
    NewCodesAre(v, u, codes);
  }

  /** A started enrolment stores the sealed secret and leaves a step already kept; one in use stays. */
  lemma StartIs(v: Server, t: Tables, u: User, secret: Secret)
    ensures match Start(v, t, u, secret)
      case Err(e) =>
        e == if v.key.None? then Unavailable else Enrolled
      case Ok(t') =>
        && v.key.Some? && (u in t.factors ==> !t.factors[u].confirmed)
        && var kept := if u in t.factors then t.factors[u].lastStep else 0;
           t' == t.(factors := t.factors[u := Factor(Sealed(v.key.value, secret), false, kept)])
    ensures Start(v, t, u, secret) == Err(Enrolled) ==> u in t.factors && t.factors[u].confirmed
  {
  }

  /** An enrolment is confirmed by a code its secret's app shows near the clock's step, past step zero, and
      takes effect with its codes; otherwise the first of the reasons in order. */
  lemma ConfirmIs(v: Server, t: Tables, u: User, code: string, now: int, codes: seq<string>)
    ensures match Confirm(v, t, u, code, now, codes)
      case Ok((t', s)) =>
        && u in t.factors && !t.factors[u].confirmed && v.key == Some(t.factors[u].seal.key) && !Alike(v, u, codes)
        && v.hotp(t.factors[u].seal.secret, s) == Normalize(code) && |Normalize(code)| == 6
        && 0 < s && TotpStep(now) - 1 <= s <= TotpStep(now) + 1
        && exists rows: map<Digest, bool> :: NewCodes(v, u, codes, rows)
             && t' == t.(factors := t.factors[u := Factor(t.factors[u].seal, true, s)],
                         recovery := t.recovery[u := rows])
      case Err(NoEnrolment) =>
        u !in t.factors || t.factors[u].confirmed || (v.key.Some? && v.key != Some(t.factors[u].seal.key))
      case Err(Unavailable) => u in t.factors && !t.factors[u].confirmed && v.key.None?
      case Err(WrongCode) =>
        && u in t.factors && !t.factors[u].confirmed && v.key == Some(t.factors[u].seal.key)
        && (|Normalize(code)| == 6 ==>
              forall s | 0 < s && TotpStep(now) - 1 <= s <= TotpStep(now) + 1 ::
                v.hotp(t.factors[u].seal.secret, s) != Normalize(code))
      case Err(e) => e == DatabaseRefused && Alike(v, u, codes)
  {
    hide Normalize, TotpStep, Match, Replace, NewCodes, Alike;
    if u in t.factors {
      var f := t.factors[u];
      MatchIs(v.hotp, f.seal.secret, code, now, 0);
      var m := Match(v.hotp, f.seal.secret, code, now, 0);
      if m.Some? {
        ReplacesAll(v, t.(factors := t.factors[u := f.(confirmed := true, lastStep := m.value)]), u, codes);
      }
    }
  }

  /** A password sign-in: refused without the right password or for an inactive account; asked for a code,
      for five minutes, when a factor is in use; let in otherwise, unless the account is refused a session. */
  lemma SignedInIs(t: Tables, found: Account, login: nat, token: Token, now: int, seated: bool)
    ensures match SignedIn(t, found, login, token, now, seated)
      case Err(InvalidCredentials) => !found.RightPassword?
      case Err(UserInactive) => found.RightPassword? && !found.active
      case Err(e) =>
        && e == AccountRefused && found.RightPassword? && found.active && !seated
        && !(found.user in t.factors && t.factors[found.user].confirmed)
      case Ok((t', CodeStep(expires))) =>
        && found.RightPassword? && found.active && found.user in t.factors && t.factors[found.user].confirmed
        && expires == now + 300
        && t' == t.(challenges := t.challenges[found.user := Challenge(token, now + 300, 0)])
      case Ok((t', Entered(s))) =>
        && found.RightPassword? && found.active && seated
        && !(found.user in t.factors && t.factors[found.user].confirmed)
        && s == Session(found.user, ByPassword(login)) && t' == t.(sessions := t.sessions + [s])
  {
  }

  /** Recovery codes are replaced for whoever proves a code, which is used up, and for nobody else. */
  lemma RenewIs(v: Server, t: Tables, u: User, code: string, now: int, codes: seq<string>)
    ensures match Renew(v, t, u, code, now, codes)
      case Ok(t') =>
        && !Alike(v, u, codes)
        && exists spent, t1, rows: map<Digest, bool> ::
             Takes(v, t, u, code, now, spent, t1) && NewCodes(v, u, codes, rows)
             && t' == t1.(recovery := t1.recovery[u := rows])
      case Err(e) =>
        if e == DatabaseRefused then Alike(v, u, codes) && exists spent, t1 :: Takes(v, t, u, code, now, spent, t1)
        else forall spent, t1 :: !Takes(v, t, u, code, now, spent, t1)
  {
    hide Spend, Takes, Replace, NewCodes, Alike, IsTotpCode;
    SpendIs(v, t, u, code, now);
    if Spend(v, t, u, code, now).Ok? {
      var (t1, spent) := Spend(v, t, u, code, now).value;
      ReplacesAll(v, t1, u, codes);
    }
  }

  /** A waiting sign-in is finished by its token, in time, for an active account, with a code that proves
      it: a session opens, and the challenge is gone. A wrong code counts, and the fifth ends it. */
  lemma CompleteIs(v: Server, t: Tables, u: User, token: Token, code: string, now: int, active: User -> bool,
                   seated: bool)
    requires TokensUnique(t) && u in t.challenges && t.challenges[u].token == token
    ensures var c := t.challenges[u];
      match Complete(v, t, token, code, now, active, seated)
      case Ok((t', Taken(spent))) =>
        && c.expires > now && active(u) && seated
        && exists t1 :: Takes(v, t, u, code, now, spent, t1)
             && t' == t1.(challenges := t.challenges - {u},
                          sessions := t.sessions + [Session(u, ByCode(token, spent))])
      case Ok((t', Missed)) =>
        && c.expires > now && active(u) && (forall spent, t1 :: !Takes(v, t, u, code, now, spent, t1))
        && t' == t.(challenges := if c.attempts < 4 then t.challenges[u := Challenge(token, c.expires, c.attempts + 1)]
                                  else t.challenges - {u})
      case Ok((t', Lapsed)) =>
        && c.expires > now && active(u) && !(u in t.factors && t.factors[u].confirmed)
        && t' == t.(challenges := t.challenges - {u})
      case Err(ChallengeInvalid) => c.expires <= now || !active(u)
      case Err(Unavailable) =>
        c.expires > now && active(u) && IsTotpCode(code)
        && u in t.factors && t.factors[u].confirmed && v.key != Some(t.factors[u].seal.key)
      case Err(e) =>
        && e == AccountRefused && c.expires > now && active(u) && !seated
        && exists spent, t1 :: Takes(v, t, u, code, now, spent, t1)
  {
    hide Spend, IsTotpCode;
    HolderIs(t, u, token);
    SpendIs(v, t, u, code, now);
    if Spend(v, t, u, code, now).Ok? {
      TakesOnly(v, t, u, code, now, Spend(v, t, u, code, now).value.1, Spend(v, t, u, code, now).value.0);
    }
  }

  lemma TakesOnly(v: Server, t: Tables, u: User, code: string, now: int, spent: Spent, t': Tables)
    requires Takes(v, t, u, code, now, spent, t')
    ensures t'.challenges == t.challenges && t'.sessions == t.sessions && t'.ended == t.ended
  {
  }

  /** A token nobody waits with finishes nothing. */
  lemma StrangeToken(v: Server, t: Tables, token: Token, code: string, now: int, active: User -> bool, seated: bool)
    requires forall u | u in t.challenges :: t.challenges[u].token != token
    ensures Complete(v, t, token, code, now, active, seated) == Err(ChallengeInvalid)
  {
    assert forall u :: !Holds(t, u, token);
  }

  /** Once a newer sign-in has its challenge, the token of the one before finishes nothing. */
  lemma EarlierChallengeIsVoid(v: Server, t: Tables, u: User, earlier: Token, token: Token, now: int,
                               code: string, at: int, active: User -> bool, seated: bool)
    requires TokensUnique(t) && Holds(t, u, earlier) && earlier != token
    ensures Complete(v, Issue(t, u, token, now), earlier, code, at, active, seated) == Err(ChallengeInvalid)
  {
    hide Answer;
    forall w
      ensures !Holds(Issue(t, u, token, now), w, earlier)
    {
      assert Holds(t, w, earlier) ==> w == u;
    }
  }

  /** Once a factor is dropped, no code of its owner's is taken, and a sign-in waiting on one is not finished. */
  lemma DroppedFactorTakesNoCode(v: Server, t: Tables, u: User, token: Token,
                                 code: string, now: int, active: User -> bool, seated: bool)
    requires TokensUnique(t)
    ensures Spend(v, Drop(t, u), u, code, now) == Err(NoSecondFactor)
    ensures Holds(t, u, token) ==> Complete(v, Drop(t, u), token, code, now, active, seated) == Err(ChallengeInvalid)
  {
    hide Answer, IsTotpCode, Match;
    forall w | Holds(t, u, token)
      ensures !Holds(Drop(t, u), w, token)
    {
      assert Holds(t, w, token) ==> w == u;
    }
  }

  // ---- Replacing codes one by one ----

  lemma DigestsAre(v: Server, u: User, codes: seq<string>)
    ensures var ds := Digests(v, u, codes);
      |ds| == |codes| && forall i | 0 <= i < |codes| :: ds[i] == v.digest(u, Normalize(codes[i]))
    ensures Distinct([]) && Unused([]) == map[]
  {
    hide Normalize;
  }

  /** One more digest is a new row, or shows that two are alike. */
  lemma NextDigest(ds: seq<Digest>, i: nat)
    requires i < |ds| && Distinct(ds[..i])
    ensures ds[i] in Unused(ds[..i]) ==> !Distinct(ds)
    ensures ds[i] !in Unused(ds[..i]) ==> Distinct(ds[..i + 1])
    ensures Unused(ds[..i + 1]) == Unused(ds[..i])[ds[i] := false]
  {
    assert ds[..i + 1] == ds[..i] + [ds[i]];
    if ds[i] in Unused(ds[..i]) {
      var j :| 0 <= j < i && ds[..i][j] == ds[i];
      assert ds[j] == ds[i];
    }
  }

  lemma ReplaceIs(v: Server, t: Tables, u: User, codes: seq<string>)
    requires Distinct(Digests(v, u, codes))
    ensures Replace(v, t, u, codes) == Ok(t.(recovery := t.recovery[u := Unused(Digests(v, u, codes))]))
  {
    hide Distinct, Digests, Unused;
  }

  lemma OtherCodes(t: Tables, t': Tables, u: User)
    requires t' == t.(recovery := t'.recovery) && t'.recovery - {u} == t.recovery - {u}
    ensures forall w | w != u :: SameFor(t, t', w)
  {
    forall w | w != u
      ensures SameFor(t, t', w)
    {
      assert w in t.recovery <==> w in t.recovery - {u};
      assert w in t'.recovery <==> w in t'.recovery - {u};
      assert w in t.recovery ==> (t.recovery - {u})[w] == t.recovery[w];
      assert w in t'.recovery ==> (t'.recovery - {u})[w] == t'.recovery[w];
    }
  }

  // ---- The service, statement by statement ----

  class AuthService {
    const server: Server
    var factors: map<User, Factor>
    var recovery: map<User, map<Digest, bool>>
    var challenges: map<User, Challenge>
    var sessions: seq<Session>
    var ended: set<nat>

    ghost function View(): Tables
      reads this
    {
      Tables(factors, recovery, challenges, sessions, ended)
    }

    constructor (server: Server)
      ensures this.server == server && View() == Tables(map[], map[], map[], [], {})
    {
      this.server := server;
      factors, recovery, challenges, sessions, ended := map[], map[], map[], [], {};
    }

    method StartSecondFactor(u: User, secret: Secret) returns (r: Option<Refusal>)
      modifies this
      ensures match Start(server, old(View()), u, secret)
        case Ok(t) => r.None? && View() == t
        case Err(e) => r == Some(e) && View() == old(View())
    {
      if server.key.None? {
        return Some(Unavailable);
      }
      var seal := Sealed(server.key.value, secret);
      if u !in factors {
        factors := factors[u := Factor(seal, false, 0)];
      } else if !factors[u].confirmed {
        factors := factors[u := factors[u].(seal := seal)];
      } else {
        return Some(Enrolled);
      }
      return None;
    }

    method SpendCode(u: User, code: string, now: int) returns (r: Result<Spent, Refusal>)
      modifies this`factors, this`recovery
      ensures match Spend(server, old(View()), u, code, now)
        case Ok((t, spent)) => r == Ok(spent) && View() == t
        case Err(e) => r == Err(e) && View() == old(View())
      ensures r.Ok? ==> Takes(server, old(View()), u, code, now, r.value, View())
      ensures r.Err? ==> forall spent, t :: !Takes(server, old(View()), u, code, now, spent, t)
    {
      SpendIs(server, View(), u, code, now);
      if IsTotpCode(code) {
        if !(u in factors && factors[u].confirmed) {
          return Err(NoSecondFactor);
        }
        var f := factors[u];
        if server.key != Some(f.seal.key) {
          return Err(Unavailable);
        }
        var step, ok := MatchTotp(server.hotp, f.seal.secret, code, now, f.lastStep);
        if !ok {
          return Err(WrongCode);
        }
        factors := factors[u := f.(lastStep := step)];
        return Ok(Authenticator(step));
      }
      var has := u in factors && factors[u].confirmed;
      if !has {
        return Err(NoSecondFactor);
      }
      var digest := server.digest(u, Normalize(code));
      var rows := if u in recovery then recovery[u] else map[];
      var unused := digest in rows && !rows[digest];
      if !unused {
        return Err(WrongCode);
      }
      recovery := recovery[u := rows[digest := true]];
      return Ok(RecoveryCode(digest));
    }

    method ReplaceRecoveryCodes(u: User, codes: seq<string>) returns (ok: bool)
      modifies this`recovery
      ensures ok == Distinct(Digests(server, u, codes))
      ensures ok ==> Replace(server, old(View()), u, codes) == Ok(View())
      ensures !ok ==> u !in recovery
      ensures forall w | w != u :: SameFor(old(View()), View(), w)
    {
      hide Normalize, Distinct, Unused, Digests, SameFor, Replace;
      ghost var t0, ds := View(), Digests(server, u, codes);
      DigestsAre(server, u, codes);
      recovery := recovery - {u};
      OtherCodes(t0, View(), u);
      var rows: map<Digest, bool> := map[];
      for i := 0 to |codes|
        invariant Distinct(ds[..i])
        invariant rows == Unused(ds[..i])
        modifies {}
      {
        var digest := server.digest(u, Normalize(codes[i]));
        NextDigest(ds, i);
        if digest in rows {
          return false;
        }
        rows := rows[digest := false];
      }
      assert ds[..|codes|] == ds;
      recovery := recovery[u := rows];
      assert recovery == old(recovery)[u := Unused(ds)];
      ReplaceIs(server, t0, u, codes);
      OtherCodes(t0, View(), u);
      return true;
    }

    /** Only a code of the app for the started secret confirms it, and then the secret, its step and the
        new recovery codes take effect together. */
    method ConfirmSecondFactor(u: User, code: string, now: int, codes: seq<string>) returns (r: Option<Refusal>)
      modifies this
      ensures match Confirm(server, old(View()), u, code, now, codes)
        case Ok((t, _)) => r.None? && View() == t
        case Err(e) => r == Some(e) && View() == old(View())
    {
      if !(u in factors && !factors[u].confirmed) {
        return Some(NoEnrolment);
      }
      var f := factors[u];
      if server.key.None? {
        return Some(Unavailable);
      }
      if server.key.value != f.seal.key {
        return Some(NoEnrolment);
      }
      var step, ok := MatchTotp(server.hotp, f.seal.secret, code, now, 0);
      if !ok {
        return Some(WrongCode);
      }
      var before := (factors, recovery);
      factors := factors[u := f.(confirmed := true, lastStep := step)];
      var kept := ReplaceRecoveryCodes(u, codes);
      if !kept {
        factors, recovery := before.0, before.1;
        return Some(DatabaseRefused);
      }
      return None;
    }

    method DropSecondFactor(u: User)
      modifies this
      ensures View() == Drop(old(View()), u)
      ensures u !in factors && u !in recovery && u !in challenges && sessions == old(sessions) && ended == old(ended)
      ensures forall w | w != u :: SameFor(old(View()), View(), w)
    {
      factors := factors - {u};
      recovery := recovery - {u};
      challenges := challenges - {u};
    }

    method IssueChallenge(u: User, token: Token, now: int)
      modifies this`challenges
      ensures View() == Issue(old(View()), u, token, now)
      ensures Holds(View(), u, token) && challenges[u].attempts == 0 && challenges[u].expires == now + 300
      ensures forall w | w != u :: SameFor(old(View()), View(), w)
      ensures forall x | old(TokensUnique(View()) && Holds(View(), u, x)) && x != token :: Holder(View(), x).None?
    {
      challenges := challenges[u := Challenge(token, now + CHALLENGE_TTL, 0)];
    }

    /** Signs in by password, with nothing in between its reading the factor with the password
        and its second transaction; what may come in between is for SignInRuns. */
    method Login(found: Account, login: nat, token: Token, now: int, seated: bool) returns (r: Result<SignIn, Refusal>)
      modifies this`challenges, this`sessions
      ensures match SignedIn(old(View()), found, login, token, now, seated)
        case Ok((t, s)) => r == Ok(s) && View() == t
        case Err(e) => r == Err(e) && View() == old(View())
    {
      if found == Unknown || found == NoPassword || found == WrongPassword {
        return Err(InvalidCredentials);
      }
      var u := found.user;
      var enrolled := u in factors && factors[u].confirmed;
      if !found.active {
        return Err(UserInactive);
      }
      if enrolled {
        IssueChallenge(u, token, now);
        return Ok(CodeStep(challenges[u].expires));
      }
      if !seated {
        return Err(AccountRefused);
      }
      var session := Session(u, ByPassword(login));
      sessions := sessions + [session];
      return Ok(Entered(session));
    }

    method RenewRecoveryCodes(u: User, code: string, now: int, codes: seq<string>) returns (r: Option<Refusal>)
      modifies this`factors, this`recovery
      ensures match Renew(server, old(View()), u, code, now, codes)
        case Ok(t) => r.None? && View() == t
        case Err(e) => r == Some(e) && View() == old(View())
    {
      hide Spend, Takes, Distinct, Digests;
      var before := (factors, recovery);
      var how := SpendCode(u, code, now);
      if how.Err? {
        return Some(how.error);
      }
      var kept := ReplaceRecoveryCodes(u, codes);
      if !kept {
        factors, recovery := before.0, before.1;
        return Some(DatabaseRefused);
      }
      return None;
    }

    method RemoveSecondFactor(u: User, keep: Option<nat>, code: string, now: int) returns (r: Option<Refusal>)
      modifies this
      ensures match Spend(server, old(View()), u, code, now)
        case Ok((t, _)) => r.None? && View() == EndOthers(Drop(t, u), u, keep)
        case Err(e) => r == Some(e) && View() == old(View())
      ensures r.None? <==> exists spent, t :: Takes(server, old(View()), u, code, now, spent, t)
      ensures r.None? ==> u !in factors && u !in recovery && u !in challenges
      ensures r.None? ==> forall i: nat | Live(View(), i) && sessions[i].user == u :: keep == Some(i)
      ensures forall i: nat | i < |sessions| && (r.Some? || sessions[i].user != u || keep == Some(i)) ::
        Live(View(), i) <==> old(Live(View(), i))
      ensures sessions == old(sessions)
    {
      hide Spend, Takes;
      var how := SpendCode(u, code, now);
      if how.Err? {
        return Some(how.error);
      }
      DropSecondFactor(u);
      ended := ended + set i | 0 <= i < |sessions| && sessions[i].user == u && keep != Some(i);
      return None;
    }

    /** Opens a session only for a taken code of a live challenge's holder, who must not be refused an
        account; a miss costs the challenge a try. */
    method CompleteLogin(token: Token, code: string, now: int, active: User -> bool, seated: bool)
      returns (r: Result<Session, Refusal>)
      requires TokensUnique(View())
      modifies this
      ensures match Complete(server, old(View()), token, code, now, active, seated)
        case Err(e) => r == Err(e) && View() == old(View())
        case Ok((t, Missed)) => r == Err(CodeRefused) && View() == t
        case Ok((t, Lapsed)) => r == Err(ChallengeInvalid) && View() == t
        case Ok((t, Taken(_))) => View() == t && t.sessions != [] && r == Ok(t.sessions[|t.sessions| - 1])
      ensures r.Ok? ==> seated && old(Holds(View(), r.value.user, token)) && sessions == old(sessions) + [r.value]
      ensures r.Ok? ==> r.value.via.ByCode? && r.value.via.token == token
      ensures r.Ok? ==>
        Takes(server, old(View()), r.value.user, code, now, r.value.via.spent,
              old(View()).(factors := factors, recovery := recovery))
    {
      hide Takes;
      ghost var t0 := View();
      if u :| u in challenges && challenges[u].token == token {
        HolderIs(t0, u, token);
        var c := challenges[u];
        if !(c.expires > now && active(u)) {
          return Err(ChallengeInvalid);
        }
        var before := (factors, recovery);
        var how := SpendCode(u, code, now);
        match how {
          case Err(WrongCode) =>
            if c.attempts + 1 >= CHALLENGE_ATTEMPTS {
              challenges := challenges - {u};
            } else {
              challenges := challenges[u := c.(attempts := c.attempts + 1)];
            }
            return Err(CodeRefused);
          case Err(NoSecondFactor) =>
            challenges := challenges - {u};
            return Err(ChallengeInvalid);
          case Err(e) =>
            return Err(e);
          case Ok(spent) =>
            if !seated {
              factors, recovery := before.0, before.1;
              return Err(AccountRefused);
            }
            challenges := challenges - {u};
            var session := Session(u, ByCode(token, spent));
            sessions := sessions + [session];
            return Ok(session);
        }
      } else {
        assert forall u :: !Holds(t0, u, token);
        return Err(ChallengeInvalid);
      }
    }
  }
}
