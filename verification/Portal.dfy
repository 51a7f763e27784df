/** Portal codes: six digits mailed to an address and typed once, with a count of wrong ones per
    code and another per hour. Each transaction commits whole or changes nothing. */
module Portal {
  import opened Wrappers

  // Times are in seconds.
  const CODE_TTL := 600
  const CODE_ATTEMPTS := 5
  const WINDOW_ATTEMPTS := 10
  const WINDOW := 3600
  const KEPT := 86400

  type Email = string
  type Digest = nat

  datatype Row = Row(hash: Digest, attempts: nat, requested: int, expires: int, windowAttempts: nat, windowStarted: int)

  type Codes = map<Email, Row>

  /** The seconds that must pass before a second code is sent, and an uninterpreted digest of an address and a code. */
  datatype Desk = Desk(cooldown: int, digest: (Email, string) -> Digest)

  datatype Refusal = NotTrusted | TooSoon | CodeInvalid | AccountRefused

  datatype Redeemed = Missed | Opened

  // ---- What each transaction does ----

  function Issued(d: Desk, codes: Codes, email: Email, code: string, now: int): Row {
    var anew := email !in codes || codes[email].windowStarted < now - WINDOW;
    Row(d.digest(email, code), 0, now, now + CODE_TTL,
        if anew then 0 else codes[email].windowAttempts,
        if anew then now else codes[email].windowStarted)
  }

  /** Rows nobody redeemed go a day after they ran out. */
  function Swept(codes: Codes, now: int): Codes {
    map e | e in codes && codes[e].expires >= now - KEPT :: codes[e]
  }

  function Issue(d: Desk, codes: Codes, email: Email, code: string, trusted: bool, now: int): Result<Codes, Refusal> {
    if !trusted then Err(NotTrusted)
    else if email in codes && now - codes[email].requested < d.cooldown then Err(TooSoon)
    else Ok(Swept(codes[email := Issued(d, codes, email, code, now)], now))
  }

  predicate Young(windowStarted: int, now: int) {
    windowStarted > now - WINDOW
  }

  /** Whether a row would look at a code at all. */
  predicate Open(r: Row, now: int) {
    && r.expires > now && r.attempts < CODE_ATTEMPTS
    && !(r.windowAttempts >= WINDOW_ATTEMPTS && Young(r.windowStarted, now))
  }

  function Redeem(d: Desk, codes: Codes, email: Email, code: string, now: int, seated: bool)
    : Result<(Codes, Redeemed), Refusal>
  {
    if email !in codes || !Open(codes[email], now) then Err(CodeInvalid)
    else
      var r := codes[email];
      if r.hash != d.digest(email, code) then
        Ok((codes[email := r.(attempts := r.attempts + 1, windowAttempts := r.windowAttempts + 1)], Missed))
      else if seated then Ok((codes - {email}, Opened))
      else Err(AccountRefused)
  }

  // ---- The service, statement by statement ----

  class PortalService {
    const desk: Desk
    var codes: Codes
    var sessions: seq<Email>

    constructor (cooldown: int, digest: (Email, string) -> Digest)
      ensures desk == Desk(if cooldown == 0 then 60 else cooldown, digest) && codes == map[] && sessions == []
    {
      desk := Desk(if cooldown == 0 then 60 else cooldown, digest);
      codes, sessions := map[], [];
    }

    /** A code that is not refused has no wrong guesses of its own, and its window's count unless that
        window ran out; a refusal leaves every row as it was. */
    method IssuePortalCode(email: Email, code: string, trusted: bool, now: int) returns (r: Result<int, Refusal>)
      modifies this`codes
      ensures match Issue(desk, old(codes), email, code, trusted, now)
        case Ok(c) => codes == c && r == Ok(now + CODE_TTL)
        case Err(e) => codes == old(codes) && r == Err(e)
      ensures r == Err(NotTrusted) <==> !trusted
      ensures r == Err(TooSoon) <==>
        trusted && email in old(codes) && now - old(codes)[email].requested < desk.cooldown
      ensures r.Err? ==> (r.error == NotTrusted || r.error == TooSoon) && codes == old(codes)
      ensures r.Ok? ==> r.value == now + 600 && email in codes
      ensures r.Ok? ==>
        if email in old(codes) && now <= old(codes)[email].windowStarted + 3600 then
          codes[email] == Row(desk.digest(email, code), 0, now, now + 600,
                              old(codes)[email].windowAttempts, old(codes)[email].windowStarted)
        else codes[email] == Row(desk.digest(email, code), 0, now, now + 600, 0, now)
      ensures r.Ok? ==> forall e | e != email ::
        if e in old(codes) && now <= old(codes)[e].expires + 86400 then e in codes && codes[e] == old(codes)[e]
        else e !in codes
    {
      var expires := now + CODE_TTL;
      if !trusted {
        return Err(NotTrusted);
      }
      if email in codes && now - codes[email].requested < desk.cooldown {
        return Err(TooSoon);
      }
      var hash := desk.digest(email, code);
      if email !in codes {
        codes := codes[email := Row(hash, 0, now, expires, 0, now)];
      } else {
        var was := codes[email];
        var anew := was.windowStarted < now - WINDOW;
        codes := codes[email := was.(hash := hash, attempts := 0, requested := now, expires := expires,
          windowAttempts := if anew then 0 else was.windowAttempts,
          windowStarted := if anew then now else was.windowStarted)];
      }
      codes := map e | e in codes && !(codes[e].expires < now - KEPT) :: codes[e];
      return Ok(expires);
    }

    /** Whether there is a code to be guessed at an address: not run out, with fewer than five wrong guesses,
        and fewer than ten in a window begun within the hour. */
    static ghost predicate Tried(codes: Codes, email: Email, now: int) {
      && email in codes && now < codes[email].expires && codes[email].attempts < 5
      && (codes[email].windowAttempts < 10 || codes[email].windowStarted + 3600 <= now)
    }

    ghost predicate Right(row: Row, email: Email, code: string) {
      row.hash == desk.digest(email, code)
    }

    /** Turns a right code into a session. A wrong one is counted and the count committed; a
        refusal after the code was right undoes everything, the spending of the code included. */
    method RedeemPortalCode(email: Email, code: string, now: int, seated: bool) returns (r: Option<Refusal>)
      modifies this
      ensures match Redeem(desk, old(codes), email, code, now, seated)
        case Ok((c, Opened)) => r.None? && codes == c && sessions == old(sessions) + [email]
        case Ok((c, Missed)) => r == Some(CodeInvalid) && codes == c && sessions == old(sessions)
        case Err(e) => r == Some(e) && codes == old(codes) && sessions == old(sessions)
      ensures r.None? <==> Tried(old(codes), email, now) && Right(old(codes)[email], email, code) && seated
      ensures r == Some(AccountRefused) <==>
        Tried(old(codes), email, now) && Right(old(codes)[email], email, code) && !seated
      ensures r.None? ==> codes == old(codes) - {email} && sessions == old(sessions) + [email]
      ensures r.Some? ==> (r == Some(AccountRefused) || r == Some(CodeInvalid)) && sessions == old(sessions)
      ensures r.Some? ==>
        if Tried(old(codes), email, now) && !Right(old(codes)[email], email, code) then
          var row := old(codes)[email];
          codes == old(codes)[email := Row(row.hash, row.attempts + 1, row.requested, row.expires,
                                           row.windowAttempts + 1, row.windowStarted)]
        else codes == old(codes)
    {
      if email !in codes {
        return Some(CodeInvalid);
      }
      var row := codes[email];
      var windowFull := row.windowAttempts >= WINDOW_ATTEMPTS && row.windowStarted > now - WINDOW;
      if row.expires <= now || row.attempts >= CODE_ATTEMPTS || windowFull {
        return Some(CodeInvalid);
      }
      if row.hash != desk.digest(email, code) {
        codes := codes[email := row.(attempts := row.attempts + 1, windowAttempts := row.windowAttempts + 1)];
        return Some(CodeInvalid);
      }
      var before := codes;
      codes := codes - {email};
      if !seated {
        codes := before;
        return Some(AccountRefused);
      }
      sessions := sessions + [email];
      return None;
    }
  }

  // ---- Whole runs ----

  datatype Op =
    | IssueOp(email: Email, code: string, trusted: bool, now: int)
    | RedeemOp(email: Email, code: string, now: int, seated: bool)

  /** What happened, in order; a wrong guess is kept with the start of the window it was counted in. */
  datatype Entry = Sent(email: Email) | Wrong(email: Email, now: int, window: int) | Entered(email: Email, now: int)

  datatype World = World(codes: Codes, journal: seq<Entry>, clock: int)

  function Step(d: Desk, w: World, op: Op): World {
    match op
    case IssueOp(email, code, trusted, now) =>
      (match Issue(d, w.codes, email, code, trusted, now)
       case Err(_) => w.(clock := now)
       case Ok(c) => World(c, w.journal + [Sent(email)], now))
    case RedeemOp(email, code, now, seated) =>
      match Redeem(d, w.codes, email, code, now, seated)
      case Err(_) => w.(clock := now)
      case Ok((c, Missed)) => World(c, w.journal + [Wrong(email, now, w.codes[email].windowStarted)], now)
      case Ok((c, Opened)) => World(c, w.journal + [Entered(email, now)], now)
  }

  function Run(d: Desk, start: int, ops: seq<Op>): World
    decreases |ops|
  {
    if ops == [] then World(map[], [], start) else Step(d, Run(d, start, ops[..|ops| - 1]), ops[|ops| - 1])
  }

  /** The clock never goes back. */
  ghost predicate Timely(start: int, ops: seq<Op>) {
    && (forall i | 0 <= i < |ops| :: start <= ops[i].now)
    && (forall i, j | 0 <= i < j < |ops| :: ops[i].now <= ops[j].now)
  }

  // ---- Each code ----

  function WrongOnCode(journal: seq<Entry>, email: Email): nat {
    if journal == [] then 0
    else
      var (before, e) := (WrongOnCode(journal[..|journal| - 1], email), journal[|journal| - 1]);
      if e.email != email then before else if e.Wrong? then before + 1 else if e.Sent? then 0 else before
  }

  function EntriesOnCode(journal: seq<Entry>, email: Email): nat {
    if journal == [] then 0
    else
      var (before, e) := (EntriesOnCode(journal[..|journal| - 1], email), journal[|journal| - 1]);
      if e.email != email then before else if e.Entered? then before + 1 else if e.Sent? then 0 else before
  }

  ghost predicate CodeOk(w: World, email: Email) {
    && WrongOnCode(w.journal, email) <= CODE_ATTEMPTS && EntriesOnCode(w.journal, email) <= 1
    && (email in w.codes ==>
          w.codes[email].attempts == WrongOnCode(w.journal, email) && EntriesOnCode(w.journal, email) == 0)
  }

  lemma StepKeepsCode(d: Desk, w: World, op: Op, email: Email)
    requires CodeOk(w, email)
    ensures CodeOk(Step(d, w, op), email)
  {
    hide WrongOnCode, EntriesOnCode;
    var w' := Step(d, w, op);
    if |w'.journal| > |w.journal| {
      var e := w'.journal[|w.journal|];
      assert w'.journal == w.journal + [e];
      NextOnCode(w.journal, e, email);
    }
  }

  lemma NextOnCode(j: seq<Entry>, e: Entry, email: Email)
    ensures WrongOnCode(j + [e], email) ==
      if e.email != email then WrongOnCode(j, email)
      else if e.Wrong? then WrongOnCode(j, email) + 1
      else if e.Sent? then 0 else WrongOnCode(j, email)
    ensures EntriesOnCode(j + [e], email) ==
      if e.email != email then EntriesOnCode(j, email)
      else if e.Entered? then EntriesOnCode(j, email) + 1
      else if e.Sent? then 0 else EntriesOnCode(j, email)
  {
    assert (j + [e])[..|j + [e]| - 1] == j;
  }

  /** In every run, however the clock goes: a code takes at most five wrong guesses and opens at most one session. */
  lemma {:induction false} CodesAreBounded(d: Desk, start: int, ops: seq<Op>, email: Email)
    ensures var w := Run(d, start, ops);
      && WrongOnCode(w.journal, email) <= 5 && EntriesOnCode(w.journal, email) <= 1
    ensures CodeOk(Run(d, start, ops), email)
    decreases |ops|
  {
    if ops != [] {
      CodesAreBounded(d, start, ops[..|ops| - 1], email);
      StepKeepsCode(d, Run(d, start, ops[..|ops| - 1]), ops[|ops| - 1], email);
    }
  }

  // ---- Each window, and each hour ----

  datatype Guess = Guess(now: int, window: int)

  /** The wrong guesses at an address since it last got in. */
  function Guesses(journal: seq<Entry>, email: Email): seq<Guess> {
    if journal == [] then []
    else
      var (before, e) := (Guesses(journal[..|journal| - 1], email), journal[|journal| - 1]);
      if e.email != email then before
      else
        match e
        case Wrong(_, now, window) => before + [Guess(now, window)]
        case Entered(_, _) => []
        case Sent(_) => before
  }

  /** How many of the guesses were counted in a window; and how many of those before, and after, it was
      an hour old. */
  function InWindow(g: seq<Guess>, window: int): nat {
    if g == [] then 0 else InWindow(g[..|g| - 1], window) + if g[|g| - 1].window == window then 1 else 0
  }

  function InYoung(g: seq<Guess>, window: int): nat {
    if g == [] then 0
    else InYoung(g[..|g| - 1], window) + if g[|g| - 1].window == window && Young(window, g[|g| - 1].now) then 1 else 0
  }

  function InOld(g: seq<Guess>, window: int): nat {
    if g == [] then 0
    else InOld(g[..|g| - 1], window) + if g[|g| - 1].window == window && !Young(window, g[|g| - 1].now) then 1 else 0
  }

  lemma {:induction false} YoungAndOld(g: seq<Guess>, window: int)
    ensures InWindow(g, window) == InYoung(g, window) + InOld(g, window)
  {
    if g != [] {
      YoungAndOld(g[..|g| - 1], window);
    }
  }

  /** A guess was made inside its window or after it, and a later guess is in the same window or
      in one begun since, more than an hour after this one's. */
  ghost predicate Earlier(a: Guess, window: int) {
    a.window == window || (a.window + WINDOW < window && a.now <= window)
  }

  ghost predicate History(g: seq<Guess>, clock: int) {
    && (forall i | 0 <= i < |g| :: g[i].window <= g[i].now <= clock)
    && (forall i, j | 0 <= i < j < |g| :: g[i].now <= g[j].now && Earlier(g[i], g[j].window))
  }

  /** What a row knows about the guesses: its window's count, and how few of them were late. */
  ghost predicate RowOk(r: Row, g: seq<Guess>, clock: int) {
    && (forall i | 0 <= i < |g| :: Earlier(g[i], r.windowStarted))
    && r.windowStarted <= r.requested <= clock && r.requested <= r.windowStarted + WINDOW
    && r.expires == r.requested + CODE_TTL
    && r.attempts <= CODE_ATTEMPTS
    && r.windowAttempts == InWindow(g, r.windowStarted)
    && InOld(g, r.windowStarted) <= r.attempts + if r.requested == r.windowStarted + WINDOW then CODE_ATTEMPTS else 0
  }

  ghost predicate Bounded(g: seq<Guess>) {
    forall window :: InYoung(g, window) <= WINDOW_ATTEMPTS && InOld(g, window) <= 2 * CODE_ATTEMPTS
  }

  ghost predicate WindowOk(w: World, email: Email) {
    var g := Guesses(w.journal, email);
    && History(g, w.clock) && Bounded(g)
    && (if email in w.codes then RowOk(w.codes[email], g, w.clock)
        else forall i | 0 <= i < |g| :: g[i].window + WINDOW < w.clock)
  }

  lemma {:induction false} NoneInWindow(g: seq<Guess>, window: int)
    requires forall i | 0 <= i < |g| :: g[i].window != window
    ensures InWindow(g, window) == 0 && InOld(g, window) == 0
  {
    if g != [] {
      NoneInWindow(g[..|g| - 1], window);
    }
  }

  lemma {:induction false} NoneOld(g: seq<Guess>, window: int)
    requires forall i | 0 <= i < |g| :: Young(window, g[i].now)
    ensures InOld(g, window) == 0
  {
    if g != [] {
      NoneOld(g[..|g| - 1], window);
    }
  }

  lemma GuessAdds(g: seq<Guess>, a: Guess, window: int)
    ensures InWindow(g + [a], window) == InWindow(g, window) + if a.window == window then 1 else 0
    ensures InYoung(g + [a], window) == InYoung(g, window) + if a.window == window && Young(window, a.now) then 1 else 0
    ensures InOld(g + [a], window) == InOld(g, window) + if a.window == window && !Young(window, a.now) then 1 else 0
  {
    assert (g + [a])[..|g + [a]| - 1] == g;
  }

  lemma SentKeepsGuesses(j: seq<Entry>, e: Entry, email: Email)
    ensures Guesses(j + [e], email) == if e.email != email || e.Sent? then Guesses(j, email)
      else if e.Wrong? then Guesses(j, email) + [Guess(e.now, e.window)] else []
  {
    assert (j + [e])[..|j + [e]| - 1] == j;
  }

  /** A new code for the address itself: a window begun, or the same one carried on. */
  lemma IssuedRow(d: Desk, codes: Codes, email: Email, code: string, now: int, g: seq<Guess>, clock: int)
    requires d.cooldown > 0 && clock <= now && History(g, clock)
    requires if email in codes then RowOk(codes[email], g, clock) && now - codes[email].requested >= d.cooldown
             else forall i | 0 <= i < |g| :: g[i].window + WINDOW < clock
    ensures RowOk(Issued(d, codes, email, code, now), g, now)
  {
    var r' := Issued(d, codes, email, code, now);
    if r'.windowStarted == now && !(email in codes && codes[email].windowStarted == now) {
      NoneInWindow(g, now);
    } else if now < r'.windowStarted + WINDOW {
      NoneOld(g, r'.windowStarted);
    }
  }

  lemma SweptRow(r: Row, g: seq<Guess>, clock: int, now: int)
    requires RowOk(r, g, clock) && clock <= now && r.expires < now - KEPT
    ensures forall i | 0 <= i < |g| :: g[i].window + WINDOW < now
  {
  }

  lemma LaterRow(r: Row, g: seq<Guess>, clock: int, now: int)
    requires RowOk(r, g, clock) && History(g, clock) && clock <= now
    ensures RowOk(r, g, now) && History(g, now)
  {
  }

  lemma IssueKeeps(d: Desk, w: World, op: Op, email: Email)
    requires d.cooldown > 0 && op.IssueOp? && w.clock <= op.now && WindowOk(w, email)
    ensures WindowOk(Step(d, w, op), email)
  {
    hide Issued, RowOk, Bounded, Guesses, History;
    var w', g := Step(d, w, op), Guesses(w.journal, email);
    SentKeepsGuesses(w.journal, Sent(op.email), email);
    if email in w.codes {
      LaterRow(w.codes[email], g, w.clock, op.now);
      if w.codes[email].expires < op.now - KEPT {
        SweptRow(w.codes[email], g, w.clock, op.now);
      }
    }
    HistoryLater(g, w.clock, op.now);
    if email == op.email && Issue(d, w.codes, op.email, op.code, op.trusted, op.now).Ok? {
      IssuedRow(d, w.codes, email, op.code, op.now, g, w.clock);
      assert Issued(d, w.codes, email, op.code, op.now).expires == op.now + CODE_TTL by {
        IssuedExpires(d, w.codes, email, op.code, op.now);
      }
    }
  }

  lemma IssuedExpires(d: Desk, codes: Codes, email: Email, code: string, now: int)
    ensures Issued(d, codes, email, code, now).expires == now + CODE_TTL
  {
  }

  lemma HistoryLater(g: seq<Guess>, clock: int, now: int)
    requires History(g, clock) && clock <= now
    ensures History(g, now)
  {
  }

  /** A wrong guess that was looked at. */
  lemma WrongKeeps(r: Row, g: seq<Guess>, clock: int, now: int)
    requires clock <= now && History(g, clock) && Bounded(g) && RowOk(r, g, clock) && Open(r, now)
    ensures var g' := g + [Guess(now, r.windowStarted)];
      && History(g', now) && Bounded(g')
      && RowOk(r.(attempts := r.attempts + 1, windowAttempts := r.windowAttempts + 1), g', now)
  {
    var a := Guess(now, r.windowStarted);
    YoungAndOld(g, r.windowStarted);
    GuessAdds(g, a, r.windowStarted);
    forall window
      ensures InYoung(g + [a], window) <= WINDOW_ATTEMPTS && InOld(g + [a], window) <= 2 * CODE_ATTEMPTS
    {
      GuessAdds(g, a, window);
      assert InYoung(g, window) <= WINDOW_ATTEMPTS;
    }
  }

  lemma NoGuesses(clock: int)
    ensures History([], clock) && Bounded([])
  {
  }

  lemma RedeemKeeps(d: Desk, w: World, op: Op, email: Email)
    requires op.RedeemOp? && w.clock <= op.now && WindowOk(w, email)
    ensures WindowOk(Step(d, w, op), email)
  {
    hide RowOk, Bounded, Guesses, History, Open;
    var w', g := Step(d, w, op), Guesses(w.journal, email);
    if email in w.codes {
      LaterRow(w.codes[email], g, w.clock, op.now);
    }
    HistoryLater(g, w.clock, op.now);
    NoGuesses(op.now);
    if |w'.journal| > |w.journal| {
      var e := w'.journal[|w.journal|];
      assert w'.journal == w.journal + [e];
      SentKeepsGuesses(w.journal, e, email);
      if email == op.email && e.Wrong? {
        WrongKeeps(w.codes[email], g, w.clock, op.now);
      }
    }
  }

  lemma {:induction false} RunKeepsWindows(d: Desk, start: int, ops: seq<Op>, email: Email)
    requires d.cooldown > 0 && Timely(start, ops)
    ensures WindowOk(Run(d, start, ops), email)
    ensures Run(d, start, ops).clock == if ops == [] then start else ops[|ops| - 1].now
    decreases |ops|
  {
    hide WindowOk, Issue, Redeem;
    if ops == [] {
      StartsOk(start, email);
    } else {
      var before, op := ops[..|ops| - 1], ops[|ops| - 1];
      RunKeepsWindows(d, start, before, email);
      if op.IssueOp? {
        IssueKeeps(d, Run(d, start, before), op, email);
      } else {
        RedeemKeeps(d, Run(d, start, before), op, email);
      }
    }
  }

  lemma StartsOk(start: int, email: Email)
    ensures WindowOk(World(map[], [], start), email)
  {
    NoGuesses(start);
  }

  /** In every run with a clock that never goes back, between two times somebody gets in: at
      most ten wrong guesses fall in a window while it is younger than an hour, however many
      codes are asked for, and a stored row's count is the guesses made in its window. */
  lemma WindowsAreBounded(d: Desk, start: int, ops: seq<Op>, email: Email, window: int)
    requires d.cooldown > 0 && Timely(start, ops)
    ensures var w := Run(d, start, ops);
      var g := Guesses(w.journal, email);
      && InYoung(g, window) <= 10
      && InWindow(g, window) <= 20
      && (email in w.codes ==> w.codes[email].windowAttempts == InWindow(g, w.codes[email].windowStarted))
  {
    RunKeepsWindows(d, start, ops, email);
    YoungAndOld(Guesses(Run(d, start, ops).journal, email), window);
  }

  // ---- Any hour ----

  predicate Within(a: Guess, from: int) {
    from <= a.now < from + WINDOW
  }

  function InHour(g: seq<Guess>, from: int): nat {
    if g == [] then 0 else InHour(g[..|g| - 1], from) + if Within(g[|g| - 1], from) then 1 else 0
  }

  lemma {:induction false} HourSplits(g: seq<Guess>, from: int, a: int, b: int)
    requires forall i | 0 <= i < |g| && Within(g[i], from) ::
      (g[i].window == a && Young(a, g[i].now)) || g[i].window == b
    ensures InHour(g, from) <= InYoung(g, a) + InWindow(g, b)
  {
    if g != [] {
      HourSplits(g[..|g| - 1], from, a, b);
    }
  }

  lemma BoundedPrefix(g: seq<Guess>)
    requires g != [] && Bounded(g)
    ensures Bounded(g[..|g| - 1])
  {
    var before := g[..|g| - 1];
    forall window
      ensures InYoung(before, window) <= WINDOW_ATTEMPTS && InOld(before, window) <= 2 * CODE_ATTEMPTS
    {
      assert InYoung(g, window) <= WINDOW_ATTEMPTS;
    }
  }

  /** Two windows at most have guesses in one hour, and the later of them is young all through it. */
  lemma TwoWindows(g: seq<Guess>, clock: int, from: int, f: nat, i: nat)
    requires History(g, clock) && f < |g| && i < |g| && Within(g[|g| - 1], from)
    requires Within(g[f], from) && g[f].window != g[|g| - 1].window && Within(g[i], from)
    ensures var last := g[|g| - 1].window;
      (g[i].window == last && Young(last, g[i].now)) || g[i].window == g[f].window
  {
    var j := |g| - 1;
    assert Earlier(g[f], g[j].window);
    if g[i].window != g[j].window {
      assert Earlier(g[i], g[j].window);
      if i < f {
        assert Earlier(g[i], g[f].window);
      } else if f < i {
        assert Earlier(g[f], g[i].window);
      }
    }
  }

  lemma {:induction false} HourBounded(g: seq<Guess>, clock: int, from: int)
    requires History(g, clock) && Bounded(g)
    ensures InHour(g, from) <= 2 * WINDOW_ATTEMPTS + 2 * CODE_ATTEMPTS
  {
    if g != [] {
      var j := |g| - 1;
      var last := g[j].window;
      if !Within(g[j], from) {
        BoundedPrefix(g);
        HourBounded(g[..j], clock, from);
      } else if f :| 0 <= f < |g| && Within(g[f], from) && g[f].window != last {
        forall i | 0 <= i < |g| && Within(g[i], from)
          ensures (g[i].window == last && Young(last, g[i].now)) || g[i].window == g[f].window
        {
          TwoWindows(g, clock, from, f, i);
        }
        HourSplits(g, from, last, g[f].window);
        YoungAndOld(g, g[f].window);
        assert InYoung(g, last) <= WINDOW_ATTEMPTS && InYoung(g, g[f].window) <= WINDOW_ATTEMPTS;
      } else {
        HourSplits(g, from, last, last);
        YoungAndOld(g, last);
        assert InYoung(g, last) <= WINDOW_ATTEMPTS;
      }
    }
  }

  /** All the wrong guesses at an address in an hour, and how often it got in during it. */
  function WrongInHour(journal: seq<Entry>, email: Email, from: int): nat {
    if journal == [] then 0
    else
      var (before, e) := (WrongInHour(journal[..|journal| - 1], email, from), journal[|journal| - 1]);
      before + if e.Wrong? && e.email == email && from <= e.now < from + WINDOW then 1 else 0
  }

  function EntriesInHour(journal: seq<Entry>, email: Email, from: int): nat {
    if journal == [] then 0
    else
      var (before, e) := (EntriesInHour(journal[..|journal| - 1], email, from), journal[|journal| - 1]);
      before + if e.Entered? && e.email == email && from <= e.now < from + WINDOW then 1 else 0
  }

  lemma NextInHour(j: seq<Entry>, e: Entry, email: Email, from: int)
    ensures WrongInHour(j + [e], email, from) ==
      WrongInHour(j, email, from) + if e.Wrong? && e.email == email && from <= e.now < from + WINDOW then 1 else 0
    ensures EntriesInHour(j + [e], email, from) ==
      EntriesInHour(j, email, from) + if e.Entered? && e.email == email && from <= e.now < from + WINDOW then 1 else 0
  {
    assert (j + [e])[..|j + [e]| - 1] == j;
  }

  lemma GuessInHour(g: seq<Guess>, a: Guess, from: int)
    ensures InHour(g + [a], from) == InHour(g, from) + if Within(a, from) then 1 else 0
  {
    assert (g + [a])[..|g + [a]| - 1] == g;
  }

  lemma {:induction false} NoneBefore(g: seq<Guess>, from: int)
    requires forall i | 0 <= i < |g| :: g[i].now < from
    ensures InHour(g, from) == 0
  {
    if g != [] {
      NoneBefore(g[..|g| - 1], from);
    }
  }

  /** Guesses counted in windows that began in the hour are all young in it, and all in one window. */
  lemma {:induction false} FreshHourBounded(g: seq<Guess>, clock: int, from: int)
    requires History(g, clock) && Bounded(g) && forall i | 0 <= i < |g| :: from <= g[i].window
    ensures InHour(g, from) <= WINDOW_ATTEMPTS
  {
    if g != [] {
      var j := |g| - 1;
      if !Within(g[j], from) {
        BoundedPrefix(g);
        FreshHourBounded(g[..j], clock, from);
      } else {
        forall i | 0 <= i < |g| && Within(g[i], from)
          ensures g[i].window == g[j].window && Young(g[j].window, g[i].now)
        {
          assert i < j ==> Earlier(g[i], g[j].window);
        }
        YoungHour(g, from, g[j].window);
        assert InYoung(g, g[j].window) <= WINDOW_ATTEMPTS;
      }
    }
  }

  lemma {:induction false} YoungHour(g: seq<Guess>, from: int, a: int)
    requires forall i | 0 <= i < |g| && Within(g[i], from) :: g[i].window == a && Young(a, g[i].now)
    ensures InHour(g, from) <= InYoung(g, a)
  {
    if g != [] {
      YoungHour(g[..|g| - 1], from, a);
    }
  }

  /** A row that would look at a code has room for one more wrong guess: one fewer was made than ever can be. */
  lemma RoomForOne(r: Row, g: seq<Guess>, clock: int, now: int, from: int)
    requires clock <= now && History(g, clock) && Bounded(g) && RowOk(r, g, clock) && Open(r, now)
    requires from <= now < from + WINDOW
    ensures InHour(g, from) <= 29
    ensures from <= r.windowStarted && (forall i | 0 <= i < |g| :: from <= g[i].window) ==> InHour(g, from) <= 9
  {
    hide RowOk, Bounded, History, Open, InHour;
    var a := Guess(now, r.windowStarted);
    WrongKeeps(r, g, clock, now);
    GuessInHour(g, a, from);
    HourBounded(g + [a], now, from);
    if from <= r.windowStarted && forall i | 0 <= i < |g| :: from <= g[i].window {
      FreshHourBounded(g + [a], now, from);
    }
  }

  /** What is known of an hour while it lasts: before the address first gets in during it, all its
      guesses are the ones since it last got in; after, those since are counted in windows begun
      in the hour. */
  ghost predicate HourDetail(w: World, email: Email, from: int) {
    var g := Guesses(w.journal, email);
    var entries := EntriesInHour(w.journal, email, from);
    var past := WrongInHour(w.journal, email, from) - InHour(g, from);
    && past >= 0
    && (entries == 0 ==> past == 0)
    && (entries > 0 ==>
          && past <= 20 + 9 * entries
          && (forall i | 0 <= i < |g| :: from <= g[i].window)
          && (email in w.codes ==> from <= w.codes[email].windowStarted))
  }

  ghost predicate HourOk(w: World, email: Email, from: int) {
    && WrongInHour(w.journal, email, from) <= 30 + 9 * EntriesInHour(w.journal, email, from)
    && (w.clock < from ==> WrongInHour(w.journal, email, from) == 0 && EntriesInHour(w.journal, email, from) == 0)
    && (w.clock < from + WINDOW ==> HourDetail(w, email, from))
  }

  lemma DetailBounds(w: World, email: Email, from: int)
    requires WindowOk(w, email) && HourDetail(w, email, from)
    ensures WrongInHour(w.journal, email, from) <= 30 + 9 * EntriesInHour(w.journal, email, from)
  {
    hide History, Bounded, RowOk;
    var g := Guesses(w.journal, email);
    HourBounded(g, w.clock, from);
    if EntriesInHour(w.journal, email, from) > 0 {
      FreshHourBounded(g, w.clock, from);
    }
  }

  /** A transaction that adds nothing about the address but the row of a code sent keeps what is known. */
  lemma HourQuiet(w: World, w': World, email: Email, from: int)
    requires HourOk(w, email, from) && WindowOk(w, email) && w.clock <= w'.clock
    requires w'.journal == w.journal ||
      (exists e :: w'.journal == w.journal + [e] && (e.email != email || e.Sent?))
    requires email in w'.codes ==>
      || w'.codes[email].windowStarted == w'.clock
      || (email in w.codes && w'.codes[email].windowStarted == w.codes[email].windowStarted)
    ensures HourOk(w', email, from)
  {
    hide WrongInHour, EntriesInHour, Guesses, InHour, RowOk, Bounded;
    if w'.journal != w.journal {
      var e :| w'.journal == w.journal + [e] && (e.email != email || e.Sent?);
      NextInHour(w.journal, e, email, from);
      SentKeepsGuesses(w.journal, e, email);
    }
  }

  lemma NoGuessYet(w: World, email: Email, from: int)
    requires HourOk(w, email, from) && WindowOk(w, email) && w.clock < from
    ensures InHour(Guesses(w.journal, email), from) == 0
  {
    hide RowOk, Bounded, WrongInHour, EntriesInHour, Guesses;
    NoneBefore(Guesses(w.journal, email), from);
  }

  lemma HourWrong(w: World, w': World, email: Email, now: int, from: int)
    requires HourOk(w, email, from) && WindowOk(w, email) && WindowOk(w', email) && w.clock <= now == w'.clock
    requires email in w.codes && email in w'.codes && w'.codes[email].windowStarted == w.codes[email].windowStarted
    requires w'.journal == w.journal + [Wrong(email, now, w.codes[email].windowStarted)]
    ensures HourOk(w', email, from)
  {
    hide WrongInHour, EntriesInHour, Guesses, InHour, WindowOk;
    var e, a := Wrong(email, now, w.codes[email].windowStarted), Guess(now, w.codes[email].windowStarted);
    NextInHour(w.journal, e, email, from);
    SentKeepsGuesses(w.journal, e, email);
    GuessInHour(Guesses(w.journal, email), a, from);
    if w'.clock < from + WINDOW {
      DetailBounds(w', email, from);
    }
  }

  lemma HourEntered(w: World, w': World, email: Email, now: int, from: int)
    requires HourOk(w, email, from) && WindowOk(w, email) && w.clock <= now == w'.clock
    requires email in w.codes && Open(w.codes[email], now) && email !in w'.codes
    requires w'.journal == w.journal + [Entered(email, now)]
    ensures HourOk(w', email, from)
  {
    hide WrongInHour, EntriesInHour, Guesses, InHour, RowOk, Bounded, History, Open;
    NextInHour(w.journal, Entered(email, now), email, from);
    SentKeepsGuesses(w.journal, Entered(email, now), email);
    NoneBefore([], from);
    var g := Guesses(w.journal, email);
    if now < from {
      NoGuessYet(w, email, from);
    } else if now < from + WINDOW {
      RoomForOne(w.codes[email], g, w.clock, now, from);
    }
  }

  lemma StepKeepsHour(d: Desk, w: World, op: Op, email: Email, from: int)
    requires d.cooldown > 0 && w.clock <= op.now && WindowOk(w, email) && HourOk(w, email, from)
    ensures HourOk(Step(d, w, op), email, from)
  {
    hide HourOk, WindowOk, Open;
    var w' := Step(d, w, op);
    if op.RedeemOp? && op.email == email && w'.journal != w.journal {
      var e := w'.journal[|w.journal|];
      assert w'.journal == w.journal + [e];
      if e.Wrong? {
        RedeemKeeps(d, w, op, email);
        HourWrong(w, w', email, op.now, from);
      } else {
        HourEntered(w, w', email, op.now, from);
      }
    } else {
      HourQuiet(w, w', email, from);
    }
  }

  lemma {:induction false} RunKeepsHour(d: Desk, start: int, ops: seq<Op>, email: Email, from: int)
    requires d.cooldown > 0 && Timely(start, ops)
    ensures HourOk(Run(d, start, ops), email, from)
    decreases |ops|
  {
    hide HourOk, WindowOk, Step;
    if ops == [] {
      HourStarts(start, email, from);
    } else {
      var before, op := ops[..|ops| - 1], ops[|ops| - 1];
      RunKeepsHour(d, start, before, email, from);
      RunKeepsWindows(d, start, before, email);
      StepKeepsHour(d, Run(d, start, before), op, email, from);
    }
  }

  lemma HourStarts(start: int, email: Email, from: int)
    ensures HourOk(World(map[], [], start), email, from)
  {
  }

  /** In every run with a clock that never goes back, over an hour that begins anywhere: at most
      thirty wrong guesses at an address are looked at while nobody gets in, and at most nine
      more for each time somebody does. */
  lemma AnyHourIsBounded(d: Desk, start: int, ops: seq<Op>, email: Email, from: int)
    requires d.cooldown > 0 && Timely(start, ops)
    ensures var j := Run(d, start, ops).journal;
      WrongInHour(j, email, from) <= 30 + 9 * EntriesInHour(j, email, from)
  {
    RunKeepsHour(d, start, ops, email, from);
  }

  // ---- Runs that reach the bounds ----

  lemma RunNext(d: Desk, ops: seq<Op>, op: Op)
    ensures Run(d, 0, ops + [op]) == Step(d, Run(d, 0, ops), op)
  {
    assert (ops + [op])[..|ops + [op]| - 1] == ops;
  }

  ghost predicate TimelyNext(ops: seq<Op>, now: int) {
    Timely(0, ops) && 0 <= now && forall i | 0 <= i < |ops| :: ops[i].now <= now
  }

  /** A run up to `now` in which, in the hour from `from`, an address had `wrong` guesses and got in
      `entries` times. */
  ghost predicate Tallied(d: Desk, ops: seq<Op>, email: Email, from: int, now: int, wrong: nat, entries: nat) {
    var j := Run(d, 0, ops).journal;
    TimelyNext(ops, now) && WrongInHour(j, email, from) == wrong && EntriesInHour(j, email, from) == entries
  }

  lemma TalliedLater(d: Desk, ops: seq<Op>, email: Email, from: int, now: int, later: int, wrong: nat, entries: nat)
    requires Tallied(d, ops, email, from, now, wrong, entries) && now <= later
    ensures Tallied(d, ops, email, from, later, wrong, entries)
  {
    hide Run;
  }

  /** One more transaction, and what it adds to the tally. */
  lemma OneMore(d: Desk, ops: seq<Op>, op: Op, email: Email, from: int, wrong: nat, entries: nat)
    requires Tallied(d, ops, email, from, op.now, wrong, entries)
    requires exists e :: Step(d, Run(d, 0, ops), op).journal == Run(d, 0, ops).journal + [e]
    ensures var j := Step(d, Run(d, 0, ops), op).journal;
      var e := j[|j| - 1];
      var counts := e.email == email && !e.Sent? && from <= e.now < from + WINDOW;
      Tallied(d, ops + [op], email, from, op.now,
        wrong + (if counts && e.Wrong? then 1 else 0), entries + if counts && e.Entered? then 1 else 0)
  {
    hide Step, Run;
    RunNext(d, ops, op);
    var e :| Step(d, Run(d, 0, ops), op).journal == Run(d, 0, ops).journal + [e];
    NextInHour(Run(d, 0, ops).journal, e, email, from);
  }

  /** A code asked for: carrying on the window of the address, or beginning one. */
  lemma Ask(d: Desk, ops: seq<Op>, email: Email, code: string, now: int, from: int, wrong: nat, entries: nat)
    returns (more: seq<Op>)
    requires Tallied(d, ops, email, from, now, wrong, entries)
    requires var c := Run(d, 0, ops).codes; email in c ==> now - c[email].requested >= d.cooldown
    ensures var (c, c') := (Run(d, 0, ops).codes, Run(d, 0, more).codes);
      && Tallied(d, more, email, from, now, wrong, entries)
      && email in c' && c'[email] == Issued(d, c, email, code, now)
  {
    hide Tallied, Run, Issued;
    var op := IssueOp(email, code, true, now);
    IssuedExpires(d, Run(d, 0, ops).codes, email, code, now);
    RunNext(d, ops, op);
    OneMore(d, ops, op, email, from, wrong, entries);
    more := ops + [op];
  }

  lemma GuessOnce(d: Desk, ops: seq<Op>, email: Email, code: string, now: int, from: int, wrong: nat, entries: nat)
    returns (more: seq<Op>)
    requires Tallied(d, ops, email, from, now, wrong, entries) && from <= now < from + WINDOW
    requires var c := Run(d, 0, ops).codes; email in c && c[email].hash != d.digest(email, code) && Open(c[email], now)
    ensures var (c, c') := (Run(d, 0, ops).codes, Run(d, 0, more).codes);
      && Tallied(d, more, email, from, now, wrong + 1, entries)
      && email in c'
      && c'[email] == c[email].(attempts := c[email].attempts + 1, windowAttempts := c[email].windowAttempts + 1)
  {
    hide Tallied, Run, Open;
    var op := RedeemOp(email, code, now, true);
    RunNext(d, ops, op);
    OneMore(d, ops, op, email, from, wrong, entries);
    more := ops + [op];
  }

  /** `k` wrong guesses in a row. */
  lemma {:induction false} GuessOften(
    d: Desk, ops: seq<Op>, email: Email, code: string, now: int, from: int, wrong: nat, entries: nat, k: nat)
    returns (more: seq<Op>)
    requires Tallied(d, ops, email, from, now, wrong, entries) && from <= now < from + WINDOW
    requires var c := Run(d, 0, ops).codes;
      && email in c && c[email].hash != d.digest(email, code) && c[email].expires > now
      && c[email].attempts + k <= CODE_ATTEMPTS
      && (Young(c[email].windowStarted, now) ==> c[email].windowAttempts + k <= WINDOW_ATTEMPTS)
    ensures var (c, c') := (Run(d, 0, ops).codes, Run(d, 0, more).codes);
      && Tallied(d, more, email, from, now, wrong + k, entries)
      && email in c'
      && c'[email] == c[email].(attempts := c[email].attempts + k, windowAttempts := c[email].windowAttempts + k)
  {
    hide Tallied, Run;
    more := ops;
    if k > 0 {
      more := GuessOften(d, ops, email, code, now, from, wrong, entries, k - 1);
      more := GuessOnce(d, more, email, code, now, from, wrong + k - 1, entries);
    }
  }

  lemma GetIn(d: Desk, ops: seq<Op>, email: Email, code: string, now: int, from: int, wrong: nat, entries: nat)
    returns (more: seq<Op>)
    requires Tallied(d, ops, email, from, now, wrong, entries) && from <= now < from + WINDOW
    requires var c := Run(d, 0, ops).codes; email in c && c[email].hash == d.digest(email, code) && Open(c[email], now)
    ensures Tallied(d, more, email, from, now, wrong, entries + 1) && email !in Run(d, 0, more).codes
  {
    hide Tallied, Run, Open;
    var op := RedeemOp(email, code, now, true);
    RunNext(d, ops, op);
    OneMore(d, ops, op, email, from, wrong, entries);
    more := ops + [op];
  }

  /** One more code, and some wrong guesses at it at a time they are looked at. */
  lemma AskAndGuess(d: Desk, ops: seq<Op>, email: Email, codes: (string, string),
                    was: int, asked: int, now: int, from: int, wrong: nat, entries: nat, k: nat)
    returns (more: seq<Op>)
    requires d.digest(email, codes.0) != d.digest(email, codes.1) && k <= CODE_ATTEMPTS
    requires Tallied(d, ops, email, from, was, wrong, entries)
    requires was <= asked <= now < asked + CODE_TTL && from <= now < from + WINDOW
    requires var c := Run(d, 0, ops).codes;
      && (email in c ==> asked - c[email].requested >= d.cooldown)
      && var r := Issued(d, c, email, codes.0, asked);
        Young(r.windowStarted, now) ==> r.windowAttempts + k <= WINDOW_ATTEMPTS
    ensures var (c, c') := (Run(d, 0, ops).codes, Run(d, 0, more).codes);
      && Tallied(d, more, email, from, now, wrong + k, entries)
      && email in c'
      && var r := Issued(d, c, email, codes.0, asked);
        c'[email] == r.(attempts := k, windowAttempts := r.windowAttempts + k)
  {
    hide Tallied, Run;
    TalliedLater(d, ops, email, from, was, asked, wrong, entries);
    more := Ask(d, ops, email, codes.0, asked, from, wrong, entries);
    TalliedLater(d, more, email, from, asked, now, wrong, entries);
    more := GuessOften(d, more, email, codes.1, now, from, wrong, entries, k);
  }

  lemma Start(d: Desk, email: Email, from: int)
    ensures Tallied(d, [], email, from, 0, 0, 0) && Run(d, 0, []).codes == map[]
  {
  }

  /** Twenty five wrong guesses within four minutes: ten as a window ends, ten by codes that outlive it,
      and five in the next. */
  lemma TwentyFive(d: Desk, email: Email, codes: (string, string)) returns (ops: seq<Op>)
    requires 0 < d.cooldown <= 60 && d.digest(email, codes.0) != d.digest(email, codes.1)
    ensures Tallied(d, ops, email, 3420, 3660, 25, 0)
    ensures var c := Run(d, 0, ops).codes;
      email in c && c[email].requested == c[email].windowStarted == 3660 && c[email].windowAttempts == 5
  {
    hide Tallied, Run;
    Start(d, email, 3420);
    ops := Ask(d, [], email, codes.0, 0, 3420, 0, 0);
    ops := AskAndGuess(d, ops, email, codes, 0, 3420, 3420, 3420, 0, 0, 5);
    ops := AskAndGuess(d, ops, email, codes, 3420, 3480, 3480, 3420, 5, 0, 5);
    ops := AskAndGuess(d, ops, email, codes, 3480, 3540, 3600, 3420, 10, 0, 5);
    ops := AskAndGuess(d, ops, email, codes, 3600, 3600, 3600, 3420, 15, 0, 5);
    ops := AskAndGuess(d, ops, email, codes, 3600, 3660, 3660, 3420, 20, 0, 5);
  }

  /** Getting in for the n-th time, each time after nine more wrong guesses. */
  lemma {:induction false} InAgain(d: Desk, email: Email, codes: (string, string), n: nat) returns (ops: seq<Op>)
    requires 0 < d.cooldown <= 60 && d.digest(email, codes.0) != d.digest(email, codes.1) && 1 <= n <= 54
    ensures Tallied(d, ops, email, 3420, 3660 + 60 * n, 20 + 9 * n, n) && email !in Run(d, 0, ops).codes
    decreases n
  {
    hide Tallied, Run;
    var now := 3660 + 60 * n;
    var first := now - 60;
    if n == 1 {
      ops := TwentyFive(d, email, codes);
    } else {
      ops := InAgain(d, email, codes, n - 1);
      ops := AskAndGuess(d, ops, email, codes, first, first, first, 3420, 11 + 9 * n, n - 1, 5);
    }
    ops := AskAndGuess(d, ops, email, codes, first, now, now, 3420, 16 + 9 * n, n - 1, 4);
    ops := GetIn(d, ops, email, codes.0, now, 3420, 20 + 9 * n, n - 1);
  }

  /** The bound is reached: with nobody getting in, thirty wrong guesses fall within five minutes,
      and with each entry, up to as many as there is time for, exactly nine more. */
  lemma BoundIsReached(d: Desk, email: Email, right: string, wrong: string, entries: nat) returns (ops: seq<Op>)
    requires 0 < d.cooldown <= 60 && d.digest(email, right) != d.digest(email, wrong) && entries <= 54
    ensures Timely(0, ops)
    ensures var j := Run(d, 0, ops).journal;
      WrongInHour(j, email, 3420) == 30 + 9 * entries && EntriesInHour(j, email, 3420) == entries
  {
    hide Run;
    var first, codes := 3660 + 60 * entries, (right, wrong);
    if entries == 0 {
      ops := TwentyFive(d, email, codes);
    } else {
      ops := InAgain(d, email, codes, entries);
      ops := AskAndGuess(d, ops, email, codes, first, first, first, 3420, 20 + 9 * entries, entries, 5);
    }
    ops := AskAndGuess(d, ops, email, codes, first, first + 60, first + 60, 3420, 25 + 9 * entries, entries, 5);
  }

  ghost predicate EntersAtMost(d: Desk, start: int, ops: seq<Op>, email: Email, from: int, entries: nat) {
    EntriesInHour(Run(d, start, ops).journal, email, from) <= entries
  }

  ghost predicate GuessesAtMost(d: Desk, start: int, ops: seq<Op>, email: Email, from: int, bound: int) {
    WrongInHour(Run(d, start, ops).journal, email, from) <= bound
  }

  /** Over every run with a clock that never goes back, and every hour in which an address gets in
      at most so many times, its wrong guesses keep to a bound exactly when thirty, and nine for
      each of those times, are within it. */
  lemma HourBoundIsExact(d: Desk, email: Email, right: string, wrong: string, entries: nat, bound: int)
    requires 0 < d.cooldown <= 60 && d.digest(email, right) != d.digest(email, wrong) && entries <= 54
    ensures (forall start, ops, from | Timely(start, ops) && EntersAtMost(d, start, ops, email, from, entries) ::
        GuessesAtMost(d, start, ops, email, from, bound)) <==> 30 + 9 * entries <= bound
  {
    hide Run, WrongInHour, EntriesInHour, Timely;
    if 30 + 9 * entries <= bound {
      forall start, ops, from | Timely(start, ops) && EntersAtMost(d, start, ops, email, from, entries)
        ensures GuessesAtMost(d, start, ops, email, from, bound)
      {
        AnyHourIsBounded(d, start, ops, email, from);
      }
    } else {
      var ops := BoundIsReached(d, email, right, wrong, entries);
      assert EntersAtMost(d, 0, ops, email, 3420, entries) && !GuessesAtMost(d, 0, ops, email, 3420, bound);
    }
  }

  /** Getting in takes the row, and with it the counts and the wait between codes; so no number
      bounds the wrong guesses of an hour in which somebody gets in often enough. */
  lemma {:induction false} NoNumberBoundsAnHour(d: Desk, email: Email, right: string, wrong: string, k: nat)
    returns (ops: seq<Op>)
    requires d.digest(email, right) != d.digest(email, wrong)
    ensures Tallied(d, ops, email, 0, 0, 4 * k, k) && email !in Run(d, 0, ops).codes
    ensures Timely(0, ops) && WrongInHour(Run(d, 0, ops).journal, email, 0) == 4 * k
  {
    hide Run;
    if k == 0 {
      Start(d, email, 0);
      ops := [];
    } else {
      ops := NoNumberBoundsAnHour(d, email, right, wrong, k - 1);
      ops := AskAndGuess(d, ops, email, (right, wrong), 0, 0, 0, 0, 4 * (k - 1), k - 1, 4);
      ops := GetIn(d, ops, email, right, 0, 0, 4 * k, k - 1);
    }
  }
}
