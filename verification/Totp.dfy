/** One-time codes from an authenticator app, and how a typed code is read. */
module Totp {
  import opened Wrappers

  const TOTP_DIGITS := 6
  const TOTP_SKEW_STEPS := 1

  type Secret = nat

  /** The code an app shows for one step; the truncated HMAC of RFC 4226 is left uninterpreted. */
  type Hotp = (Secret, int) -> string

  /** Steps of thirty seconds, counted from 1970 and rounded toward it. */
  function TotpStep(at: int): int {
    if at < 0 then -((-at) / 30) else at / 30
  }

  function Normalize(code: string): string {
    if code == [] then []
    else
      var c := code[0];
      (if c == '-' || c == ' ' || c == '\t' then []
       else if 'A' <= c <= 'Z' then [(c as int + 32) as char]
       else [c]) + Normalize(code[1..])
  }

  /** Typed text is read character by character: blanks and dashes count for nothing, a capital for its
      small letter, and everything else for itself. */
  lemma {:induction false} NormalizeIs(a: string, b: string, i: nat, c: char)
    ensures Normalize(a + b) == Normalize(a) + Normalize(b)
    ensures Normalize("-") == Normalize(" ") == Normalize("\t") == Normalize("") == ""
    ensures i < 26 ==> Normalize([(65 + i) as char]) == [(97 + i) as char]
    ensures c !in "- \t" && !(65 <= c as int <= 90) ==> Normalize([c]) == [c]
  {
    hide Normalize;
    NormalizeOne(c);
    NormalizeLetter(i);
    NormalizeFirst(a, b);
    if a == [] {
      assert a + b == b;
    } else {
      NormalizeIs(a[1..], b, i, c);
    }
  }

  lemma NormalizeFirst(a: string, b: string)
    ensures a != [] ==> Normalize(a) == Normalize([a[0]]) + Normalize(a[1..])
    ensures a != [] ==> Normalize(a + b) == Normalize([a[0]]) + Normalize(a[1..] + b)
  {
    hide Normalize;
    if a != [] {
      assert a == [a[0]] + a[1..] && a + b == [a[0]] + (a[1..] + b);
      NormalizeStep(a[0], a[1..]);
      NormalizeStep(a[0], a[1..] + b);
    }
  }

  lemma NormalizeStep(c: char, s: string)
    ensures Normalize([c] + s) == Normalize([c]) + Normalize(s)
  {
    assert ([c] + s)[1..] == s && [c][1..] == [] && Normalize([]) == [];
  }

  lemma NormalizeOne(c: char)
    ensures Normalize("-") == Normalize(" ") == Normalize("\t") == Normalize("") == ""
    ensures c !in "- \t" && !(65 <= c as int <= 90) ==> Normalize([c]) == [c]
  {
  }

  lemma NormalizeLetter(i: nat)
    ensures i < 26 ==> Normalize([(65 + i) as char]) == [(97 + i) as char]
  {
  }

  /** Steps of half a minute: from 1970 on, a step's number is that of the whole ones gone by. */
  lemma StepIs(at: int)
    ensures at >= 0 ==> 30 * TotpStep(at) <= at < 30 * TotpStep(at) + 30
    ensures at < 0 ==> 30 * TotpStep(at) - 30 < at <= 30 * TotpStep(at)
  {
  }

  /** Six digits, once blanks and dashes are dropped; anything else is tried as a recovery code. */
  predicate IsTotpCode(code: string) {
    var c := Normalize(code);
    |c| == TOTP_DIGITS && forall i | 0 <= i < |c| :: '0' <= c[i] <= '9'
  }

  lemma TotpCodeIs(code: string)
    ensures IsTotpCode(code) <==> |Normalize(code)| == 6 && forall c | c in Normalize(code) :: 48 <= c as int <= 57
  {
    hide Normalize;
    var typed := Normalize(code);
    if forall c | c in typed :: 48 <= c as int <= 57 {
      assert forall i | 0 <= i < |typed| :: typed[i] in typed;
    }
  }

  predicate Fits(hotp: Hotp, secret: Secret, code: string, step: int, last: int) {
    hotp(secret, step) == Normalize(code) && step > last
  }

  /** The step a typed code is taken for: the earliest within the skew whose code it is and that is past
      the last one used. */
  function Match(hotp: Hotp, secret: Secret, code: string, now: int, last: int): (r: Option<int>)
    ensures r.Some? ==> last < r.value && TotpStep(now) - 1 <= r.value <= TotpStep(now) + 1
  {
    var c := TotpStep(now);
    if |Normalize(code)| != TOTP_DIGITS then None
    else if Fits(hotp, secret, code, c - 1, last) then Some(c - 1)
    else if Fits(hotp, secret, code, c, last) then Some(c)
    else if Fits(hotp, secret, code, c + 1, last) then Some(c + 1)
    else None
  }

  /** A code is taken for a step exactly when it is the one shown then, and the step is past the last one
      used and no more than one away from the clock's. */
  lemma MatchIs(hotp: Hotp, secret: Secret, code: string, now: int, last: int)
    ensures var r := Match(hotp, secret, code, now, last);
      && (r.Some? ==> |Normalize(code)| == 6 && hotp(secret, r.value) == Normalize(code) && last < r.value
                      && TotpStep(now) - 1 <= r.value <= TotpStep(now) + 1)
      && (|Normalize(code)| == 6 ==>
            forall s | hotp(secret, s) == Normalize(code) && last < s && TotpStep(now) - 1 <= s <= TotpStep(now) + 1 ::
              r.Some? && r.value <= s)
  {
    hide Normalize, TotpStep;
  }

  /** Compares every candidate, and keeps the first that fits. */
  method MatchTotp(hotp: Hotp, secret: Secret, typed: string, now: int, last: int) returns (found: int, ok: bool)
    ensures (if ok then Some(found) else None) == Match(hotp, secret, typed, now, last)
    ensures ok ==> |Normalize(typed)| == 6 && hotp(secret, found) == Normalize(typed) && found > last
    ensures ok ==> TotpStep(now) - 1 <= found <= TotpStep(now) + 1
    ensures |Normalize(typed)| == 6 ==>
      forall s | TotpStep(now) - 1 <= s <= TotpStep(now) + 1 && s > last && hotp(secret, s) == Normalize(typed) ::
        ok && found <= s
  {
    var code := Normalize(typed);
    if |code| != TOTP_DIGITS {
      return 0, false;
    }
    var current := TotpStep(now);
    found, ok := 0, false;
    for step := current - TOTP_SKEW_STEPS to current + TOTP_SKEW_STEPS + 1
      invariant !ok ==> forall s | current - TOTP_SKEW_STEPS <= s < step :: !Fits(hotp, secret, typed, s, last)
      invariant ok ==> current - TOTP_SKEW_STEPS <= found < step && Fits(hotp, secret, typed, found, last)
      invariant ok ==> forall s | current - TOTP_SKEW_STEPS <= s < found :: !Fits(hotp, secret, typed, s, last)
    {
      var want := hotp(secret, step);
      if want == code && step > last && !ok {
        found, ok := step, true;
      }
    }
  }

  // ---- How many codes a stretch of time can take ----

  /** One accepted code: the step it was for, and the step of the clock when it was accepted. */
  datatype Accepted = Accepted(step: int, clock: int)

  ghost predicate StrictlyIncreasing(s: seq<Accepted>) {
    forall i, j | 0 <= i < j < |s| :: s[i].step < s[j].step
  }

  ghost predicate WithinSkew(s: seq<Accepted>) {
    forall i | 0 <= i < |s| :: s[i].clock - TOTP_SKEW_STEPS <= s[i].step <= s[i].clock + TOTP_SKEW_STEPS
  }

  function CountDuring(s: seq<Accepted>, p: int, q: int): nat {
    if s == [] then 0
    else CountDuring(s[..|s| - 1], p, q) + if p <= s[|s| - 1].clock <= q then 1 else 0
  }

  lemma {:induction false} CountBelow(s: seq<Accepted>, p: int, q: int, top: int)
    requires StrictlyIncreasing(s) && WithinSkew(s) && p <= q
    requires forall i | 0 <= i < |s| && s[i].clock <= q && p <= s[i].clock :: s[i].step <= top
    requires p - 2 <= top
    ensures CountDuring(s, p, q) <= top - p + 2
  {
    if s != [] {
      var t, last := s[..|s| - 1], s[|s| - 1];
      if p <= last.clock <= q {
        CountBelow(t, p, q, last.step - 1);
      } else {
        CountBelow(t, p, q, top);
      }
    }
  }

  /** However the clock runs, the times at which it showed steps p to q take at most q - p + 3 codes. */
  lemma CodesPerStretch(s: seq<Accepted>, p: int, q: int)
    requires StrictlyIncreasing(s) && WithinSkew(s) && p <= q
    ensures CountDuring(s, p, q) <= q - p + 3
  {
    CountBelow(s, p, q, q + 1);
  }
}
