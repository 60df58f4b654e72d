/**
  Requests served one after another against a shared store. Each request
  carries the instant it is served at and, for the actions that issue a token,
  the token generator's choice. Trace-level invariants are proved here by
  induction over the request sequence.
 */
module Sessions {
  import opened AuthStore
  import opened Actions

  datatype Request =
    | LoginReq(login: LoginInput, loginIssue: IssueChoice)
    | RegisterReq(register: RegisterInput, registerIssue: IssueChoice)
    | VerifyReq(verifyToken: string)
    | ResetMailReq(resetMail: ResetInput, resetIssue: IssueChoice)
    | ResetReq(resetToken: string, newPassword: string)

  datatype Event = Event(now: Time, req: Request)

  datatype Trace = Trace(outs: seq<Outcome>, final: Store)

  /** Dispatch one request to its action. */
  function Apply(s: Store, env: Env, ev: Event): Step {
    match ev.req
    case LoginReq(i, c) => Login(s, env, i, c)
    case RegisterReq(i, c) => Register(s, env, i, c)
    case VerifyReq(t) => VerifyNewToken(s, t, ev.now)
    case ResetMailReq(i, c) => SendResetPasswordMail(s, env, i, c)
    case ResetReq(t, p) => ResetPassword(s, env, t, p, ev.now)
  }

  /** Serve the requests in order, collecting one outcome per request. */
  function Run(s: Store, env: Env, evs: seq<Event>): (r: Trace)
    ensures |r.outs| == |evs|
    decreases |evs|
  {
    if |evs| == 0 then Trace([], s)
    else
      var st := Apply(s, env, evs[0]);
      var rest := Run(st.store, env, evs[1..]);
      Trace([st.out] + rest.outs, rest.final)
  }

  /** Number of outcomes equal to `o`. */
  function Count(outs: seq<Outcome>, o: Outcome): nat {
    if |outs| == 0 then 0 else (if outs[0] == o then 1 else 0) + Count(outs[1..], o)
  }

  /** How the store may evolve: no user disappears or changes email or name,
      and a verified user stays verified. */
  ghost predicate Evolves(s: Store, s': Store) {
    && s.users.Keys <= s'.users.Keys
    && forall e :: e in s.users ==>
         && s'.users[e].email == s.users[e].email
         && s'.users[e].name == s.users[e].name
         && (s.users[e].emailVerified.Some? ==> s'.users[e].emailVerified.Some?)
  }

  lemma EvolvesTransitive(s1: Store, s2: Store, s3: Store)
    requires Evolves(s1, s2) && Evolves(s2, s3)
    ensures Evolves(s1, s3)
  {
  }

  /** What every single transition guarantees: consistency is kept, the
      store only evolves, and a user is added exactly when the reply is a
      successful registration. */
  ghost predicate Sound(s: Store, r: Step) {
    && (Consistent(s) ==> Consistent(r.store) && Evolves(s, r.store))
    && |r.store.users| == |s.users| + (if r.out == Reply(200, RegisterSuccessful) then 1 else 0)
  }

  lemma LoginSound(s: Store, env: Env, i: LoginInput, c: IssueChoice)
    ensures Sound(s, Login(s, env, i, c))
  {
  }

  lemma RegisterSound(s: Store, env: Env, i: RegisterInput, c: IssueChoice)
    ensures Sound(s, Register(s, env, i, c))
  {
  }

  /** In a consistent store, verification changes at most one user's
      verification stamp: every user keeps its email, name and password. */
  lemma VerifySound(s: Store, t: string, now: Time)
    ensures Sound(s, VerifyNewToken(s, t, now))
    ensures Consistent(s) ==>
              var users' := VerifyNewToken(s, t, now).store.users;
              && users'.Keys == s.users.Keys
              && forall e :: e in s.users ==> users'[e] == s.users[e].(emailVerified := users'[e].emailVerified)
  {
  }

  /** The reset-mail action leaves the users table exactly as it was. */
  lemma ResetMailSound(s: Store, env: Env, i: ResetInput, c: IssueChoice)
    ensures Sound(s, SendResetPasswordMail(s, env, i, c))
    ensures SendResetPasswordMail(s, env, i, c).store.users == s.users
  {
  }

  /** A reset changes at most one user's password: every user keeps its
      email, name and verification stamp. */
  lemma ResetSound(s: Store, env: Env, t: string, p: string, now: Time)
    ensures Sound(s, ResetPassword(s, env, t, p, now))
    ensures var users' := ResetPassword(s, env, t, p, now).store.users;
            && users'.Keys == s.users.Keys
            && forall e :: e in s.users ==> users'[e] == s.users[e].(password := users'[e].password)
  {
  }

  lemma ApplySound(s: Store, env: Env, ev: Event)
    ensures Sound(s, Apply(s, env, ev))
  {
    match ev.req
    case LoginReq(i, c) => LoginSound(s, env, i, c);
    case RegisterReq(i, c) => RegisterSound(s, env, i, c);
    case VerifyReq(t) => VerifySound(s, t, ev.now);
    case ResetMailReq(i, c) => ResetMailSound(s, env, i, c);
    case ResetReq(t, p) => ResetSound(s, env, t, p, ev.now);
  }

  /** Every reachable store from a consistent one is consistent. */
  lemma {:induction false} RunPreservesConsistency(s: Store, env: Env, evs: seq<Event>)
    requires Consistent(s)
    ensures Consistent(Run(s, env, evs).final)
    decreases |evs|
  {
    if |evs| > 0 {
      ApplySound(s, env, evs[0]);
      RunPreservesConsistency(Apply(s, env, evs[0]).store, env, evs[1..]);
    }
  }

  /** Every store reached from the empty database is consistent, so the
      trace lemmas below apply to every reachable store. */
  lemma RunFromEmptyIsConsistent(env: Env, evs: seq<Event>)
    ensures Consistent(Run(EmptyStore, env, evs).final)
  {
    RunPreservesConsistency(EmptyStore, env, evs);
  }

  /** Over any sequence of requests no user is removed, renamed or un-verified. */
  lemma {:induction false} RunEvolves(s: Store, env: Env, evs: seq<Event>)
    requires Consistent(s)
    ensures Evolves(s, Run(s, env, evs).final)
    decreases |evs|
  {
    if |evs| > 0 {
      var s1 := Apply(s, env, evs[0]).store;
      ApplySound(s, env, evs[0]);
      RunEvolves(s1, env, evs[1..]);
      EvolvesTransitive(s, s1, Run(s1, env, evs[1..]).final);
    }
  }

  /** Users are created only by successful registrations, one each. */
  lemma {:induction false} RunCountsRegistrations(s: Store, env: Env, evs: seq<Event>)
    ensures |Run(s, env, evs).final.users| ==
              |s.users| + Count(Run(s, env, evs).outs, Reply(200, RegisterSuccessful))
    decreases |evs|
  {
    if |evs| > 0 {
      var st := Apply(s, env, evs[0]);
      var r := Run(s, env, evs);
      ApplySound(s, env, evs[0]);
      RunCountsRegistrations(st.store, env, evs[1..]);
      assert r.outs[1..] == Run(st.store, env, evs[1..]).outs;
    }
  }

  /** The request may put a verification row under token string `t`. */
  predicate MayIssueVerification(ev: Event, t: string) {
    || (ev.req.LoginReq? && ev.req.loginIssue.token == t)
    || (ev.req.RegisterReq? && ev.req.registerIssue.token == t)
  }

  /** A consumed verification token stays consumed until the generator hands
      out the same string again. */
  lemma {:induction false} ConsumedTokenStaysConsumed(s: Store, env: Env, evs: seq<Event>, t: string)
    requires t !in s.verificationTokens
    requires forall i :: 0 <= i < |evs| ==> !MayIssueVerification(evs[i], t)
    ensures t !in Run(s, env, evs).final.verificationTokens
    decreases |evs|
  {
    if |evs| > 0 {
      var st := Apply(s, env, evs[0]);
      assert !MayIssueVerification(evs[0], t);
      assert t !in st.store.verificationTokens;
      assert forall i :: 0 <= i < |evs[1..]| ==> !MayIssueVerification(evs[1..][i], t) by {
        forall i | 0 <= i < |evs[1..]| ensures !MayIssueVerification(evs[1..][i], t) {
          assert evs[1..][i] == evs[i + 1];
        }
      }
      ConsumedTokenStaysConsumed(st.store, env, evs[1..], t);
    }
  }

  /** A verification token succeeds at most once: after it has verified an
      email, any later request sequence that does not reissue the same string
      leaves a second use of it answered with "Invalid token". */
  lemma VerifyIsSingleUse(s: Store, env: Env, token: string, now: Time, evs: seq<Event>, later: Time)
    requires VerifyNewToken(s, token, now).out == Reply(200, EmailVerified)
    requires forall i :: 0 <= i < |evs| ==> !MayIssueVerification(evs[i], token)
    ensures VerifyNewToken(Run(VerifyNewToken(s, token, now).store, env, evs).final, token, later).out
              == Reply(400, InvalidToken)
  {
    ConsumedTokenStaysConsumed(VerifyNewToken(s, token, now).store, env, evs, token);
  }

  /** The request may put a reset row under token string `t`. */
  predicate MayIssueReset(ev: Event, t: string) {
    ev.req.ResetMailReq? && ev.req.resetIssue.token == t
  }

  /** A consumed reset token stays consumed until the generator hands out the
      same string again. */
  lemma {:induction false} ConsumedResetTokenStaysConsumed(s: Store, env: Env, evs: seq<Event>, t: string)
    requires t !in s.resetTokens
    requires forall i :: 0 <= i < |evs| ==> !MayIssueReset(evs[i], t)
    ensures t !in Run(s, env, evs).final.resetTokens
    decreases |evs|
  {
    if |evs| > 0 {
      var st := Apply(s, env, evs[0]);
      assert !MayIssueReset(evs[0], t);
      assert t !in st.store.resetTokens;
      assert forall i :: 0 <= i < |evs[1..]| ==> !MayIssueReset(evs[1..][i], t) by {
        forall i | 0 <= i < |evs[1..]| ensures !MayIssueReset(evs[1..][i], t) {
          assert evs[1..][i] == evs[i + 1];
        }
      }
      ConsumedResetTokenStaysConsumed(st.store, env, evs[1..], t);
    }
  }

  /** A reset token succeeds at most once: after it has reset a password, any
      later request sequence that does not reissue the same string leaves a
      second use of it answered with "Invalid token". */
  lemma ResetIsSingleUseOverRequests(s: Store, env: Env, token: string, p: string, now: Time,
                                     evs: seq<Event>, q: string, later: Time)
    requires ResetPassword(s, env, token, p, now).out == Reply(200, PasswordReset)
    requires forall i :: 0 <= i < |evs| ==> !MayIssueReset(evs[i], token)
    ensures ResetPassword(Run(ResetPassword(s, env, token, p, now).store, env, evs).final, env, token, q, later).out
              == Reply(400, InvalidToken)
  {
    ConsumedResetTokenStaysConsumed(ResetPassword(s, env, token, p, now).store, env, evs, token);
  }
}
