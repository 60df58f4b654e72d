/**
  Properties that relate several calls of the actions: independence from the
  sign-in exchange, single use of reset tokens, duplicate registration, the
  register-login-verify-login walk-through, and the source's own quirks.
 */
module Properties {
  import opened AuthStore
  import opened Actions

  /** Login for an unverified user does not depend on the sign-in exchange at
      all: replacing the exchange by any other gives the same step. */
  lemma LoginUnverifiedIgnoresSignIn(s: Store, env: Env, other: (map<string, User>, LoginInput) -> SignInOutcome,
                                     input: LoginInput, issue: IssueChoice)
    requires input.email in s.users && s.users[input.email].emailVerified.None?
    ensures Login(s, env, input, issue) == Login(s, env.(signIn := other), input, issue)
  {
  }

  /** In a consistent store, login of an unverified user issues its token for
      the very email that was submitted. */
  lemma LoginIssuesForSubmittedEmail(s: Store, env: Env, input: LoginInput, issue: IssueChoice)
    requires Consistent(s)
    requires env.loginSchema(input) && input.email in s.users && CanLogIn(s.users[input.email])
    requires s.users[input.email].emailVerified.None?
    ensures Login(s, env, input, issue).out == Reply(200, ConfirmationEmailSent)
    ensures HasTokenFor(Login(s, env, input, issue).store.verificationTokens, input.email)
  {
  }

  /** Registering an email twice: the second attempt is refused and leaves
      the first registration's store as it was. */
  lemma RegisterTwiceCreatesNothing(s: Store, env: Env, first: RegisterInput, second: RegisterInput,
                                    c1: IssueChoice, c2: IssueChoice)
    requires env.registerSchema(first) && env.registerSchema(second) && first.email == second.email
    ensures var s1 := Register(s, env, first, c1).store;
            Register(s1, env, second, c2) == Step(Reply(400, UserAlreadyRegistered), s1)
  {
  }

  /** A reset token works at most once: right after a successful reset the
      same token string is unknown. */
  lemma ResetIsSingleUse(s: Store, env: Env, token: string, p: string, q: string, now: Time, later: Time)
    requires ResetPassword(s, env, token, p, now).out == Reply(200, PasswordReset)
    ensures ResetPassword(ResetPassword(s, env, token, p, now).store, env, token, q, later)
              == Step(Reply(400, InvalidToken), ResetPassword(s, env, token, p, now).store)
  {
  }

  /** A token whose expiry equals the current instant is still accepted. */
  lemma ExpiryBoundaryAccepted(s: Store, token: string, now: Time)
    requires token in s.verificationTokens && s.verificationTokens[token].expires == now
    requires s.verificationTokens[token].email in s.users
    ensures VerifyNewToken(s, token, now).out == Reply(200, EmailVerified)
    ensures VerifyNewToken(s, token, now + 1).out == Reply(400, TokenHasExpired)
  {
  }

  /** A verification token whose user is gone is neither reported as such
      nor consumed: the update throws and the token stays. */
  lemma VerifyMissingUserFaults(s: Store, token: string, now: Time)
    requires token in s.verificationTokens && !Expired(s.verificationTokens[token], now)
    requires s.verificationTokens[token].email !in s.users
    ensures VerifyNewToken(s, token, now).out == Thrown(UpdateWithoutId)
    ensures token in VerifyNewToken(s, token, now).store.verificationTokens
  {
  }

  /** The same-password guard compares the stored hash with the raw new
      password: choosing the current password again is not refused whenever
      its hash differs from its plain text, while typing the stored hash
      itself is refused. */
  lemma SamePasswordComparesStoredHash(s: Store, env: Env, token: string, p: string, now: Time)
    requires token in s.resetTokens && !Expired(s.resetTokens[token], now)
    requires s.resetTokens[token].email in s.users
    requires s.users[s.resetTokens[token].email].password == Some(env.hash(p))
    ensures env.hash(p) != p ==> ResetPassword(s, env, token, p, now).out == Reply(200, PasswordReset)
    ensures ResetPassword(s, env, token, env.hash(p), now).out == Reply(400, SamePassword)
  {
  }

  /** A credential exchange that accepts exactly the submitted password
      whose hash is stored for the submitted email, and otherwise fails
      with `CredentialsSignin`. The application's own credential provider
      is not part of this model; this one serves to show how the stored
      hash, which reset rewrites, reaches a later login. */
  function HashCheckingSignIn(hash: string -> string): (map<string, User>, LoginInput) -> SignInOutcome {
    (users: map<string, User>, i: LoginInput) =>
      if i.email in users && users[i.email].password == Some(hash(i.password)) then SignedIn
      else AuthError("CredentialsSignin")
  }

  /** With a hash-checking exchange, a password reset changes which password
      logs a verified user in: the new one succeeds, and an old one whose
      hash differs is refused with "Invalid Credentials". */
  lemma ResetChangesLogin(s: Store, env: Env, token: string, oldPassword: string, newPassword: string,
                          now: Time, c: IssueChoice)
    requires env.signIn == HashCheckingSignIn(env.hash)
    requires ResetPassword(s, env, token, newPassword, now).out == Reply(200, PasswordReset)
    requires Consistent(s)
    requires env.loginSchema(LoginInput(s.resetTokens[token].email, newPassword))
    requires env.loginSchema(LoginInput(s.resetTokens[token].email, oldPassword))
    requires s.resetTokens[token].email != "" && env.hash(newPassword) != ""
    requires s.users[s.resetTokens[token].email].emailVerified.Some?
    requires env.hash(oldPassword) != env.hash(newPassword)
    ensures var e := s.resetTokens[token].email;
            var s1 := ResetPassword(s, env, token, newPassword, now).store;
            && Login(s1, env, LoginInput(e, newPassword), c) == Step(Reply(200, LoginSuccessful), s1)
            && Login(s1, env, LoginInput(e, oldPassword), c) == Step(Reply(400, InvalidCredentials), s1)
  {
  }

  /** The walk-through: register, log in before verifying (a confirmation
      mail, no sign-in), verify with the token that login issued, then log in
      again, which now goes to a hash-checking exchange and succeeds. */
  lemma RegisterVerifyLogin(s: Store, env: Env, email: string, name: string, password: string,
                            c1: IssueChoice, c2: IssueChoice, now: Time)
    requires email !in s.users && email != ""
    requires env.registerSchema(RegisterInput(email, name, password))
    requires env.loginSchema(LoginInput(email, password))
    requires env.hash(password) != ""
    requires now <= c2.expires
    requires env.signIn == HashCheckingSignIn(env.hash)
    ensures var s1 := Register(s, env, RegisterInput(email, name, password), c1);
            var s2 := Login(s1.store, env, LoginInput(email, password), c2);
            var s3 := VerifyNewToken(s2.store, c2.token, now);
            var s4 := Login(s3.store, env, LoginInput(email, password), c1);
            && s1.out == Reply(200, RegisterSuccessful)
            && s2.out == Reply(200, ConfirmationEmailSent)
            && s3.out == Reply(200, EmailVerified)
            && s3.store.users[email].emailVerified == Some(now)
            && s4 == Step(Reply(200, LoginSuccessful), s3.store)
  {
  }
}
