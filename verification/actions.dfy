/**
  The five server actions of the authentication surface, each a pure
  transition `(store, request) -> (outcome, store')`. The collaborators the
  actions call but do not define are supplied in an `Env`: the password hash,
  the three input schemas, and the credential sign-in exchange.
 */
module Actions {
  import opened AuthStore

  const ValidationFailed := "Validation failed"
  const EmailDoesNotExist := "Email does not exist"
  const ConfirmationEmailSent := "Confirmation email sent"
  const LoginSuccessful := "Login successful"
  const InvalidCredentials := "Invalid Credentials"
  const SomethingWentWrong := "Something went wrong kaushik!"
  const UserAlreadyRegistered := "User already registered"
  const RegisterSuccessful := "Register successful"
  const InvalidToken := "Invalid token"
  const TokenHasExpired := "Token has expired"
  const UserDoesNotExist := "User does not exist"
  const EmailVerified := "Email verified"
  const ResetEmailSent := "Password reset email sent"
  const SamePassword := "Same password cannot be reset"
  const PasswordReset := "Password reset successfully"

  /** How the credential exchange ends: it returns, it throws an `AuthError`
      carrying its `type`, or it throws anything else. */
  datatype SignInOutcome = SignedIn | AuthError(errorType: string) | OtherError

  /** Exceptions that escape an action. */
  datatype Fault =
    | SignInRethrown      // any non-AuthError from the sign-in exchange, re-thrown
    | UpdateWithoutId     // a user update whose `where` id is undefined

  datatype Outcome = Reply(status: int, message: string) | Thrown(fault: Fault)

  datatype Step = Step(out: Outcome, store: Store)

  datatype LoginInput = LoginInput(email: string, password: string)
  datatype RegisterInput = RegisterInput(email: string, name: string, password: string)
  datatype ResetInput = ResetInput(email: string)

  datatype Env = Env(
    hash: string -> string,
    loginSchema: LoginInput -> bool,
    registerSchema: RegisterInput -> bool,
    resetSchema: ResetInput -> bool,
    // The exchange sees the submitted credentials and the stored user rows.
    signIn: (map<string, User>, LoginInput) -> SignInOutcome)

  /** A user row the login guard accepts: a non-empty email and a stored hash. */
  predicate CanLogIn(u: User) {
    u.email != "" && Present(u.password)
  }

  /** The catch block of the login action, for a sign-in call that threw or
      returned. */
  function SignInReply(o: SignInOutcome): (r: Outcome)
    ensures r == Reply(200, LoginSuccessful) <==> o == SignedIn
    ensures r == Reply(400, InvalidCredentials) <==> o == AuthError("CredentialsSignin")
    ensures r == Reply(400, SomethingWentWrong) <==> o.AuthError? && o.errorType != "CredentialsSignin"
    ensures r == Thrown(SignInRethrown) <==> o == OtherError
  {
    match o
    case SignedIn => Reply(200, LoginSuccessful)
    case AuthError(t) =>
      if t == "CredentialsSignin" then Reply(400, InvalidCredentials) else Reply(400, SomethingWentWrong)
    case OtherError => Thrown(SignInRethrown)
  }

  function Login(s: Store, env: Env, input: LoginInput, issue: IssueChoice): (r: Step)
    // Only the users table guards the action; only the verification table can change.
    ensures r.store.users == s.users && r.store.resetTokens == s.resetTokens
    ensures !env.loginSchema(input) ==> r == Step(Reply(400, ValidationFailed), s)
    ensures env.loginSchema(input) && (input.email !in s.users || !CanLogIn(s.users[input.email])) ==>
              r == Step(Reply(400, EmailDoesNotExist), s)
    // An unverified user is never handed to the sign-in exchange: a token is issued instead.
    ensures env.loginSchema(input) && input.email in s.users && CanLogIn(s.users[input.email])
              && s.users[input.email].emailVerified.None? ==>
              && r.out == Reply(200, ConfirmationEmailSent)
              && HasTokenFor(r.store.verificationTokens, s.users[input.email].email)
    ensures env.loginSchema(input) && input.email in s.users && CanLogIn(s.users[input.email])
              && s.users[input.email].emailVerified.Some? ==>
              r == Step(SignInReply(env.signIn(s.users, input)), s)
    // A login can only succeed for a verified user.
    ensures r.out == Reply(200, LoginSuccessful) ==>
              input.email in s.users && s.users[input.email].emailVerified.Some?
    // The store changes only on the confirmation path.
    ensures r.store != s ==> r.out == Reply(200, ConfirmationEmailSent)
  {
    if !env.loginSchema(input) then
      Step(Reply(400, ValidationFailed), s)
    else if input.email !in s.users || !CanLogIn(s.users[input.email]) then
      Step(Reply(400, EmailDoesNotExist), s)
    else
      var u := s.users[input.email];
      if u.emailVerified.None? then
        // The issued token is always truthy, so the fall-through to sign-in never happens.
        Step(Reply(200, ConfirmationEmailSent),
             s.(verificationTokens := Issue(s.verificationTokens, u.email, issue)))
      else
        Step(SignInReply(env.signIn(s.users, input)), s)
  }

  /** The row registration creates: no verification timestamp, the password hashed. */
  function NewUser(env: Env, input: RegisterInput): User {
    User(Some(input.name), input.email, Some(env.hash(input.password)), None)
  }

  function Register(s: Store, env: Env, input: RegisterInput, issue: IssueChoice): (r: Step)
    ensures r.out.Reply? && r.store.resetTokens == s.resetTokens
    ensures r.out.status == 200 <==> env.registerSchema(input) && input.email !in s.users
    ensures !env.registerSchema(input) ==> r == Step(Reply(400, ValidationFailed), s)
    // A duplicate registration creates nothing.
    ensures env.registerSchema(input) && input.email in s.users ==>
              r == Step(Reply(400, UserAlreadyRegistered), s)
    // Success adds exactly the new user, leaves every existing user as it was, and issues a token.
    ensures r.out.status == 200 ==>
              && r.out.message == RegisterSuccessful
              && r.store.users.Keys == s.users.Keys + {input.email}
              && r.store.users[input.email] == NewUser(env, input)
              && r.store.users[input.email].emailVerified.None?
              && (forall e :: e in s.users ==> r.store.users[e] == s.users[e])
              && HasTokenFor(r.store.verificationTokens, input.email)
  {
    if !env.registerSchema(input) then
      Step(Reply(400, ValidationFailed), s)
    else
      // The source hashes before the existence check; the hash has no effect on the store.
      var hashed := env.hash(input.password);
      if input.email in s.users then
        Step(Reply(400, UserAlreadyRegistered), s)
      else
        var created := s.users[input.email := User(Some(input.name), input.email, Some(hashed), None)];
        Step(Reply(200, RegisterSuccessful),
             Store(created, Issue(s.verificationTokens, input.email, issue), s.resetTokens))
  }

  /** Guards the verify action passes before it writes. */
  predicate VerifyGoes(s: Store, token: string, now: Time) {
    token in s.verificationTokens
    && !Expired(s.verificationTokens[token], now)
    && s.verificationTokens[token].email in s.users
  }

  function VerifyNewToken(s: Store, token: string, now: Time): (r: Step)
    ensures r.out.Reply? ==> r.out.status == 200 || r.out.status == 400
    ensures r.out == Reply(200, EmailVerified) <==> VerifyGoes(s, token, now)
    ensures token !in s.verificationTokens ==> r == Step(Reply(400, InvalidToken), s)
    // An expired token is refused and stays in the store.
    ensures token in s.verificationTokens && Expired(s.verificationTokens[token], now) ==>
              r == Step(Reply(400, TokenHasExpired), s)
    // The "User does not exist" reply is unreachable: a missing user makes the update throw.
    ensures r.out != Reply(400, UserDoesNotExist)
    ensures token in s.verificationTokens && !Expired(s.verificationTokens[token], now)
              && s.verificationTokens[token].email !in s.users ==>
              r == Step(Thrown(UpdateWithoutId), s)
    // Success stamps exactly the token's user, consumes exactly that token, and touches nothing else.
    ensures VerifyGoes(s, token, now) ==>
              var e := s.verificationTokens[token].email;
              && r.store.verificationTokens == s.verificationTokens - {token}
              && r.store.resetTokens == s.resetTokens
              && r.store.users.Keys == s.users.Keys
              && r.store.users[e].emailVerified == Some(now)
              && r.store.users[e].email == e
              && r.store.users[e].password == s.users[e].password
              && r.store.users[e].name == s.users[e].name
              && (forall o :: o in s.users && o != e ==> r.store.users[o] == s.users[o])
    ensures !VerifyGoes(s, token, now) ==> r.store == s
  {
    if token !in s.verificationTokens then
      Step(Reply(400, InvalidToken), s)
    else
      var t := s.verificationTokens[token];
      if Expired(t, now) then
        Step(Reply(400, TokenHasExpired), s)
      else
        // The source re-tests the token rather than the user at this point,
        // so its "User does not exist" reply is never produced.
        if t.email !in s.users then
          Step(Thrown(UpdateWithoutId), s)
        else
          var u := s.users[t.email];
          var users' := s.users[t.email := u.(emailVerified := Some(now), email := t.email)];
          Step(Reply(200, EmailVerified), Store(users', s.verificationTokens - {token}, s.resetTokens))
  }

  function SendResetPasswordMail(s: Store, env: Env, input: ResetInput, issue: IssueChoice): (r: Step)
    ensures r.out.Reply? && r.store.users == s.users && r.store.verificationTokens == s.verificationTokens
    ensures r.out.status == 200 <==> env.resetSchema(input) && input.email in s.users
    ensures !env.resetSchema(input) ==> r == Step(Reply(400, ValidationFailed), s)
    // No reset token is created for an unknown email.
    ensures env.resetSchema(input) && input.email !in s.users ==>
              r == Step(Reply(400, UserDoesNotExist), s)
    ensures r.out.status == 200 ==>
              r.out.message == ResetEmailSent && HasTokenFor(r.store.resetTokens, input.email)
  {
    if !env.resetSchema(input) then
      Step(Reply(400, ValidationFailed), s)
    else if input.email !in s.users then
      Step(Reply(400, UserDoesNotExist), s)
    else
      Step(Reply(200, ResetEmailSent), s.(resetTokens := Issue(s.resetTokens, input.email, issue)))
  }

  /** Guards the reset action passes before it writes. The same-password
      guard compares the stored hash with the raw new password. */
  predicate ResetGoes(s: Store, token: string, newPassword: string, now: Time) {
    token in s.resetTokens
    && !Expired(s.resetTokens[token], now)
    && s.resetTokens[token].email in s.users
    && s.users[s.resetTokens[token].email].password != Some(newPassword)
  }

  function ResetPassword(s: Store, env: Env, token: string, newPassword: string, now: Time): (r: Step)
    ensures r.out.Reply? ==> r.out.status == 200 || r.out.status == 400
    ensures r.out == Reply(200, PasswordReset) <==> ResetGoes(s, token, newPassword, now)
    ensures token !in s.resetTokens ==> r == Step(Reply(400, InvalidToken), s)
    ensures token in s.resetTokens && Expired(s.resetTokens[token], now) ==>
              r == Step(Reply(400, TokenHasExpired), s)
    ensures r.out != Reply(400, UserDoesNotExist)
    // The same-password guard refuses when the stored hash equals the raw new password.
    ensures token in s.resetTokens && !Expired(s.resetTokens[token], now)
              && s.resetTokens[token].email in s.users
              && s.users[s.resetTokens[token].email].password == Some(newPassword) ==>
              r == Step(Reply(400, SamePassword), s)
    ensures token in s.resetTokens && !Expired(s.resetTokens[token], now)
              && s.resetTokens[token].email !in s.users ==>
              r == Step(Thrown(UpdateWithoutId), s)
    // Verification tokens are never touched by a reset.
    ensures r.store.verificationTokens == s.verificationTokens
    // Success rehashes exactly the token's user and consumes exactly that token.
    ensures ResetGoes(s, token, newPassword, now) ==>
              var e := s.resetTokens[token].email;
              && r.store.resetTokens == s.resetTokens - {token}
              && r.store.users.Keys == s.users.Keys
              && r.store.users[e] == s.users[e].(password := Some(env.hash(newPassword)))
              && (forall o :: o in s.users && o != e ==> r.store.users[o] == s.users[o])
    ensures !ResetGoes(s, token, newPassword, now) ==> r.store == s
  {
    if token !in s.resetTokens then
      Step(Reply(400, InvalidToken), s)
    else
      var t := s.resetTokens[token];
      if Expired(t, now) then
        Step(Reply(400, TokenHasExpired), s)
      else
        // As in verification, the user-existence guard re-tests the token and never fires.
        var found := t.email in s.users;
        // `existingUser?.password === confirmedPassword`: undefined for a missing user, never equal.
        if found && s.users[t.email].password == Some(newPassword) then
          Step(Reply(400, SamePassword), s)
        else if !found then
          Step(Thrown(UpdateWithoutId), s)
        else
          var u := s.users[t.email];
          var users' := s.users[t.email := u.(password := Some(env.hash(newPassword)))];
          Step(Reply(200, PasswordReset), Store(users', s.verificationTokens, s.resetTokens - {token}))
  }
}
