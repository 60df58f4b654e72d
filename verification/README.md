# Token-gated account state machine

A Dafny model of the authentication server actions of a Next.js application
(`actions/index.ts`): password login, registration, email verification,
password-reset mail and password reset. Each action is a pure transition
over an immutable record store:

- `AuthStore` (`store.dfy`): users keyed by email, with an optional password
  hash and an optional `emailVerified` instant; verification tokens and
  reset-password tokens keyed by token string, each with an email and an
  expiry. Token issuance is an abstract step. An `IssueChoice` stands in for
  the generator's random choices: the fresh token, its expiry and which
  existing rows it retires.
- `Actions` (`actions.dfy`): `Login`, `Register`, `VerifyNewToken`,
  `SendResetPasswordMail` and `ResetPassword`. Each takes the store and the
  request and returns a `Step`, meaning an outcome plus the new store. The
  outcome is either `Reply(status, message)` with the source's exact
  messages, or `Thrown(fault)` for an exception that escapes the action. The
  collaborators the actions call but do not define are fields of an `Env`:
  - the password hash, as an uninterpreted function;
  - the three input schemas, as uninterpreted validity predicates;
  - the credential sign-in exchange, as an oracle over the submitted
    credentials and the stored user rows. It returns, throws an `AuthError`
    with a type, or throws something else. Because it sees the stored rows,
    a password reset can change what a later login answers.
- `Sessions` (`sessions.dfy`): requests served one after another, each at
  its own instant. It holds the invariants proved over every sequence of
  requests:
  - stores stay consistent (each user is filed under its own email), and
    every store reached from the empty database is consistent;
  - starting from a consistent store, no user is removed, renamed or
    un-verified;
  - users are created only by successful registrations;
  - a consumed verification or reset token stays consumed unless the token
    generator issues the same string again.
- `Properties` (`properties.dfy`): properties relating several calls. These
  are independence from the sign-in exchange for unverified users, single
  use, duplicate registration, a register–login–verify–login walk-through,
  and the quirks below.

Three behaviours of the source are kept as written:
- In both verify and reset, the "User does not exist" guard
  (actions/index.ts:158, 250) re-tests the token instead of the user, so that
  reply never occurs. A token whose user is missing reaches the user update at
  actions/index.ts:165 (verify) or 266 (reset) with an undefined `where` id.
  That update throws (`Thrown(UpdateWithoutId)`). The update comes before the
  token delete, so the token is not consumed.
- The same-password guard of reset (actions/index.ts:257) compares the stored
  hash with the raw new password.
- Expiry is `expires < now` (actions/index.ts:148, 240): a token whose expiry
  equals `now` is accepted.

## Model

| member | source | states |
|---|---|---|
| AuthStore.Issue | actions/index.ts:38 | the abstract generator step, standing for the calls at lines 38, 120 and 210: after issuing for an email, a token row for that email exists with the chosen string and expiry; no other row is created or rewritten |
| Actions.SignInReply | actions/index.ts:53-82 | sign-in returning gives 200 "Login successful"; `CredentialsSignin` gives 400 "Invalid Credentials"; any other `AuthError` type gives 400 "Something went wrong kaushik!"; a non-AuthError is re-thrown, each in both directions |
| Actions.Login | actions/index.ts:16-83 | a schema failure gives 400 "Validation failed" and no change; a missing user or one without email or password gives 400 "Email does not exist" and no change; an unverified user gets a verification token for its email and 200 "Confirmation email sent"; a verified user's reply is the sign-in mapping with no store change; "Login successful" implies the user exists and is verified; users and reset tokens never change |
| Actions.Register | actions/index.ts:85-132 | 200 exactly when the schema passes and the email is new; a schema failure or an existing email gives its 400 and no change; success adds exactly one user with the name, email and `hash(password)` and no `emailVerified`, keeps every existing user, and leaves a verification token for the email |
| Actions.VerifyNewToken | actions/index.ts:134-185 | 200 "Email verified" exactly when the token is known, unexpired and its user exists; an unknown token gives 400 "Invalid token" and an expired one 400 "Token has expired", both with no change; a missing user throws with no change; never "User does not exist"; success sets `emailVerified := now` on exactly the token's user, keeps its email, password and name, deletes exactly that token and touches nothing else |
| Actions.SendResetPasswordMail | actions/index.ts:187-221 | 200 exactly when the schema passes and the user exists; a schema failure gives 400 "Validation failed" and an unknown email 400 "User does not exist", both creating no token; success leaves a reset token for the email; users and verification tokens never change |
| Actions.ResetPassword | actions/index.ts:223-285 | 200 exactly when the token is known and unexpired, its user exists, and the stored hash is not the raw new password; an unknown or expired token gives its 400 with no change; a stored hash equal to the raw new password gives 400 "Same password cannot be reset" with no change; a missing user throws with no change; never "User does not exist"; success sets exactly the token's user's password to `hash(newPassword)` and deletes exactly that reset token; verification tokens are never touched |
| Sessions.LoginSound | actions/index.ts:37-51 | login keeps a consistent store consistent, removes or renames no user, un-verifies nobody and adds no user |
| Sessions.RegisterSound | actions/index.ts:112-118 | registration keeps the store consistent and adds exactly one user when it replies "Register successful", none otherwise |
| Sessions.VerifySound | actions/index.ts:165-173 | verification keeps the store consistent, because the email is rewritten to the same key, and adds no user; in a consistent store every user keeps its email, name and password, so at most a verification stamp changes |
| Sessions.ResetMailSound | actions/index.ts:187-221 | the reset-mail action keeps the store consistent and leaves the users table exactly as it was |
| Sessions.ResetSound | actions/index.ts:266-273 | reset keeps the store consistent and adds no user; every user keeps its email, name and verification stamp, so at most a password changes |
| Sessions.ApplySound | actions/index.ts:16-285 | every one of the five actions keeps consistency, only evolves the user table, and adds a user exactly on a successful registration |
| Sessions.RunPreservesConsistency | actions/index.ts:165-173 | from a consistent store, any sequence of requests ends in a consistent store |
| Sessions.RunFromEmptyIsConsistent | actions/index.ts:112-118 | every store reached from the empty database by any sequence of requests is consistent |
| Sessions.RunEvolves | actions/index.ts:165-173 | from a consistent store, over any sequence of requests no user is removed, renamed or un-verified |
| Sessions.RunCountsRegistrations | actions/index.ts:112-118 | over any sequence of requests the user count grows by exactly the number of "Register successful" replies |
| Sessions.ConsumedTokenStaysConsumed | actions/index.ts:175-179 | a verification token string absent from the store stays absent over any requests that do not issue that same string |
| Sessions.VerifyIsSingleUse | actions/index.ts:134-179 | after a successful verify, a later verify with the same token string answers "Invalid token", whatever requests came between, unless one of them issued that string again |
| Sessions.ConsumedResetTokenStaysConsumed | actions/index.ts:275-279 | a reset token string absent from the store stays absent over any requests that do not issue that same string |
| Sessions.ResetIsSingleUseOverRequests | actions/index.ts:227-279 | after a successful reset, a later reset with the same token string answers "Invalid token", whatever requests came between, unless one of them issued that string again |
| Properties.LoginUnverifiedIgnoresSignIn | actions/index.ts:37-51 | for an unverified user the login step is the same whatever the sign-in exchange does, so it is never consulted |
| Properties.LoginIssuesForSubmittedEmail | actions/index.ts:37-51 | in a consistent store, login of an unverified user issues its token for the submitted email |
| Properties.RegisterTwiceCreatesNothing | actions/index.ts:99-110 | a second registration of the same email is refused with "User already registered" and changes nothing |
| Properties.ResetIsSingleUse | actions/index.ts:275-279 | right after a successful reset, the same reset token answers "Invalid token" and changes nothing |
| Properties.ExpiryBoundaryAccepted | actions/index.ts:148-154 | a token expiring exactly now is accepted, and one instant later it is refused as expired |
| Properties.VerifyMissingUserFaults | actions/index.ts:156-173 | a valid token whose user is missing makes the update throw, and the token is not consumed |
| Properties.SamePasswordComparesStoredHash | actions/index.ts:257-262 | re-using the current password passes the same-password guard whenever its hash differs from its plain text, while submitting the stored hash string itself is refused |
| Properties.ResetChangesLogin | actions/index.ts:264-273 | with an exchange that compares the stored hash, after a successful reset of a verified user, login with the new password gives 200 "Login successful" and login with an old password of different hash gives 400 "Invalid Credentials", both leaving the store unchanged |
| Properties.RegisterVerifyLogin | actions/index.ts:16-185 | with an exchange that compares the stored hash: register, then login (200 "Confirmation email sent"), verify with the token login issued (200 "Email verified", stamped now), then login again reaches sign-in and gives 200 "Login successful" |

## Left out

- The React form and button components are left out: they only render the status and message.
- The password hash is a deterministic uninterpreted function. The bcrypt salt and work factor are not modelled, so two hashes of one password are equal here.
- The sign-in exchange, session creation and redirect are an oracle. A redirect thrown by a successful sign-in counts as a non-AuthError and is re-thrown (`SignInRethrown`).
- Mail dispatch is a no-op, and its failures are not modelled.
- `delay(400)` is left out: it only affects timing.
- The input schemas are validity predicates. Any transformation a schema applies to the data is not modelled: the validated data equals the input.
- `getUserByEmail` (`actions/data/user`) is not part of this model. It is taken to be an exact lookup by email.
- The verify action reads the clock twice, once for the expiry check and once for the stamp. The model uses a single `now` per request.
- Row ids are not modelled. Users are keyed by email and tokens by token string, so an update or delete by id acts on the row that was looked up.
- Database faults other than the update with an undefined id are not modelled, for example a unique-key violation when a generated token string collides.
- AuthStore.Issue: guarantees that a row for the email exists afterwards. The token generators are not part of this model, so replacement of earlier tokens is not modelled. The model also assumes that a generator creates no row besides the one it returns and rewrites none (it may only retire rows). The retired rows are unconstrained and may belong to any email, so the model does not promise that issuing a token for one email leaves another email's pending tokens in place. `Sessions.ConsumedTokenStaysConsumed`, `Sessions.VerifyIsSingleUse`, `Sessions.ConsumedResetTokenStaysConsumed` and `Sessions.ResetIsSingleUseOverRequests` rest on this assumption.
- Actions.Login: the sign-in exchange is one function of the stored user rows and the submitted credentials, the same for every request of a run. It does not see token tables, earlier sign-in attempts or anything outside the store, so lockouts or sessions held by the exchange are not modelled. `HashCheckingSignIn` is one such exchange, used to show the reset–login link; the application's own credential provider is not part of this model.
- Actions.Login: the `if (verifiedToken)` fall-through to sign-in is not modelled, because an issued token is always truthy.
- Concurrent requests are not modelled. Requests are served one at a time, as each action runs to completion.
