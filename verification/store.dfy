/**
  The record store behind the authentication actions: users keyed by email,
  and two token tables (email verification and password reset) keyed by the
  token string. The persistent database is replaced by immutable maps, and
  token issuance by an abstract step whose random choices are a parameter.
 */
module AuthStore {

  datatype Option<+T> = None | Some(value: T)

  /** An instant, in milliseconds since the epoch. */
  type Time = int

  /** A user row. `password` holds the stored hash (null for accounts without
      one); `emailVerified` is null until the email is confirmed. */
  datatype User = User(
    name: Option<string>,
    email: string,
    password: Option<string>,
    emailVerified: Option<Time>)

  /** A verification or reset-password token row, found by its token string. */
  datatype TokenRecord = TokenRecord(email: string, expires: Time)

  datatype Store = Store(
    users: map<string, User>,
    verificationTokens: map<string, TokenRecord>,
    resetTokens: map<string, TokenRecord>)

  const EmptyStore := Store(map[], map[], map[])

  /** JavaScript truthiness of a nullable string: null and "" are both falsy. */
  predicate Present(s: Option<string>) {
    s.Some? && s.value != ""
  }

  /** A token has expired when its expiry lies strictly before `now`; a token
      whose expiry equals `now` is still accepted. */
  predicate Expired(t: TokenRecord, now: Time) {
    t.expires < now
  }

  /** Every user row is filed under its own email: the lookup key and the
      stored email agree. */
  ghost predicate Consistent(s: Store) {
    forall e :: e in s.users ==> s.users[e].email == e
  }

  /** A live token of `tokens` belongs to `email`. */
  ghost predicate HasTokenFor(tokens: map<string, TokenRecord>, email: string) {
    exists t :: t in tokens && tokens[t].email == email
  }

  /** What the token generator decides on one call: the fresh token string,
      its expiry, and which existing rows it retires beforehand. */
  datatype IssueChoice = IssueChoice(token: string, expires: Time, retired: set<string>)

  /** Issue a token for `email`. The generator itself is not part of this
      model; all that is relied on is that afterwards a row for `email`
      exists, and that no row other than the issued one is created or
      rewritten (rows may be retired). */
  function Issue(tokens: map<string, TokenRecord>, email: string, c: IssueChoice): (r: map<string, TokenRecord>)
    ensures c.token in r && r[c.token].email == email && r[c.token].expires == c.expires
    ensures HasTokenFor(r, email)
    ensures forall t :: t in r && t != c.token ==> t in tokens && r[t] == tokens[t]
  {
    (tokens - c.retired)[c.token := TokenRecord(email, c.expires)]
  }
}
