/** Email verification: a single-use, expiring token marks the user whose
    email it names as verified, then is deleted. */
module VerifyEmail {
  import opened Collections
  import opened Schema
  import opened Http
  import Database

  /** The two tables the handler reads and writes. */
  datatype AuthTables = AuthTables(users: map<Id, User>, tokens: seq<VerificationToken>)

  /** The token rows whose value is `token` (the handler's `SELECT`). */
  function TokenRows(tokens: seq<VerificationToken>, token: string): (r: seq<VerificationToken>)
    ensures forall t :: t in r <==> t in tokens && t.token == token
  {
    Filter(tokens, (t: VerificationToken) => t.token == token)
  }

  /** Every user whose email is `email` gets `emailVerified = now`. */
  function MarkVerified(users: map<Id, User>, email: string, now: Timestamp): (r: map<Id, User>)
    ensures r.Keys == users.Keys
  {
    map k | k in users :: if users[k].email == email then users[k].(emailVerified := Some(now)) else users[k]
  }

  /** The outcome of `GET /api/auth/verify-email?token=...` at time `now`. */
  function Verify(tables: AuthTables, token: Option<string>, now: Timestamp): (r: (Response, AuthTables))
    // Success exactly when a non-empty token names a stored row that has not expired.
    ensures r.0.status == 200 <==>
      token.Some? && token.value != "" && TokenRows(tables.tokens, token.value) != []
      && now <= TokenRows(tables.tokens, token.value)[0].expires
    // Every failure is a 400 that changes nothing.
    ensures r.0.status != 200 ==> r.0.status == 400 && r.1 == tables
    // Success verifies exactly the users with the token's email and consumes the token.
    ensures r.0.status == 200 ==>
      var identifier := TokenRows(tables.tokens, token.value)[0].identifier;
      && r.1.users.Keys == tables.users.Keys
      && (forall k :: k in tables.users ==>
            r.1.users[k] == if tables.users[k].email == identifier
                            then tables.users[k].(emailVerified := Some(now)) else tables.users[k])
      && (forall t :: t in r.1.tokens <==> t in tables.tokens && t.token != token.value)
  {
    if token.None? || token.value == "" then
      (Response(400, "Missing token"), tables)
    else
      var rows := TokenRows(tables.tokens, token.value);
      if rows == [] then
        (Response(400, "Invalid token"), tables)
      else if now > rows[0].expires then
        (Response(400, "Token expired"), tables)
      else
        var users := MarkVerified(tables.users, rows[0].identifier, now);
        var tokens := Filter(tables.tokens, (t: VerificationToken) => t.token != token.value);
        (Response(200, "Email verified successfully"), AuthTables(users, tokens))
  }

  /** Tokens are single-use: once a token has verified an email, presenting it
      again, at any time, is refused as an invalid token. */
  lemma TokenSingleUse(tables: AuthTables, token: string, now: Timestamp, later: Timestamp)
    requires Verify(tables, Some(token), now).0.status == 200
    ensures Verify(Verify(tables, Some(token), now).1, Some(token), later).0 == Response(400, "Invalid token")
  {
    var after := Verify(tables, Some(token), now).1;
    FilterKeepsNone(after.tokens, (t: VerificationToken) => t.token == token);
  }

  /** An expired token (now strictly after its expiry) verifies nobody and is not
      deleted; a token presented exactly at its expiry time is still accepted. */
  lemma ExpiryBoundary(tables: AuthTables, row: VerificationToken, now: Timestamp)
    requires TokensOk(tables.tokens) && row in tables.tokens && row.token != ""
    ensures now > row.expires ==> Verify(tables, Some(row.token), now) == (Response(400, "Token expired"), tables)
    ensures now == row.expires ==> Verify(tables, Some(row.token), now).0.status == 200
  {
    var rows := TokenRows(tables.tokens, row.token);
    TokenIdentifiesOne(tables.tokens, row.token);
    assert row in rows;
    assert rows[0] == row;
  }

  /** Verification preserves the token and user constraints. */
  lemma VerifyKeepsConstraints(tables: AuthTables, token: Option<string>, now: Timestamp)
    requires UsersOk(tables.users) && TokensOk(tables.tokens)
    ensures UsersOk(Verify(tables, token, now).1.users) && TokensOk(Verify(tables, token, now).1.tokens)
  {
    var r := Verify(tables, token, now);
    if r.0.status == 200 {
      FilterKeepsDistinct(tables.tokens, (t: VerificationToken) => t.token != token.value, (t: VerificationToken) => t.token);
    }
  }

  /** `GET`: early returns for a missing, unknown or expired token; otherwise the
      user row update, then the token deletion. */
  method HandleVerifyEmail(db: Database.Db, token: Option<string>, now: Timestamp) returns (response: Response)
    requires db.Valid()
    modifies db`users, db`verificationTokens
    ensures db.Valid()
    ensures (response, AuthTables(db.users, db.verificationTokens))
         == Verify(AuthTables(old(db.users), old(db.verificationTokens)), token, now)
  {
    VerifyKeepsConstraints(AuthTables(db.users, db.verificationTokens), token, now);
    if token.None? || token.value == "" {
      return Response(400, "Missing token");
    }
    var userVerificationTokens := TokenRows(db.verificationTokens, token.value);
    if |userVerificationTokens| == 0 {
      return Response(400, "Invalid token");
    }
    var verificationToken := userVerificationTokens[0];
    if now > verificationToken.expires {
      return Response(400, "Token expired");
    }
    db.users := MarkVerified(db.users, verificationToken.identifier, now);
    db.verificationTokens := Filter(db.verificationTokens, (t: VerificationToken) => t.token != token.value);
    return Response(200, "Email verified successfully");
  }
}
