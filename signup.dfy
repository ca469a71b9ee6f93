/** Account creation: a rate-limited insert into the users table that keeps
    emails unique and always creates an ordinary user. */
module Signup {
  import opened Collections
  import opened Schema
  import opened Http
  import Database
  import RateLimiter

  /** The part of `POST /api/auth/signup` after the rate-limit gate. `hashed` is
      the bcrypt hash of the submitted password; `newId` is the id the route
      generates with `uuidv4()`: canonical uuid text. */
  function Register(users: map<Id, User>, newId: Id, name: Option<string>, email: string, hashed: string)
    : (r: (Response, map<Id, User>))
    requires newId !in users
    // An email already on record is refused and nothing is inserted.
    ensures (exists k :: k in users && users[k].email == email) <==> r.0 == Response(400, "User already exists")
    ensures r.0.status == 400 ==> r.1 == users
    // Otherwise exactly one row is added, an ordinary free user holding the hash.
    ensures r.0.status != 400 ==>
      && r.0 == Response(201, "User created successfully")
      && r.1.Keys == users.Keys + {newId}
      && |r.1| == |users| + 1
      && (forall k :: k in users ==> r.1[k] == users[k])
      && r.1[newId].email == email && r.1[newId].name == name && r.1[newId].password == hashed
      && r.1[newId].role == RoleUser && r.1[newId].subscriptionStatus == StatusFree
      && r.1[newId].emailVerified.None? && r.1[newId].image.None? && r.1[newId].subscriptionEndDate.None?
      && r.1[newId].stripeSubscriptionId.None? && r.1[newId].stripeCustomerId.None?
  {
    if exists k :: k in users && users[k].email == email then
      (Response(400, "User already exists"), users)
    else
      (Response(201, "User created successfully"), users[newId := NewUserRow(newId, name, email, hashed)])
  }

  /** Signing up keeps the table keyed by id with unique emails. */
  lemma RegisterKeepsUsersOk(users: map<Id, User>, newId: Id, name: Option<string>, email: string, hashed: string)
    requires UsersOk(users) && newId !in users && CanonicalId(newId)
    ensures UsersOk(Register(users, newId, name, email, hashed).1)
  {
    if !exists k :: k in users && users[k].email == email {
      var r := users[newId := NewUserRow(newId, name, email, hashed)];
      forall a, b | a in r && b in r && a != b ensures r[a].email != r[b].email {
        if a == newId {
          assert b in users && users[b].email != email;
        } else if b == newId {
          assert a in users && users[a].email != email;
        } else {
          assert r[a] == users[a] && r[b] == users[b];
        }
      }
      assert UsersOk(r);
    }
  }

  /** Signing up twice with the same email adds one user: the second attempt is refused. */
  lemma SecondSignupRefused(users: map<Id, User>, id1: Id, id2: Id, name: Option<string>, email: string, h1: string, h2: string)
    requires id1 !in users && id2 !in users && id1 != id2
    ensures var after := Register(users, id1, name, email, h1).1;
      Register(after, id2, name, email, h2).0 == Response(400, "User already exists")
  {
    var after := Register(users, id1, name, email, h1).1;
    if !(exists k :: k in users && users[k].email == email) {
      assert id1 in after && after[id1].email == email;
    }
  }

  /** `POST`: the limiter is consulted (and counts the request) first; a refused
      request is answered 429 before any lookup or insert. `hash` stands for
      bcrypt; only its result is stored. `newId` is the id the route
      generates with `uuidv4()`, which is canonical uuid text. */
  method HandleSignup(db: Database.Db, limiter: RateLimiter.Limiter, forwardedFor: Option<string>, now: int,
                      name: Option<string>, email: string, password: string, newId: Id, hash: string -> string)
    returns (response: Response)
    requires db.Valid() && newId !in db.users && CanonicalId(newId)
    modifies db`users, limiter
    ensures db.Valid()
    ensures var key := RateLimiter.ClientKey(forwardedFor);
      var stored := if key in old(limiter.ipRequestCounts) then Some(old(limiter.ipRequestCounts)[key]) else None;
      limiter.ipRequestCounts == old(limiter.ipRequestCounts)[key := RateLimiter.Hit(stored, now)]
    ensures RateLimiter.TooMany(limiter.ipRequestCounts[RateLimiter.ClientKey(forwardedFor)]) ==>
      response == Response(429, "Too many requests") && db.users == old(db.users)
    ensures !RateLimiter.TooMany(limiter.ipRequestCounts[RateLimiter.ClientKey(forwardedFor)]) ==>
      (response, db.users) == Register(old(db.users), newId, name, email, hash(password))
  {
    var rateLimiterResponse := limiter.Check(forwardedFor, now);
    if rateLimiterResponse.Some? {
      return rateLimiterResponse.value;
    }
    ghost var outcome := Register(db.users, newId, name, email, hash(password));
    var existing := exists k :: k in db.users && db.users[k].email == email;
    if existing {
      assert outcome == (Response(400, "User already exists"), db.users);
      return Response(400, "User already exists");
    }
    var hashedPassword := hash(password);
    RegisterKeepsUsersOk(db.users, newId, name, email, hashedPassword);
    db.users := db.users[newId := NewUserRow(newId, name, email, hashedPassword)];
    assert outcome == (Response(201, "User created successfully"), db.users);
    return Response(201, "User created successfully");
  }
}
