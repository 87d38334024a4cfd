/**
 * The account routes: registration and login. Neither runs behind the
 * token guard; login is where tokens come from.
 */
module Auth {
  import opened Wrappers
  import opened Crypto
  import opened Documents
  import opened Store
  import Guard

  predicate HasEmail(doc: Fields, email: string)
  {
    EMAIL in doc && doc[EMAIL] == email
  }

  predicate HasUsername(doc: Fields, username: string)
  {
    USERNAME in doc && doc[USERNAME] == username
  }

  /** `User.findOne({ $or: [{ email }, { username }] })` finds an account. */
  predicate Taken(users: map<Id, Fields>, email: string, username: string)
  {
    exists id :: id in users && (HasEmail(users[id], email) || HasUsername(users[id], username))
  }

  /** `User.findOne({ email })` finds an account. */
  predicate Known(users: map<Id, Fields>, email: string)
  {
    exists id :: id in users && HasEmail(users[id], email)
  }

  /** The document registration stores. */
  function Account(username: string, email: string, hashed: string): (doc: Fields)
    ensures doc.Keys == {USERNAME, EMAIL, PASSWORD}
    ensures HasUsername(doc, username) && HasEmail(doc, email) && doc[PASSWORD] == hashed
  {
    map[USERNAME := username, EMAIL := email, PASSWORD := hashed]
  }

  /** No two accounts share an email, and no two share a username. */
  ghost predicate AccountsUnique(users: map<Id, Fields>)
  {
    forall a, b :: a in users && b in users && a != b ==>
      && !(EMAIL in users[a] && HasEmail(users[b], users[a][EMAIL]))
      && !(USERNAME in users[a] && HasUsername(users[b], users[a][USERNAME]))
  }

  /** A registration that passed the clash check keeps emails and usernames
      unique. */
  lemma RegisterKeepsUnique(users: map<Id, Fields>, id: Id, username: string, email: string, hashed: string)
    requires AccountsUnique(users)
    requires id !in users && !Taken(users, email, username)
    ensures AccountsUnique(users[id := Account(username, email, hashed)])
  {
    var after := users[id := Account(username, email, hashed)];
    forall a, b | a in after && b in after && a != b
      ensures !(EMAIL in after[a] && HasEmail(after[b], after[a][EMAIL]))
      ensures !(USERNAME in after[a] && HasUsername(after[b], after[a][USERNAME]))
    {
      if a == id {
        assert !HasEmail(users[b], email) && !HasUsername(users[b], username);
      } else if b == id {
        assert !HasEmail(users[a], email) && !HasUsername(users[a], username);
      }
    }
  }

  /** `router.post('/register')` of routes/auth.js. */
  method Register(db: Db, crypto: Primitives, username: string, email: string, password: string,
                  salt: string, id: Id) returns (resp: Response)
    requires db.Valid() && id !in db.users
    modifies db
    ensures db.Valid()
    ensures db.posts == old(db.posts)
    ensures Taken(old(db.users), email, username) ==>
      resp == Response(400, Message(USER_EXISTS)) && db.users == old(db.users)
    ensures !Taken(old(db.users), email, username) ==>
      && db.users == old(db.users)[id := Account(username, email, crypto.hash(password, salt))]
      && resp == Response(201, UserBody(Some(Public(id, db.users[id]))))
    ensures AccountsUnique(old(db.users)) ==> AccountsUnique(db.users)
    ensures Safe(resp.body)
  {
    if Taken(db.users, email, username) {
      return Response(400, Message(USER_EXISTS));
    }
    var hashedPassword := crypto.hash(password, salt);
    var user := Account(username, email, hashedPassword);
    if AccountsUnique(db.users) {
      RegisterKeepsUnique(db.users, id, username, email, hashedPassword);
    }
    db.users := db.users[id := user];
    resp := Response(201, UserBody(Some(Public(id, user))));
  }

  /** What login answers once it has found account `uid`. */
  function Answer(users: map<Id, Fields>, uid: Id, crypto: Primitives, password: string, now: int): (r: Response)
    requires uid in users && PASSWORD in users[uid]
    ensures r.status == 400 <==> !crypto.compare(password, users[uid][PASSWORD])
    ensures r.status == 400 ==> r.body == Message(INVALID_PASSWORD)
    ensures r.status != 400 ==> r == Response(200, LoginBody(Public(uid, users[uid]), crypto.sign(LoginClaims(uid, now))))
  {
    if !crypto.compare(password, users[uid][PASSWORD]) then Response(400, Message(INVALID_PASSWORD))
    else Response(200, LoginBody(Public(uid, users[uid]), crypto.sign(LoginClaims(uid, now))))
  }

  /** The answers login may give: 404 when no account has the email, and
      otherwise the answer for one account that has it. */
  ghost predicate LoginOutcome(users: map<Id, Fields>, crypto: Primitives, email: string, password: string,
                               now: int, resp: Response)
    requires AccountsWellFormed(users)
  {
    if Known(users, email) then
      exists uid :: uid in users && HasEmail(users[uid], email) && resp == Answer(users, uid, crypto, password, now)
    else
      resp == Response(404, Message(USER_NOT_FOUND))
  }

  /** `router.post('/login')` of routes/auth.js. */
  method Login(db: Db, crypto: Primitives, email: string, password: string, now: int) returns (resp: Response)
    requires db.Valid()
    ensures LoginOutcome(db.users, crypto, email, password, now, resp)
    ensures resp.status == 404 <==> !Known(db.users, email)
    ensures resp.status in {200, 400, 404}
    ensures resp.body.LoginBody? <==> resp.status == 200
    ensures Safe(resp.body)
  {
    if !Known(db.users, email) {
      return Response(404, Message(USER_NOT_FOUND));
    }
    var uid :| uid in db.users && HasEmail(db.users[uid], email);
    resp := Answer(db.users, uid, crypto, password, now);
  }

  /** When no two accounts share the email, login's answer is determined. */
  lemma {:induction false} LoginDetermined(users: map<Id, Fields>, crypto: Primitives, email: string,
                                           password: string, now: int, uid: Id, resp: Response)
    requires AccountsWellFormed(users)
    requires uid in users && HasEmail(users[uid], email)
    requires forall other :: other in users && HasEmail(users[other], email) ==> other == uid
    requires LoginOutcome(users, crypto, email, password, now, resp)
    ensures resp == Answer(users, uid, crypto, password, now)
  {
    var found :| found in users && HasEmail(users[found], email) && resp == Answer(users, found, crypto, password, now);
    assert found == uid;
  }

  /** Register, then log in with the same email and password: given only
      that a password matches its own hash, the login succeeds and its token
      is issued for the new account, for 24 hours from `now`. */
  lemma RegisterThenLogin(users: map<Id, Fields>, crypto: Primitives, username: string, email: string,
                          password: string, salt: string, id: Id, now: int, resp: Response)
    requires HashSound(crypto)
    requires AccountsWellFormed(users) && id !in users && !Taken(users, email, username)
    requires LoginOutcome(users[id := Account(username, email, crypto.hash(password, salt))], crypto, email, password, now, resp)
    ensures var doc := Account(username, email, crypto.hash(password, salt));
      resp == Response(200, LoginBody(Public(id, doc), crypto.sign(LoginClaims(id, now))))
  {
    var after := users[id := Account(username, email, crypto.hash(password, salt))];
    LoginDetermined(after, crypto, email, password, now, id, resp);
  }

  /** The token of a successful login, sent back as `Bearer <token>`, passes
      the guard with the account's id until 24 hours after the login, and is
      refused with 400 from then on. */
  lemma LoginTokenAdmitted(crypto: Primitives, uid: Id, loggedInAt: int, now: int)
    requires TokensSound(crypto)
    ensures var header := Some(Guard.BEARER + crypto.sign(LoginClaims(uid, loggedInAt)));
      now < loggedInAt + TOKEN_LIFETIME ==>
        Guard.VerifyToken(crypto, header, now) == Guard.Admit(LoginClaims(uid, loggedInAt))
    ensures var header := Some(Guard.BEARER + crypto.sign(LoginClaims(uid, loggedInAt)));
      now >= loggedInAt + TOKEN_LIFETIME ==>
        Guard.VerifyToken(crypto, header, now) == Guard.Refuse(Response(400, Message(INVALID_TOKEN)))
  {
    Guard.SignedTokenAdmitted(crypto, LoginClaims(uid, loggedInAt), now);
  }
}
