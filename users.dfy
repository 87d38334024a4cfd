/**
 * The user routes: the caller's own profile and posts (behind the token
 * guard, `caller` being the verified id) and anyone's public profile.
 */
module Users {
  import opened Wrappers
  import opened Crypto
  import opened Documents
  import opened Store
  import Auth

  /** `router.get('/profile')` of routes/users.js. */
  function GetProfile(users: map<Id, Fields>, caller: Id): (r: Response)
    ensures r.status == 404 <==> caller !in users
    ensures caller !in users ==> r == Response(404, Message(USER_NOT_FOUND))
    ensures caller in users ==> r == Response(200, UserBody(Some(Public(caller, users[caller]))))
    ensures Safe(r.body)
  {
    if caller !in users then Response(404, Message(USER_NOT_FOUND))
    else Response(200, UserBody(Some(Public(caller, users[caller]))))
  }

  /** The truthiness test `if (password)` applies to a body field: present
      and not the empty string. */
  predicate Truthy(body: Fields, k: string)
  {
    k in body && body[k] != ""
  }

  /** `const { password, ...updateData } = req.body`, then the password put
      back hashed only when it was truthy. */
  function ProfileUpdate(crypto: Primitives, patch: Fields, salt: string): (u: Fields)
    ensures PASSWORD in u <==> Truthy(patch, PASSWORD)
    ensures PASSWORD in u ==> u[PASSWORD] == crypto.hash(patch[PASSWORD], salt)
    ensures forall k :: k != PASSWORD ==> (k in u <==> k in patch)
    ensures forall k :: k in u && k != PASSWORD ==> u[k] == patch[k]
  {
    var updateData := patch - {PASSWORD};
    if Truthy(patch, PASSWORD) then updateData[PASSWORD := crypto.hash(patch[PASSWORD], salt)]
    else updateData
  }

  /** The caller's record after `$set: updateData`, field by field: a truthy
      password is stored hashed, a falsy or absent one leaves the stored
      password as it was; every other field the patch names takes the
      patch's value, and every field it does not name is unchanged. */
  lemma MergedProfile(doc: Fields, crypto: Primitives, patch: Fields, salt: string)
    ensures var merged := doc + ProfileUpdate(crypto, patch, salt);
      && (Truthy(patch, PASSWORD) ==> PASSWORD in merged && merged[PASSWORD] == crypto.hash(patch[PASSWORD], salt))
      && (!Truthy(patch, PASSWORD) ==> (PASSWORD in merged <==> PASSWORD in doc))
      && (!Truthy(patch, PASSWORD) && PASSWORD in doc ==> merged[PASSWORD] == doc[PASSWORD])
      && (forall k :: k != PASSWORD && k in patch ==> k in merged && merged[k] == patch[k])
      && (forall k :: k != PASSWORD && k !in patch ==> (k in merged <==> k in doc))
      && (forall k :: k != PASSWORD && k !in patch && k in doc ==> merged[k] == doc[k])
  {
  }

  /** `router.put('/profile')` of routes/users.js: only the caller's own
      record is written. When no record has the caller's id, nothing is
      written and the answer is 200 with `null`. */
  method UpdateProfile(db: Db, crypto: Primitives, caller: Id, patch: Fields, salt: string) returns (resp: Response)
    requires db.Valid()
    modifies db
    ensures db.Valid()
    ensures db.posts == old(db.posts)
    ensures caller !in old(db.users) ==> db.users == old(db.users) && resp == Response(200, UserBody(None))
    ensures caller in old(db.users) ==>
      && db.users == old(db.users)[caller := old(db.users)[caller] + ProfileUpdate(crypto, patch, salt)]
      && resp == Response(200, UserBody(Some(Public(caller, db.users[caller]))))
    ensures Safe(resp.body)
  {
    var updateData := patch - {PASSWORD};
    if Truthy(patch, PASSWORD) {
      updateData := updateData[PASSWORD := crypto.hash(patch[PASSWORD], salt)];
    }
    if caller !in db.users {
      return Response(200, UserBody(None));
    }
    var updatedUser := db.users[caller] + updateData;
    db.users := db.users[caller := updatedUser];
    resp := Response(200, UserBody(Some(Public(caller, updatedUser))));
  }

  /** The profile update checks no uniqueness: a patch can give the caller
      another account's email. */
  lemma UpdateCanDuplicateEmail(crypto: Primitives, salt: string)
    ensures var users := map["a" := Auth.Account("ann", "a@x.com", "h1"), "b" := Auth.Account("bob", "b@x.com", "h2")];
      && Auth.AccountsUnique(users)
      && !Auth.AccountsUnique(users["b" := users["b"] + ProfileUpdate(crypto, map[EMAIL := "a@x.com"], salt)])
  {
    var users := map["a" := Auth.Account("ann", "a@x.com", "h1"), "b" := Auth.Account("bob", "b@x.com", "h2")];
    var after := users["b" := users["b"] + ProfileUpdate(crypto, map[EMAIL := "a@x.com"], salt)];
    assert HasEmailOf(after, "a", "b");
  }

  ghost predicate HasEmailOf(users: map<Id, Fields>, a: Id, b: Id)
    requires a in users && b in users
  {
    EMAIL in users[a] && Auth.HasEmail(users[b], users[a][EMAIL])
  }

  /** `router.get('/posts')` of routes/users.js: the caller's posts, newest first. */
  method OwnPosts(db: Db, caller: Id) returns (resp: Response)
    ensures exists r :: Listing(r, db.posts, Some(caller)) && resp == Response(200, PostsBody(PopulatedViews(db.users, r)))
    ensures Safe(resp.body)
  {
    var posts := FindPosts(db.posts, Some(caller));
    resp := Response(200, PostsBody(PopulatedViews(db.users, posts)));
  }

  /** `router.get('/:id')` of routes/users.js: the account without its
      password, and its posts, newest first. */
  method PublicProfile(db: Db, id: Id) returns (resp: Response)
    ensures id !in db.users ==> resp == Response(404, Message(USER_NOT_FOUND))
    ensures id in db.users ==> exists r ::
      Listing(r, db.posts, Some(id)) && resp == Response(200, ProfileBody(Public(id, db.users[id]), PopulatedViews(db.users, r)))
    ensures Safe(resp.body)
  {
    if id !in db.users {
      return Response(404, Message(USER_NOT_FOUND));
    }
    var user := Public(id, db.users[id]);
    var posts := FindPosts(db.posts, Some(id));
    resp := Response(200, ProfileBody(user, PopulatedViews(db.users, posts)));
  }
}
