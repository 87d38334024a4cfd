/**
 * One session of the service, checked by the verifier step by step:
 * bob and alice register and a second "alice" is refused, alice's login
 * token passes the guard, she posts (naming bob as author, in vain), likes
 * and unlikes the post and comments on it, and bob then fails to delete it.
 */
module Scenario {
  import opened Wrappers
  import opened Crypto
  import opened Documents
  import opened Store
  import Guard
  import Auth
  import Posts

  method Walkthrough(crypto: Primitives, salt1: string, salt2: string, now: int)
    requires HashSound(crypto) && TokensSound(crypto)
  {
    var db := new Db();
    var r := Auth.Register(db, crypto, "bob", "b@x.com", "secret2", salt2, "u2");
    assert r.status == 201;
    var before := db.users;
    assert before == map["u2" := Auth.Account("bob", "b@x.com", crypto.hash("secret2", salt2))];
    r := Auth.Register(db, crypto, "alice", "a@x.com", "secret1", salt1, "u1");
    assert r.status == 201;
    assert Auth.HasUsername(db.users["u1"], "alice");
    r := Auth.Register(db, crypto, "alice", "c@x.com", "secret3", salt2, "u3");
    assert r == Response(400, Message(USER_EXISTS));

    r := Auth.Login(db, crypto, "a@x.com", "secret1", now);
    Auth.RegisterThenLogin(before, crypto, "alice", "a@x.com", "secret1", salt1, "u1", now, r);
    assert r.status == 200;
    Auth.LoginTokenAdmitted(crypto, "u1", now, now + 60);
    var verdict := Guard.VerifyToken(crypto, Some(Guard.BEARER + r.body.token), now + 60);
    assert verdict == Guard.Admit(LoginClaims("u1", now));
    var alice := verdict.claims.id;

    r := Posts.CreatePost(db, alice, map["text" := "hello", AUTHOR := "u2"], "p1", now + 61);
    assert db.posts["p1"].author == "u1" && db.posts["p1"].likes == [] && db.posts["p1"].comments == [];
    r := Posts.ToggleLike(db, alice, "p1");
    assert Posts.IndexOf([], "u1") == -1;
    assert db.posts["p1"].likes == ["u1"];
    r := Posts.ToggleLike(db, alice, "p1");
    assert Posts.IndexOf(["u1"], "u1") == 0;
    assert db.posts["p1"].likes == [];
    r := Posts.AddComment(db, alice, "p1", "nice");
    assert db.posts["p1"].comments == [Comment("u1", "nice")];

    r := Posts.DeletePost(db, "u2", "p1");
    assert r == Response(403, Message(NOT_YOUR_POST_DELETE));
    assert "p1" in db.posts;
  }
}
