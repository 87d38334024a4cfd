/**
 * The post routes. Every handler but the two reads runs behind the token
 * guard and receives the verified account id as `caller`. Add-comment and
 * like read the post document, edit their local copy and save it back;
 * update applies `$set` to the stored post in one call; delete removes it.
 */
module Posts {
  import opened Wrappers
  import opened Documents
  import opened Store

  /** `new Post({ ...req.body, author: req.user.id })`: `author` is written
      after the spread, so whatever the body says about it is overridden. */
  function NewPost(caller: Id, body: Fields, now: int): (p: Post)
    ensures p.author == caller
    ensures p.content.Keys == body.Keys - {AUTHOR}
    ensures forall k :: k in p.content ==> p.content[k] == body[k]
    ensures p.comments == [] && p.likes == [] && p.createdAt == now
  {
    Post(caller, body - {AUTHOR}, [], [], now)
  }

  /** `{ $set: req.body }`: every field the body names overwrites the stored
      one, `author` included; nothing else changes. */
  function Patched(p: Post, patch: Fields): (q: Post)
    ensures q.author == if AUTHOR in patch then patch[AUTHOR] else p.author
    ensures q.content.Keys == p.content.Keys + (patch.Keys - {AUTHOR})
    ensures forall k :: k in q.content ==> q.content[k] == if k in patch && k != AUTHOR then patch[k] else p.content[k]
    ensures q.comments == p.comments && q.likes == p.likes && q.createdAt == p.createdAt
  {
    Post(if AUTHOR in patch then patch[AUTHOR] else p.author,
         p.content + (patch - {AUTHOR}), p.comments, p.likes, p.createdAt)
  }

  /** Two updates in a row amount to one with the merged patch, the later
      patch winning where both name a field. */
  lemma PatchesCompose(p: Post, first: Fields, second: Fields)
    ensures Patched(Patched(p, first), second) == Patched(p, first + second)
  {
    var a, b := first - {AUTHOR}, second - {AUTHOR};
    assert (p.content + a) + b == p.content + (a + b);
    assert (first + second) - {AUTHOR} == a + b;
  }

  /** Repeating an update changes nothing more. */
  lemma PatchIdempotent(p: Post, patch: Fields)
    ensures Patched(Patched(p, patch), patch) == Patched(p, patch)
  {
    PatchesCompose(p, patch, patch);
    assert patch + patch == patch;
  }

  /** `post.comments.push(c)`. */
  function Commented(p: Post, c: Comment): (q: Post)
    ensures |q.comments| == |p.comments| + 1
    ensures q.comments[..|p.comments|] == p.comments && q.comments[|p.comments|] == c
    ensures q.author == p.author && q.content == p.content && q.likes == p.likes && q.createdAt == p.createdAt
  {
    p.(comments := p.comments + [c])
  }

  /** `Array.prototype.indexOf`: the first position of `x`, or -1. */
  function IndexOf<T(==)>(s: seq<T>, x: T): (i: int)
    ensures -1 <= i < |s|
    ensures i == -1 <==> x !in s
    ensures 0 <= i ==> s[i] == x && x !in s[..i]
  {
    if s == [] then -1
    else if s[0] == x then 0
    else
      var k := IndexOf(s[1..], x);
      assert s[1..][..if k == -1 then 0 else k] == s[1..if k == -1 then 1 else k + 1];
      if k == -1 then -1 else k + 1
  }

  /** The like toggle: `push` the caller when `indexOf` finds nothing, else
      `splice` out the occurrence it found. */
  function Toggled(likes: seq<Id>, x: Id): (r: seq<Id>)
    ensures x !in likes ==> r == likes + [x]
    ensures x in likes ==> multiset(r) == multiset(likes) - multiset{x}
  {
    var i := IndexOf(likes, x);
    if i == -1 then likes + [x]
    else
      assert likes == likes[..i] + [x] + likes[i + 1..];
      likes[..i] + likes[i + 1..]
  }

  /** An unlike removes exactly the caller's first entry and keeps the
      order of the others. */
  lemma ToggleRemovesFirst(likes: seq<Id>, x: Id, i: nat)
    requires i < |likes| && likes[i] == x && x !in likes[..i]
    ensures Toggled(likes, x) == likes[..i] + likes[i + 1..]
  {
  }

  /** A toggle flips the caller's membership, leaves every other account's
      alone and keeps the likes free of duplicates. */
  lemma ToggleFlips(likes: seq<Id>, x: Id)
    requires NoDuplicates(likes)
    ensures x in Toggled(likes, x) <==> x !in likes
    ensures forall y :: y != x ==> (y in Toggled(likes, x) <==> y in likes)
    ensures NoDuplicates(Toggled(likes, x))
  {
    var i := IndexOf(likes, x);
    if i != -1 {
      var r := likes[..i] + likes[i + 1..];
      assert likes == likes[..i] + [x] + likes[i + 1..];
      assert forall j :: 0 <= j < |r| ==> r[j] == likes[if j < i then j else j + 1];
    }
  }

  /** Toggling twice: an account that had not liked the post leaves it
      exactly as it was, and one that had ends with the same likes in
      another order. */
  lemma ToggleTwice(likes: seq<Id>, x: Id)
    requires NoDuplicates(likes)
    ensures x !in likes ==> Toggled(Toggled(likes, x), x) == likes
    ensures multiset(Toggled(Toggled(likes, x), x)) == multiset(likes)
  {
    var once := Toggled(likes, x);
    if x !in likes {
      assert once[..|likes|] == likes && once[|likes|] == x;
      ToggleRemovesFirst(once, x, |likes|);
      assert once[|likes| + 1..] == [];
    } else {
      ToggleFlips(likes, x);
      assert x in multiset(likes);
      assert multiset(once + [x]) == multiset(once) + multiset{x};
    }
  }

  /** Without the no-duplicates invariant the toggle would not be a toggle:
      an account listed twice still likes the post after "unliking" it. */
  lemma ToggleNeedsDistinctLikes(x: Id)
    ensures x in Toggled([x, x], x)
  {
    assert IndexOf([x, x], x) == 0;
    assert Toggled([x, x], x) == [x];
  }

  /** `router.get('/:id')` of routes/posts.js. */
  function GetPost(users: map<Id, Fields>, posts: map<Id, Post>, id: Id): (r: Response)
    ensures r.status == 404 <==> id !in posts
    ensures id !in posts ==> r == Response(404, Message(POST_NOT_FOUND))
    ensures id in posts ==> r == Response(200, PostBody(View(users, id, posts[id], true, true)))
    ensures Safe(r.body)
  {
    if id !in posts then Response(404, Message(POST_NOT_FOUND))
    else Response(200, PostBody(View(users, id, posts[id], true, true)))
  }

  /** After the author deletes post `id`, fetching it answers 404, and
      every other post is fetched as before. */
  lemma DeleteThenGet(users: map<Id, Fields>, posts: map<Id, Post>, id: Id)
    ensures GetPost(users, posts - {id}, id) == Response(404, Message(POST_NOT_FOUND))
    ensures forall j :: j != id ==> GetPost(users, posts - {id}, j) == GetPost(users, posts, j)
  {
  }

  /** After a post is created under `id`, fetching it shows the caller as
      its author. */
  lemma CreateThenGet(users: map<Id, Fields>, posts: map<Id, Post>, caller: Id, body: Fields, id: Id, now: int)
    ensures var r := GetPost(users, posts[id := NewPost(caller, body, now)], id);
      r.status == 200 && r.body.post.author == Populated(CardOf(users, caller))
  {
  }

  /** With `$set` left unguarded, the author can hand a post to someone
      else, who may then update it while the author no longer can. */
  lemma UpdateCanReassignAuthor(p: Post, other: Id)
    ensures Patched(p, map[AUTHOR := other]).author == other
  {
  }

  /** `router.post('/')` of routes/posts.js. */
  method CreatePost(db: Db, caller: Id, body: Fields, id: Id, now: int) returns (resp: Response)
    requires db.Valid() && id !in db.posts
    modifies db
    ensures db.Valid()
    ensures db.users == old(db.users)
    ensures db.posts == old(db.posts)[id := NewPost(caller, body, now)]
    ensures resp == Response(201, PostBody(View(db.users, id, NewPost(caller, body, now), true, false)))
    ensures Safe(resp.body)
  {
    var post := NewPost(caller, body, now);
    db.posts := db.posts[id := post];
    resp := Response(201, PostBody(View(db.users, id, post, true, false)));
  }

  /** `router.get('/')` of routes/posts.js: every post, newest first. */
  method ListPosts(db: Db) returns (resp: Response)
    ensures exists r :: Listing(r, db.posts, None) && resp == Response(200, PostsBody(PopulatedViews(db.users, r)))
    ensures Safe(resp.body)
  {
    var r := FindPosts(db.posts, None);
    resp := Response(200, PostsBody(PopulatedViews(db.users, r)));
  }

  /** `router.put('/:id')` of routes/posts.js: 404, then 403 for anyone but the author, then `$set`. */
  method UpdatePost(db: Db, caller: Id, id: Id, patch: Fields) returns (resp: Response)
    requires db.Valid()
    modifies db
    ensures db.Valid()
    ensures db.users == old(db.users)
    ensures id !in old(db.posts) ==>
      resp == Response(404, Message(POST_NOT_FOUND)) && db.posts == old(db.posts)
    ensures id in old(db.posts) && old(db.posts)[id].author != caller ==>
      resp == Response(403, Message(NOT_YOUR_POST_UPDATE)) && db.posts == old(db.posts)
    ensures id in old(db.posts) && old(db.posts)[id].author == caller ==>
      && db.posts == old(db.posts)[id := Patched(old(db.posts)[id], patch)]
      && resp == Response(200, PostBody(View(db.users, id, db.posts[id], true, false)))
    ensures Safe(resp.body)
  {
    if id !in db.posts {
      return Response(404, Message(POST_NOT_FOUND));
    }
    var post := db.posts[id];
    if post.author != caller {
      return Response(403, Message(NOT_YOUR_POST_UPDATE));
    }
    var updated := Patched(post, patch);
    db.posts := db.posts[id := updated];
    resp := Response(200, PostBody(View(db.users, id, updated, true, false)));
  }

  /** `router.delete('/:id')` of routes/posts.js: 404, then 403 for anyone
      but the author, then the post goes, with its comments and likes. */
  method DeletePost(db: Db, caller: Id, id: Id) returns (resp: Response)
    requires db.Valid()
    modifies db
    ensures db.Valid()
    ensures db.users == old(db.users)
    ensures id !in old(db.posts) ==>
      resp == Response(404, Message(POST_NOT_FOUND)) && db.posts == old(db.posts)
    ensures id in old(db.posts) && old(db.posts)[id].author != caller ==>
      resp == Response(403, Message(NOT_YOUR_POST_DELETE)) && db.posts == old(db.posts)
    ensures id in old(db.posts) && old(db.posts)[id].author == caller ==>
      resp == Response(200, Message(POST_DELETED)) && db.posts == old(db.posts) - {id}
    ensures Safe(resp.body)
  {
    if id !in db.posts {
      return Response(404, Message(POST_NOT_FOUND));
    }
    var post := db.posts[id];
    if post.author != caller {
      return Response(403, Message(NOT_YOUR_POST_DELETE));
    }
    db.posts := db.posts - {id};
    resp := Response(200, Message(POST_DELETED));
  }

  /** `router.post('/:id/comments')` of routes/posts.js: any signed-in
      account may comment; the text is stored as sent. */
  method AddComment(db: Db, caller: Id, id: Id, text: string) returns (resp: Response)
    requires db.Valid()
    modifies db
    ensures db.Valid()
    ensures db.users == old(db.users)
    ensures id !in old(db.posts) ==>
      resp == Response(404, Message(POST_NOT_FOUND)) && db.posts == old(db.posts)
    ensures id in old(db.posts) ==>
      && db.posts == old(db.posts)[id := Commented(old(db.posts)[id], Comment(caller, text))]
      && resp == Response(200, PostBody(View(db.users, id, db.posts[id], false, true)))
    ensures Safe(resp.body)
  {
    if id !in db.posts {
      return Response(404, Message(POST_NOT_FOUND));
    }
    var post := db.posts[id];
    post := post.(comments := post.comments + [Comment(caller, text)]);
    db.posts := db.posts[id := post];
    resp := Response(200, PostBody(View(db.users, id, post, false, true)));
  }

  /** `router.put('/:id/like')` of routes/posts.js: any signed-in account toggles its own like. */
  method ToggleLike(db: Db, caller: Id, id: Id) returns (resp: Response)
    requires db.Valid()
    modifies db
    ensures db.Valid()
    ensures db.users == old(db.users)
    ensures id !in old(db.posts) ==>
      resp == Response(404, Message(POST_NOT_FOUND)) && db.posts == old(db.posts)
    ensures id in old(db.posts) ==>
      && db.posts == old(db.posts)[id := old(db.posts)[id].(likes := Toggled(old(db.posts)[id].likes, caller))]
      && resp == Response(200, PostBody(View(db.users, id, db.posts[id], false, false)))
    ensures Safe(resp.body)
  {
    if id !in db.posts {
      return Response(404, Message(POST_NOT_FOUND));
    }
    var post := db.posts[id];
    var likeIndex := IndexOf(post.likes, caller);
    if likeIndex == -1 {
      post := post.(likes := post.likes + [caller]);
    } else {
      post := post.(likes := post.likes[..likeIndex] + post.likes[likeIndex + 1..]);
    }
    ToggleFlips(db.posts[id].likes, caller);
    db.posts := db.posts[id := post];
    resp := Response(200, PostBody(View(db.users, id, post, false, false)));
  }
}
