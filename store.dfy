/**
 * The document store the routes talk to: one collection of accounts and one
 * of posts, each a map from document id to document. Each database call of a
 * handler is one atomic step on this state; a request is a sequence of them.
 */
module Store {
  import opened Wrappers
  import opened Documents

  class Db {
    var users: map<Id, Fields>
    var posts: map<Id, Post>

    /** What every handler keeps true of the store. */
    ghost predicate Valid()
      reads this
    {
      AccountsWellFormed(users) && LikesDistinct(posts)
    }

    constructor ()
      ensures Valid()
      ensures users == map[] && posts == map[]
    {
      users := map[];
      posts := map[];
    }
  }

  /** Registration writes these three fields, and `$set` never removes one. */
  ghost predicate AccountsWellFormed(users: map<Id, Fields>)
  {
    forall id :: id in users ==> USERNAME in users[id] && EMAIL in users[id] && PASSWORD in users[id]
  }

  predicate NoDuplicates<T(==)>(s: seq<T>)
  {
    forall i, j :: 0 <= i < j < |s| ==> s[i] != s[j]
  }

  /** No post lists the same account twice among its likes. */
  ghost predicate LikesDistinct(posts: map<Id, Post>)
  {
    forall id :: id in posts ==> NoDuplicates(posts[id].likes)
  }

  /** A post with its id, as a query returns it. */
  type Entry = (Id, Post)

  /** The filter of `Post.find()`: none, or `{ author: a }`. */
  predicate ByAuthor(p: Post, author: Option<Id>)
  {
    author.None? || p.author == author.value
  }

  /** The order of `.sort({ createdAt: -1 })`. */
  ghost predicate NewestFirst(r: seq<Entry>)
  {
    forall i, j :: 0 <= i < j < |r| ==> r[i].1.createdAt >= r[j].1.createdAt
  }

  ghost predicate DistinctIds(r: seq<Entry>)
  {
    forall i, j :: 0 <= i < j < |r| ==> r[i].0 != r[j].0
  }

  /** `r` lists every stored post the filter selects, each once, newest first. */
  ghost predicate Listing(r: seq<Entry>, posts: map<Id, Post>, author: Option<Id>)
  {
    && NewestFirst(r)
    && DistinctIds(r)
    && forall e :: e in r <==> e.0 in posts && posts[e.0] == e.1 && ByAuthor(e.1, author)
  }

  /** Puts `e` in front of the first entry that is not newer than it. */
  function InsertByDate(r: seq<Entry>, e: Entry): (s: seq<Entry>)
    ensures |s| == |r| + 1
    ensures forall x :: x in s <==> x in r || x == e
    ensures multiset(s) == multiset(r) + multiset{e}
  {
    if r == [] || r[0].1.createdAt <= e.1.createdAt then [e] + r
    else
      assert r == [r[0]] + r[1..];
      [r[0]] + InsertByDate(r[1..], e)
  }

  lemma {:induction false} InsertKeepsOrder(r: seq<Entry>, e: Entry)
    requires NewestFirst(r)
    ensures NewestFirst(InsertByDate(r, e))
  {
    if r == [] || r[0].1.createdAt <= e.1.createdAt {
    } else {
      var tail := InsertByDate(r[1..], e);
      InsertKeepsOrder(r[1..], e);
      forall x | x in tail
        ensures r[0].1.createdAt >= x.1.createdAt
      {
        if x != e {
          var k :| 0 <= k < |r[1..]| && r[1..][k] == x;
          assert r[k + 1] == x;
        }
      }
    }
  }

  lemma {:induction false} InsertKeepsIdsDistinct(r: seq<Entry>, e: Entry)
    requires DistinctIds(r)
    requires forall x :: x in r ==> x.0 != e.0
    ensures DistinctIds(InsertByDate(r, e))
  {
    if r == [] || r[0].1.createdAt <= e.1.createdAt {
      assert forall i :: 0 <= i < |r| ==> r[i] in r;
    } else {
      var tail := InsertByDate(r[1..], e);
      InsertKeepsIdsDistinct(r[1..], e);
      forall x | x in tail
        ensures x.0 != r[0].0
      {
        if x != e {
          var k :| 0 <= k < |r[1..]| && r[1..][k] == x;
          assert r[k + 1] == x;
        } else {
          assert r[0] in r;
        }
      }
    }
  }

  /** `Post.find(filter).sort({ createdAt: -1 })`: the store answers with
      the selected posts, newest first. Posts created at the same time come
      in no particular order. */
  method FindPosts(posts: map<Id, Post>, author: Option<Id>) returns (r: seq<Entry>)
    ensures Listing(r, posts, author)
  {
    r := [];
    var rest := posts.Keys;
    while rest != {}
      invariant rest <= posts.Keys
      invariant NewestFirst(r) && DistinctIds(r)
      invariant forall e :: e in r <==> e.0 in posts && e.0 !in rest && posts[e.0] == e.1 && ByAuthor(e.1, author)
      decreases |rest|
    {
      var k :| k in rest;
      if ByAuthor(posts[k], author) {
        InsertKeepsOrder(r, (k, posts[k]));
        InsertKeepsIdsDistinct(r, (k, posts[k]));
        r := InsertByDate(r, (k, posts[k]));
      }
      rest := rest - {k};
    }
  }

  /** The posts of a listing, each with its author and commenters populated. */
  function PopulatedViews(users: map<Id, Fields>, r: seq<Entry>): (vs: seq<PostView>)
    ensures |vs| == |r|
    ensures forall i :: 0 <= i < |r| ==> vs[i] == View(users, r[i].0, r[i].1, true, true)
    ensures forall v :: v in vs ==> SafeView(v)
  {
    seq(|r|, i requires 0 <= i < |r| => View(users, r[i].0, r[i].1, true, true))
  }
}
