/**
 * The documents the store keeps and the JSON the handlers send back.
 *
 * An account is a flat document of string fields (`username`, `email`,
 * `password`, `profilePicture`, ...), because the profile update merges
 * whatever fields the request names. A post keeps its author, its embedded
 * comments and likes and its creation time as typed parts, and every other
 * field of the request body in `content`.
 */
module Documents {
  import opened Wrappers

  /** Document ids and the ids tokens carry, compared as strings. */
  type Id = string

  /** The string fields of a document or of a JSON request body. */
  type Fields = map<string, string>

  const AUTHOR: string := "author"
  const USERNAME: string := "username"
  const EMAIL: string := "email"
  const PASSWORD: string := "password"
  const PROFILE_PICTURE: string := "profilePicture"

  datatype Comment = Comment(user: Id, text: string)

  datatype Post = Post(
    author: Id,
    content: Fields,
    comments: seq<Comment>,
    likes: seq<Id>,
    createdAt: int)

  /** What `populate(path, 'username profilePicture')` puts in place of an id. */
  datatype Card = Card(id: Id, fields: Fields)

  /** A reference in a response: left as the bare id, or populated, which
      gives `null` when no account has that id. */
  datatype Ref = Bare(id: Id) | Populated(card: Option<Card>)

  datatype CommentView = CommentView(user: Ref, text: string)

  datatype PostView = PostView(
    id: Id,
    author: Ref,
    content: Fields,
    comments: seq<CommentView>,
    likes: seq<Id>,
    createdAt: int)

  /** An account as responses show it: `_doc` without its password. */
  datatype PublicUser = PublicUser(id: Id, fields: Fields)

  datatype Body =
    | Message(text: string)
    | PostBody(post: PostView)
    | PostsBody(posts: seq<PostView>)
    | UserBody(user: Option<PublicUser>)
    | LoginBody(account: PublicUser, token: string)
    | ProfileBody(account: PublicUser, posts: seq<PostView>)

  datatype Response = Response(status: int, body: Body)

  const ACCESS_DENIED: string := "Access denied"
  const INVALID_TOKEN: string := "Invalid token"
  const POST_NOT_FOUND: string := "Post not found"
  const NOT_YOUR_POST_UPDATE: string := "You can only update your own posts"
  const NOT_YOUR_POST_DELETE: string := "You can only delete your own posts"
  const POST_DELETED: string := "Post deleted successfully"
  const USER_EXISTS: string := "User already exists"
  const USER_NOT_FOUND: string := "User not found"
  const INVALID_PASSWORD: string := "Invalid password"

  /** The account with id `id` minus its password, as `select('-password')`
      and the `{ password: _, ...rest }` destructuring both give it. */
  function Public(id: Id, doc: Fields): (u: PublicUser)
    ensures u.id == id
    ensures u.fields.Keys == doc.Keys - {PASSWORD}
    ensures forall k :: k in u.fields ==> u.fields[k] == doc[k]
  {
    PublicUser(id, doc - {PASSWORD})
  }

  /** The account fields a populated reference shows. */
  predicate Shown(k: string)
  {
    k == USERNAME || k == PROFILE_PICTURE
  }

  /** Populating a reference to `id` against the accounts `users`. */
  function CardOf(users: map<Id, Fields>, id: Id): (r: Option<Card>)
    ensures r.None? <==> id !in users
    ensures r.Some? ==> r.value.id == id
    ensures r.Some? ==> forall k :: k in r.value.fields <==> k in users[id] && Shown(k)
    ensures r.Some? ==> forall k :: k in r.value.fields ==> r.value.fields[k] == users[id][k]
  {
    if id in users then Some(Card(id, map k | k in users[id] && Shown(k) :: users[id][k]))
    else None
  }

  function Reference(users: map<Id, Fields>, id: Id, populate: bool): (r: Ref)
    ensures r.Bare? <==> !populate
    ensures r.Bare? ==> r.id == id
    ensures r.Populated? ==> r.card == CardOf(users, id)
    ensures SafeRef(r)
  {
    if populate then Populated(CardOf(users, id)) else Bare(id)
  }

  /** A reference that shows no password. */
  predicate SafeRef(r: Ref)
  {
    r.Bare? || r.card.None? || PASSWORD !in r.card.value.fields
  }

  predicate SafeView(v: PostView)
  {
    SafeRef(v.author) && forall c :: c in v.comments ==> SafeRef(c.user)
  }

  /** A response body that discloses no stored password. */
  predicate Safe(b: Body)
  {
    match b
    case Message(_) => true
    case PostBody(v) => SafeView(v)
    case PostsBody(vs) => forall v :: v in vs ==> SafeView(v)
    case UserBody(u) => u.None? || PASSWORD !in u.value.fields
    case LoginBody(u, _) => PASSWORD !in u.fields
    case ProfileBody(u, vs) => PASSWORD !in u.fields && forall v :: v in vs ==> SafeView(v)
  }

  /** Post `p`, stored under `id`, as a handler returns it after populating
      its author (`withAuthor`) and its commenters (`withCommenters`). */
  function View(users: map<Id, Fields>, id: Id, p: Post, withAuthor: bool, withCommenters: bool): (v: PostView)
    ensures v.id == id && v.content == p.content && v.likes == p.likes && v.createdAt == p.createdAt
    ensures v.author == Reference(users, p.author, withAuthor)
    ensures |v.comments| == |p.comments|
    ensures forall i :: 0 <= i < |v.comments| ==>
      v.comments[i] == CommentView(Reference(users, p.comments[i].user, withCommenters), p.comments[i].text)
    ensures SafeView(v)
  {
    var comments := seq(|p.comments|, i requires 0 <= i < |p.comments| =>
      CommentView(Reference(users, p.comments[i].user, withCommenters), p.comments[i].text));
    PostView(id, Reference(users, p.author, withAuthor), p.content, comments, p.likes, p.createdAt)
  }
}
