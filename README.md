# Social-feed backend: accounts, tokens and the post aggregate

A Dafny model of the request handlers of a small Express/Mongoose social-feed
service: registration and login (`routes/auth.js`), the caller's profile and
posts and anyone's public profile (`routes/users.js`), and the posts with their
embedded comments and likes (`routes/posts.js`), together with the bearer-token
guard both guarded route files use. Handlers are named by their file and the
route relative to its router, such as `router.put('/:id/like')` of
`routes/posts.js`. The entry points `server.js` and `api/index.js` mount only
`./routes/authRoutes`, at `/api/auth`, so where these three routers are
mounted is not fixed here.

The service is modelled as a sequential state machine. The document store is a
class `Store.Db` with two fields: accounts (`map<Id, Fields>`) and posts
(`map<Id, Post>`). Each database call of a handler is one atomic step.
Add-comment and like read the post, edit their copy and save it back.
Update-post and update-profile apply a `$set` to the stored document in one
`findByIdAndUpdate` call. Register inserts a new account and delete removes a
post. Every handler that writes is a method with `modifies db`. Its contract
states the whole new store and the response, for the not-found, forbidden and
success paths alike. The read-only handlers are functions, or methods that
change nothing. Two store queries are modelled on the maps directly.
`Post.find(...).sort({ createdAt: -1 })` is `Store.FindPosts`, specified by
`Store.Listing`: every selected post, each once, newest first.
`User.findOne(...)` is the predicates `Auth.Taken` and `Auth.Known` together
with a choice among the matching accounts.

bcrypt and jsonwebtoken are the four function-valued fields of
`Crypto.Primitives` (`hash`, `compare`, `sign`, `verify`), supplied by the
caller. What the handlers rely on is stated as predicates that lemmas take as
hypotheses, never as axioms. `HashSound` says a password matches every hash of
itself. `TokensSound` says a signed token is non-empty and verifies to its
claims exactly before its expiry. The clock, the salt and the ids the store
mints are parameters.

Responses are `Documents.Response(status, body)` with the source's status
codes and messages. `Documents.Safe(body)` says a body shows no stored
password. Every handler proves it of its response.

`Scenario.Walkthrough` is one session, checked by the verifier step by step.
Bob and alice register, and a second "alice" is refused. Alice's login token
passes the guard. She creates a post whose body names bob as its author, and
the post is still hers. She likes it, unlikes it and comments on it. Bob then
fails to delete it.

## Model

| member | source | states |
|---|---|---|
| `Guard.VerifyToken` | routes/posts.js:6-17 | its ensures: 401 exactly when the header is missing or leaves an empty token, 400 exactly when a token is left and `verify` rejects it, and admission only with the claims `verify` returns; every refusal is a message (the same guard as routes/users.js:8-19) |
| `Guard.ReplaceFirst` | routes/posts.js:7 | its ensures: `replace` with a string pattern leaves the string as it is when the pattern occurs nowhere, and otherwise replaces only the first occurrence |
| `Guard.BearerToken` | routes/posts.js:7 | its ensures: a token exactly when there is a header; a header starting with `"Bearer "` gives the rest of it, and a header without `"Bearer "` anywhere is the token itself |
| `Guard.IndexFrom` | routes/posts.js:7 | the first index at or after `from` where the pattern occurs, or -1 exactly when it occurs nowhere after `from` |
| `Guard.BearerHeaderGivesToken` | routes/posts.js:7 | a header `Bearer <t>` yields the token `t` |
| `Guard.RawHeaderIsToken` | routes/users.js:9 | a header with no `"Bearer "` in it is used whole as the token |
| `Guard.EmptyBearerDenied` | routes/posts.js:7-8 | the header `"Bearer "` leaves an empty token, which is refused with 401 "Access denied" |
| `Guard.GuardOutcomes` | routes/posts.js:6-17 | the guard refuses with 401 exactly when the token is missing or empty, refuses with 400 exactly when a token is present and `verify` rejects it, and admits claims `c` exactly when `verify` returns `c` (the same guard as routes/users.js:8-19) |
| `Guard.SignedTokenAdmitted` | routes/users.js:8-19 | under jsonwebtoken's guarantees, a bearer header with a token signed for claims `c` is admitted with `c` before `c.exp` and refused with 400 from then on |
| `Crypto.LoginClaims` | routes/auth.js:55-59 | a login token's claims carry the account id, are issued at `now` and expire 24 hours (86400 s) later |
| `Documents.Public` | routes/auth.js:29 | the public account has exactly the stored fields except `password`, with their stored values |
| `Documents.CardOf` | routes/posts.js:39-40 | a populated reference is `null` exactly when no account has the id; otherwise it shows exactly the account's `username` and `profilePicture` fields that exist |
| `Documents.Reference` | routes/posts.js:27 | a reference is populated exactly when the handler asks for it, and otherwise stays the bare id |
| `Documents.View` | routes/posts.js:50-52 | a post's view keeps its id, content, likes, date and comment texts, populates author and commenters as asked, and shows no password |
| `Store.InsertByDate` | routes/posts.js:38 | inserting an entry into a listing adds exactly that entry (the multiset grows by it) |
| `Store.InsertKeepsOrder` | routes/posts.js:38 | inserting into a newest-first listing keeps it newest first |
| `Store.InsertKeepsIdsDistinct` | routes/posts.js:37-38 | inserting a post whose id is not yet listed keeps the ids distinct |
| `Store.FindPosts` | routes/posts.js:37-38 | the query returns every stored post the author filter selects, each once, paired with its id, and newest first |
| `Store.PopulatedViews` | routes/posts.js:39-40 | a listing shown with author and commenters populated, in the listing's order, with no password in it |
| `Posts.NewPost` | routes/posts.js:22-25 | a new post's author is the caller even if the body names an `author`; its content is the rest of the body; it starts with no comments and no likes, dated `now` |
| `Posts.CreateThenGet` | routes/posts.js:22-27 | fetching a just-created post answers 200 and shows the caller as its author |
| `Posts.Patched` | routes/posts.js:70-74 | `$set` overwrites every field the body names, `author` included, and leaves comments, likes, date and all other content unchanged |
| `Posts.UpdateCanReassignAuthor` | routes/posts.js:72 | an update whose body names an `author` makes that account the author |
| `Posts.PatchesCompose` | routes/posts.js:72 | two updates in a row equal one update with the merged body, the later one winning |
| `Posts.PatchIdempotent` | routes/posts.js:72 | repeating the same update changes nothing further |
| `Posts.Commented` | routes/posts.js:105-108 | adding a comment appends exactly it at the end; the earlier comments and every other field are unchanged |
| `Posts.IndexOf` | routes/posts.js:125 | `indexOf` gives -1 exactly when the id is absent, and otherwise the first position holding it |
| `Posts.Toggled` | routes/posts.js:125-130 | its ensures: an absent caller is appended at the end; a present one is removed once, so the likes lose exactly one copy of the caller as a multiset |
| `Posts.ToggleRemovesFirst` | routes/posts.js:125-129 | an unlike removes the caller's first entry and keeps the others in their order |
| `Posts.ToggleFlips` | routes/posts.js:125-130 | on likes without duplicates, a toggle adds the caller if absent and removes it if present, leaves every other account's like as it was, and keeps the likes free of duplicates |
| `Posts.ToggleTwice` | routes/posts.js:125-130 | toggling twice restores the likes as a multiset, and restores them exactly when the caller had not liked the post |
| `Posts.ToggleNeedsDistinctLikes` | routes/posts.js:125-130 | with the caller listed twice, one toggle leaves the caller still listed, so the no-duplicates invariant is what makes the toggle a toggle |
| `Posts.GetPost` | routes/posts.js:48-58 | 404 "Post not found" exactly when no post has the id; otherwise 200 with the post, author and commenters populated, and no password shown |
| `Posts.DeleteThenGet` | routes/posts.js:92 | after the post is deleted, fetching it answers 404, and fetching any other post answers as before |
| `Posts.CreatePost` | routes/posts.js:20-32 | stores the new post under the given unused id (a body `_id` is not used as the id; see "Left out"), changes nothing else, and answers 201 with it and its author populated, no password shown |
| `Posts.ListPosts` | routes/posts.js:35-45 | answers 200 with every stored post, each once, newest first, author and commenters populated, no password shown; the store is not changed |
| `Posts.UpdatePost` | routes/posts.js:61-80 | 404 when the post is absent, then 403 when the caller is not its author, both leaving the store unchanged; otherwise only that post is replaced by its `$set` update, answered 200 with the author populated; no response shows a password |
| `Posts.DeletePost` | routes/posts.js:83-97 | 404 when absent, then 403 for anyone but the author, both leaving the store unchanged; otherwise exactly that post is removed, answered 200 "Post deleted successfully" |
| `Posts.AddComment` | routes/posts.js:100-117 | 404 and no change when the post is absent; otherwise `{user: caller, text}` is appended to that post's comments and nothing else changes; answered 200 with commenters populated, no password shown |
| `Posts.ToggleLike` | routes/posts.js:120-137 | 404 and no change when the post is absent; otherwise only that post's likes change, by the toggle, and the store keeps its likes free of duplicates; no password is shown |
| `Auth.Taken` | routes/auth.js:12-13 | the `$or` lookup finds some account with the email or the username; `Auth.Register`'s ensures refuse with 400 exactly when it holds, and `Auth.RegisterKeepsUnique` shows that its failure keeps accounts unique |
| `Auth.Known` | routes/auth.js:43-44 | the email lookup finds some account; `Auth.Login`'s ensures answer 404 exactly when it fails |
| `Auth.LoginOutcome` | routes/auth.js:43-62 | the answers login may give: 404 when no account has the email, otherwise `Auth.Answer` for one account that has it; `Auth.Login` ensures it, and `Auth.LoginDetermined` shows it fixes the answer once the email is unique |
| `Auth.Account` | routes/auth.js:22-26 | the registered document holds exactly the username, the email and the hashed password |
| `Auth.RegisterKeepsUnique` | routes/auth.js:12-28 | when emails and usernames were unique, a registration that passed the clash check keeps them unique |
| `Auth.Register` | routes/auth.js:7-35 | 400 "User already exists" and no insert when any account has the email or the username; otherwise exactly one account is added, its password `hash(password, salt)`, answered 201 without the password; uniqueness is preserved |
| `Auth.Answer` | routes/auth.js:49-62 | 400 "Invalid password" exactly when `compare` fails; otherwise 200 with the account without its password and the token signed for its login claims |
| `Auth.Login` | routes/auth.js:38-66 | 404 "User not found" exactly when no account has the email; otherwise the answer for an account with that email; a token is issued exactly on 200; no password is shown; the store is not changed |
| `Auth.LoginDetermined` | routes/auth.js:43 | when only one account has the email, login's answer is that account's |
| `Auth.RegisterThenLogin` | routes/auth.js:19-52 | under `compare(p, hash(p, s))`, logging in right after registering with the same email and password answers 200 with the new account and a token signed for its id, issued now for 24 hours |
| `Auth.LoginTokenAdmitted` | routes/auth.js:55-59 | under jsonwebtoken's guarantees, the token a login issues passes the guard with the account's id for 24 hours after the login and is refused with 400 after that |
| `Users.GetProfile` | routes/users.js:22-30 | 404 "User not found" exactly when the caller has no record; otherwise 200 with the record without its password |
| `Users.ProfileUpdate` | routes/users.js:35-40 | the fields written hold a `password` exactly when the body's password is truthy, then its hash; every other field of the body, and only those |
| `Users.MergedProfile` | routes/users.js:42-46 | after the merge a truthy password is stored hashed and a falsy or absent one leaves the stored password as it was; every other field the body names takes its value; every field it does not name is unchanged |
| `Users.UpdateProfile` | routes/users.js:33-52 | only the caller's record changes, by the merge, answered 200 without the password; when the caller has no record nothing changes and the answer is 200 with `null` |
| `Users.UpdateCanDuplicateEmail` | routes/users.js:42-46 | the handler checks no uniqueness: a profile update can give one account another's email |
| `Users.OwnPosts` | routes/users.js:55-65 | 200 with exactly the caller's posts, each once, newest first, with no password shown |
| `Users.PublicProfile` | routes/users.js:68-82 | 404 "User not found" when the account is absent; otherwise 200 with the account without its password and exactly its posts, newest first |

## Left out

- The real-time channel (`server.js`, `api/index.js`): the socket handlers only log connections and disconnections, and no route broadcasts anything, so there is no notifier to model.
- Process bootstrapping, the Mongo connection and its cached-connection memo, CORS, the serverless adapter and Express routing: glue with no decisions in it.
- bcrypt and jsonwebtoken internals: salts, the cost factor 10 of `genSalt(10)` and signature cryptography. The salt is a parameter; the four calls are uninterpreted functions.
- The clock: the creation time of a post and the time of a login or token check are integer parameters (seconds).
- Fresh ids: the ids of new accounts and posts are parameters, required to be unused. A create body that names `_id` is the exception; see the Posts.CreatePost line below.
- The try/catch 500 branches, which only report store and library exceptions.
- Mongoose schemas (`models/User.js` and `models/Post.js` are not part of this model): required fields, unique indexes, defaults, timestamps besides `createdAt`, comment subdocument ids and dates, and the casting of ids and field values. Request bodies are maps of string fields.
- Posts.CreatePost, Posts.NewPost, Posts.Patched: a body key named `_id`, `likes`, `comments` or `createdAt` is kept as a content field. In the source, `new Post({ ...req.body, ... })` (routes/posts.js:22-25) and `$set: req.body` (routes/posts.js:72) write those fields of the post itself, after the schema casts them. In particular, a create body's `_id` picks the new post's id. An unused one becomes the id in place of the parameter `id`, and a taken one makes `save` fail with a duplicate key, which the catch answers with 500 (routes/posts.js:29-30). The model always stores the post under the parameter `id`.
- Posts.NewPost, Posts.Patched, Users.ProfileUpdate, Users.MergedProfile: every body field is kept, `_id` included, although `$set: updateData` (routes/users.js:44) would aim it at the document's own id. Under Mongoose's default strict mode, fields the schema does not declare are dropped by `new Post` and by `$set` (routes/posts.js:22-25 and 72, routes/users.js:44). So post content and the profile merge keep every body field only if the schemas are ignored.
- Posts.AddComment, Auth.Register, Auth.Login: the body fields `text`, `username`, `email` and `password` are strings. A request that leaves one out, so that JavaScript reads `undefined` (routes/posts.js:107, routes/auth.js:9 and 40), cannot be expressed. What the store or bcrypt then does is a schema or library matter.
- JSON values other than strings: `null`, `false` and `0` are falsy in the source too, but bodies here carry only strings, so "falsy" means absent or empty.
- The ObjectId/string cast: ids are compared as strings, and a malformed id (a cast error and a 500) is not modelled.
- Concurrency: each handler is a sequential read-modify-write. The races between `findById` and `save`, which the source does not prevent, are left out with the rest of concurrency.
- Auth.Login: when several accounts share an email, which one `findOne` returns is left open (any account with the email). `Auth.LoginDetermined` shows the answer is fixed once the email is unique.
- Store.FindPosts: posts with equal `createdAt` come back in no particular order, as the store gives no order for ties.

## Where the code does less than would be expected

The model follows the code. Each point below is a check a reader would
expect a feed service to make and that the handlers do not make. Whether the
absent Mongoose schemas make up for any of them is not known here.

- An update's `$set` can replace a post's `author`; see `Posts.UpdateCanReassignAuthor`. An author would be expected to stay fixed after creation.
- The same `$set` hands the author every field of the post, so an author's update body can rewrite the likes and comments other accounts added. A create body can likewise pre-fill `likes`. The model keeps such keys as content (see "Left out"), so these two are read from routes/posts.js:22-25 and 72, not proved.
- Comments are stored with whatever text the body sends, empty included. Empty comment text would be expected to be refused.
- A profile update checks no uniqueness of email or username; see `Users.UpdateCanDuplicateEmail`. Such an update would be expected to be refused. `Auth.AccountsUnique` is therefore proved preserved by registration only, and is not part of the store invariant `Store.Db.Valid`.
- No mutation broadcasts a change event.
