/**
 * The `verifyToken` middleware of the post and user routes (the two files
 * carry the same text). It reads the `Authorization` header, drops the
 * first `"Bearer "` in it the way JavaScript's `String.replace` does with a
 * string pattern, refuses a missing or empty token with 401, refuses a token
 * `jwt.verify` rejects with 400, and otherwise passes the verified claims on
 * to the handler.
 */
module Guard {
  import opened Wrappers
  import opened Crypto
  import opened Documents

  const BEARER: string := "Bearer "

  predicate OccursAt(s: string, pat: string, i: int)
  {
    0 <= i && i + |pat| <= |s| && s[i..i + |pat|] == pat
  }

  /** The first index at or after `from` where `pat` occurs in `s`, or -1. */
  function IndexFrom(s: string, pat: string, from: nat): (r: int)
    requires from <= |s|
    ensures r == -1 || (from <= r && OccursAt(s, pat, r))
    ensures r == -1 ==> forall j :: from <= j ==> !OccursAt(s, pat, j)
    ensures r != -1 ==> forall j :: from <= j < r ==> !OccursAt(s, pat, j)
    decreases |s| - from
  {
    if from + |pat| > |s| then -1
    else if s[from..from + |pat|] == pat then from
    else IndexFrom(s, pat, from + 1)
  }

  /** `s.replace(pat, rep)` for a string pattern: only the first occurrence
      is replaced, wherever it sits. */
  function ReplaceFirst(s: string, pat: string, rep: string): (r: string)
    ensures (forall j :: !OccursAt(s, pat, j)) ==> r == s
    ensures forall i :: OccursAt(s, pat, i) && (forall j :: 0 <= j < i ==> !OccursAt(s, pat, j)) ==>
      r == s[..i] + rep + s[i + |pat|..]
  {
    var i := IndexFrom(s, pat, 0);
    if i == -1 then s else s[..i] + rep + s[i + |pat|..]
  }

  /** `req.header('Authorization')?.replace('Bearer ', '')`. */
  function BearerToken(header: Option<string>): (t: Option<string>)
    ensures t.None? <==> header.None?
    ensures header.Some? && |BEARER| <= |header.value| && header.value[..|BEARER|] == BEARER ==>
      t == Some(header.value[|BEARER|..])
    ensures header.Some? && (forall j :: !OccursAt(header.value, BEARER, j)) ==> t == header
  {
    match header
    case None => None
    case Some(h) =>
      assert |BEARER| <= |h| && h[..|BEARER|] == BEARER ==>
        OccursAt(h, BEARER, 0) && h[..0] + "" + h[|BEARER|..] == h[|BEARER|..];
      Some(ReplaceFirst(h, BEARER, ""))
  }

  datatype Verdict = Admit(claims: Claims) | Refuse(response: Response)

  /** `verifyToken`: the verdict for a request carrying `header` at `now`. */
  function VerifyToken(crypto: Primitives, header: Option<string>, now: int): (v: Verdict)
    ensures v.Refuse? ==> v.response.body.Message?
    ensures (v.Refuse? && v.response.status == 401) <==> BearerToken(header) in {None, Some("")}
    ensures (v.Refuse? && v.response.status == 400) <==>
      BearerToken(header) !in {None, Some("")} && crypto.verify(BearerToken(header).value, now).None?
    ensures v.Admit? ==> crypto.verify(BearerToken(header).value, now) == Some(v.claims)
  {
    var token := BearerToken(header);
    if token.None? || token.value == "" then Refuse(Response(401, Message(ACCESS_DENIED)))
    else match crypto.verify(token.value, now)
      case None => Refuse(Response(400, Message(INVALID_TOKEN)))
      case Some(c) => Admit(c)
  }

  /** The three outcomes of the guard, each exactly when its cause holds. */
  lemma GuardOutcomes(crypto: Primitives, header: Option<string>, now: int)
    ensures var v := VerifyToken(crypto, header, now);
      && (v == Refuse(Response(401, Message(ACCESS_DENIED))) <==> BearerToken(header) in {None, Some("")})
      && (v == Refuse(Response(400, Message(INVALID_TOKEN))) <==>
            BearerToken(header) !in {None, Some("")} && crypto.verify(BearerToken(header).value, now).None?)
      && (forall c :: v == Admit(c) <==>
            BearerToken(header) !in {None, Some("")} && crypto.verify(BearerToken(header).value, now) == Some(c))
  {
  }

  /** A header of the form `Bearer <t>` yields exactly `t`. */
  lemma BearerHeaderGivesToken(t: string)
    ensures BearerToken(Some(BEARER + t)) == Some(t)
  {
    var h := BEARER + t;
    assert h[0..|BEARER|] == BEARER;
    assert IndexFrom(h, BEARER, 0) == 0;
    assert h[..0] + "" + h[|BEARER|..] == t;
    assert ReplaceFirst(h, BEARER, "") == t;
  }

  /** A header with no `"Bearer "` in it is taken as the token itself. */
  lemma RawHeaderIsToken(h: string)
    requires forall j :: !OccursAt(h, BEARER, j)
    ensures BearerToken(Some(h)) == Some(h)
  {
  }

  /** `"Bearer "` with nothing after it leaves an empty token, refused as
      missing. */
  lemma EmptyBearerDenied(crypto: Primitives, now: int)
    ensures VerifyToken(crypto, Some(BEARER), now) == Refuse(Response(401, Message(ACCESS_DENIED)))
  {
    BearerHeaderGivesToken("");
  }

  /** Under jsonwebtoken's own guarantees, a bearer header carrying a token
      signed for `c` admits exactly `c` before `c.exp` and is refused with 400
      from then on. */
  lemma SignedTokenAdmitted(crypto: Primitives, c: Claims, now: int)
    requires TokensSound(crypto)
    ensures VerifyToken(crypto, Some(BEARER + crypto.sign(c)), now) ==
      if now < c.exp then Admit(c) else Refuse(Response(400, Message(INVALID_TOKEN)))
  {
    BearerHeaderGivesToken(crypto.sign(c));
  }
}
