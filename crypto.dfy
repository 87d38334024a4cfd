/**
 * The password hashing (bcrypt) and token signing (jsonwebtoken) that the
 * route handlers call. Their internals are not modelled: each is a function
 * supplied by the caller, and what the handlers rely on about them is stated
 * as a predicate that a lemma takes as a hypothesis.
 */
module Crypto {
  import opened Wrappers

  /** The payload of a login token: the account id, and the issue time and
      expiry (seconds) that `jwt.sign` adds for the `expiresIn` option. */
  datatype Claims = Claims(id: string, iat: int, exp: int)

  /** The four library calls, bound to the server's signing secret. */
  datatype Primitives = Primitives(
    hash: (string, string) -> string,         // bcrypt.hash(password, salt)
    compare: (string, string) -> bool,        // bcrypt.compare(password, stored)
    sign: Claims -> string,                   // jwt.sign(payload, secret)
    verify: (string, int) -> Option<Claims>)  // jwt.verify(token, secret) at a clock reading

  /** `expiresIn: '24h'`, in seconds. */
  const TOKEN_LIFETIME: int := 24 * 60 * 60

  /** The claims a login issues for account `id` at time `now`. */
  function LoginClaims(id: string, now: int): (c: Claims)
    ensures c.id == id && c.iat == now
    ensures c.exp - c.iat == TOKEN_LIFETIME
  {
    Claims(id, now, now + TOKEN_LIFETIME)
  }

  /** The one property of bcrypt the routes depend on: a password matches
      any hash of itself, whatever the salt. */
  ghost predicate HashSound(crypto: Primitives)
  {
    forall p, salt :: crypto.compare(p, crypto.hash(p, salt))
  }

  /** What jsonwebtoken promises about its own tokens: they are never empty,
      and one verifies, giving back its claims, exactly before its expiry. */
  ghost predicate TokensSound(crypto: Primitives)
  {
    && (forall c :: crypto.sign(c) != "")
    && (forall c, now :: crypto.verify(crypto.sign(c), now) == if now < c.exp then Some(c) else None)
  }
}
