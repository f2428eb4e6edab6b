/**
 * JSON Web Tokens as the backend uses them, with the cryptography abstracted:
 * a signed token carries the secret it was signed with, its claims and its
 * expiry, and verification checks the secret and the expiry.  Forgery is not
 * modelled; time is in seconds.
 */
module Tokens {
  import opened Wrappers
  import opened UserModel

  /** The two secrets of the environment, `JWT_SECRET` and `REFRESH_SECRET`; nothing makes them differ. */
  datatype Secrets = Secrets(access: string, refresh: string)

  /** The payload `{ id, role }`. */
  datatype Claims = Claims(id: nat, role: Role)

  datatype SignedToken = SignedToken(secret: string, claims: Claims, issuedAt: nat, expiresAt: nat)

  datatype TokenPair = TokenPair(accessToken: SignedToken, refreshToken: SignedToken)

  /** `expiresIn: '60s'`. */
  const AccessLifetime: nat := 60
  /** `expiresIn: '7d'`. */
  const RefreshLifetime: nat := 7 * 24 * 60 * 60

  /** `jwt.verify(token, secret)` at time `now`: the claims, or `None` for a wrong secret or an expired token. */
  function Verify(secret: string, t: SignedToken, now: nat): (c: Option<Claims>)
    ensures c.Some? <==> t.secret == secret && now < t.expiresAt
    ensures c.Some? ==> c.value == t.claims
  {
    if t.secret == secret && now < t.expiresAt then Some(t.claims) else None
  }

  /** `jwt.sign(claims, secret, { expiresIn: lifetime })` at time `now`. */
  function Sign(secret: string, claims: Claims, now: nat, lifetime: nat): (t: SignedToken)
    ensures forall k, at: nat :: Verify(k, t, at) == (if k == secret && at < now + lifetime then Some(claims) else None)
  {
    SignedToken(secret, claims, now, now + lifetime)
  }
}
