/**
 * The authentication gate: the bearer token is taken from the
 * `Authorization` header, verified with the access secret, and its id looked
 * up in the table; the request then carries the stored record without its
 * password.
 */
module AuthMiddleware {
  import opened Wrappers
  import opened Strings
  import opened UserModel
  import opened Tokens
  import opened Http
  import opened AuthController

  const NoTokenMessage := "Access denied. No token provided."
  const NotValidMessage := "Token is not valid or expired."
  const InvalidTokenMessage := "Invalid token."

  /** `req.header('Authorization')?.replace('Bearer ', '')`, with a missing or empty result as `None`. */
  function ExtractToken(header: Option<string>): (t: Option<string>)
    ensures header.None? ==> t.None?
    ensures header.Some? ==> (t.None? <==> ReplaceFirst(header.value, "Bearer ", "") == "")
    ensures t.Some? ==> t.value == ReplaceFirst(header.value, "Bearer ", "") && t.value != ""
  {
    if header.None? then None
    else
      var token := ReplaceFirst(header.value, "Bearer ", "");
      if token == "" then None else Some(token)
  }

  /** The usual header `Bearer <token>` yields the token. */
  lemma BearerHeader(token: string)
    ensures ExtractToken(Some("Bearer " + token)) == if token == "" then None else Some(token)
  {
    var header := "Bearer " + token;
    assert header[..7] == "Bearer ";
    assert OccursAt(header, "Bearer ", 0);
    assert IndexOf(header, "Bearer ") == Some(0);
    assert header[7..] == token;
    assert ReplaceFirst(header, "Bearer ", "") == header[..0] + "" + header[7..];
    assert header[..0] + "" + header[7..] == token;
  }

  /** A header without the prefix is taken whole as the token. */
  lemma HeaderWithoutPrefix(header: string)
    requires header != "" && !Contains(header, "Bearer ")
    ensures ExtractToken(Some(header)) == Some(header)
  {
  }

  /** Only the first occurrence of the prefix is removed, wherever it stands. */
  lemma PrefixRemovedOnce()
    ensures ExtractToken(Some("Bearer Bearer x")) == Some("Bearer x")
    ensures ExtractToken(Some("xBearer y")) == Some("xy")
  {
    BearerHeader("Bearer x");
    assert "Bearer " + "Bearer x" == "Bearer Bearer x";
    var h := "xBearer y";
    assert h[0..7][0] == 'x';
    assert !OccursAt(h, "Bearer ", 0);
    assert h[1..8] == "Bearer ";
    assert OccursAt(h, "Bearer ", 1);
    assert IndexOf(h, "Bearer ") == Some(1);
    assert h[..1] + "" + h[8..] == "xy";
  }

  /**
   * For every header: the first `Bearer ` is removed, and an occurrence
   * after it is still in the token.
   */
  lemma LaterPrefixKept(h: string, j: nat)
    requires IndexOf(h, "Bearer ").Some?
    requires IndexOf(h, "Bearer ").value + 7 <= j && OccursAt(h, "Bearer ", j)
    ensures var i := IndexOf(h, "Bearer ").value;
      ExtractToken(Some(h)) == Some(h[..i] + h[i + 7..]) && OccursAt(h[..i] + h[i + 7..], "Bearer ", j - 7)
  {
    var i := IndexOf(h, "Bearer ").value;
    var rest := h[..i] + h[i + 7..];
    assert |rest| == |h| - 7;
    forall k | j - 7 <= k < j
      ensures rest[k] == h[k + 7]
    {
    }
    assert rest[j - 7..j] == h[j..j + 7];
    assert h[..i] + "" + h[i + 7..] == rest;
    assert ReplaceFirst(h, "Bearer ", "") == rest;
  }

  /** The gate's decision; `parse` decodes the compact token form, and forged tokens are not modelled. */
  datatype Decision = Pass(user: UserView) | Deny(response: Response)

  /**
   * `authMiddleware` without the assignment to `req.user`: 401 for no token,
   * for a token that does not verify under `JWT_SECRET` at `now`, and
   * for a token whose id has no record; otherwise the record without its
   * password, as it is stored now.
   */
  function Decide(rows: map<nat, Record>, header: Option<string>, parse: string -> Option<SignedToken>, jwtSecret: string, now: nat)
    : (d: Decision)
    ensures ExtractToken(header).None? ==> d == Deny(Status(401, NoTokenMessage))
    ensures (ExtractToken(header).Some? &&
      (parse(ExtractToken(header).value).None? || Verify(jwtSecret, parse(ExtractToken(header).value).value, now).None?))
      ==> d == Deny(Status(401, NotValidMessage))
    ensures (&& ExtractToken(header).Some?
             && parse(ExtractToken(header).value).Some?
             && Verify(jwtSecret, parse(ExtractToken(header).value).value, now).Some?
             && Verify(jwtSecret, parse(ExtractToken(header).value).value, now).value.id !in rows)
      ==> d == Deny(Status(401, InvalidTokenMessage))
    ensures d.Pass? <==>
      && ExtractToken(header).Some?
      && parse(ExtractToken(header).value).Some?
      && Verify(jwtSecret, parse(ExtractToken(header).value).value, now).Some?
      && Verify(jwtSecret, parse(ExtractToken(header).value).value, now).value.id in rows
    ensures d.Pass? ==>
      var id := Verify(jwtSecret, parse(ExtractToken(header).value).value, now).value.id;
      d.user == WithoutPassword(rows[id])
    ensures d.Deny? ==>
      d.response in {Status(401, NoTokenMessage), Status(401, NotValidMessage), Status(401, InvalidTokenMessage)}
  {
    match ExtractToken(header)
    case None => Deny(Status(401, NoTokenMessage))
    case Some(token) =>
      match parse(token)
      case None => Deny(Status(401, NotValidMessage))
      case Some(t) =>
        match Verify(jwtSecret, t, now)
        case None => Deny(Status(401, NotValidMessage))
        case Some(claims) =>
          if claims.id in rows then Pass(WithoutPassword(rows[claims.id]))
          else Deny(Status(401, InvalidTokenMessage))
  }

  /** `authMiddleware`: on success `req.user` is set and the request proceeds; otherwise nothing changes. */
  method Authenticate(db: UserTable, req: Request, header: Option<string>, parse: string -> Option<SignedToken>,
                      jwtSecret: string, now: nat)
    returns (o: Outcome)
    modifies req
    ensures var d := Decide(db.rows, header, parse, jwtSecret, now);
      && (d.Pass? ==> o == Proceed && req.user == Some(d.user))
      && (d.Deny? ==> o == Reject(d.response) && req.user == old(req.user))
  {
    var d := Decide(db.rows, header, parse, jwtSecret, now);
    if d.Pass? {
      req.user := Some(d.user);
      o := Proceed;
    } else {
      o := Reject(d.response);
    }
  }

  /**
   * The role downstream checks see is the stored one, not the token's: a
   * token issued while the account was an admin grants nothing once the
   * stored role is `user`.
   */
  lemma StoredRoleWins(rows: map<nat, Record>, header: Option<string>, parse: string -> Option<SignedToken>,
                       jwtSecret: string, now: nat)
    requires Decide(rows, header, parse, jwtSecret, now).Pass?
    ensures var claims := Verify(jwtSecret, parse(ExtractToken(header).value).value, now).value;
      Decide(rows, header, parse, jwtSecret, now).user.role == rows[claims.id].role
  {
  }

  /** With two different secrets, a refresh token never passes the gate. */
  lemma RefreshTokenRefused(rows: map<nat, Record>, token: string, parse: string -> Option<SignedToken>,
                            env: Secrets, r: Record, issued: nat, now: nat)
    requires token != ""
    requires parse(token) == Some(GenerateTokens(r, env, issued).refreshToken)
    requires env.access != env.refresh
    ensures Decide(rows, Some("Bearer " + token), parse, env.access, now) == Deny(Status(401, NotValidMessage))
  {
    BearerHeader(token);
  }

  /**
   * Nothing makes `JWT_SECRET` and `REFRESH_SECRET` differ; when they are
   * equal, a refresh token opens the gate for its seven days.
   */
  lemma SharedSecretAdmitsRefreshToken(rows: map<nat, Record>, token: string, parse: string -> Option<SignedToken>,
                                       env: Secrets, r: Record, issued: nat, now: nat)
    requires token != ""
    requires parse(token) == Some(GenerateTokens(r, env, issued).refreshToken)
    requires env.access == env.refresh && r.id in rows
    ensures now < issued + RefreshLifetime ==>
      Decide(rows, Some("Bearer " + token), parse, env.access, now) == Pass(WithoutPassword(rows[r.id]))
    ensures now >= issued + RefreshLifetime ==>
      Decide(rows, Some("Bearer " + token), parse, env.access, now) == Deny(Status(401, NotValidMessage))
  {
    BearerHeader(token);
  }

  /** An access token issued at `issued` for a stored record lets its holder in until it expires. */
  lemma AccessTokenAccepted(rows: map<nat, Record>, token: string, parse: string -> Option<SignedToken>,
                            env: Secrets, r: Record, issued: nat, now: nat)
    requires token != ""
    requires parse(token) == Some(GenerateTokens(r, env, issued).accessToken)
    requires r.id in rows
    ensures now < issued + AccessLifetime ==>
      Decide(rows, Some("Bearer " + token), parse, env.access, now) == Pass(WithoutPassword(rows[r.id]))
    ensures now >= issued + AccessLifetime ==>
      Decide(rows, Some("Bearer " + token), parse, env.access, now) == Deny(Status(401, NotValidMessage))
  {
    BearerHeader(token);
  }
}
