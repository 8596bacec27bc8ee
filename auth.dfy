/** The `authenticate` middleware of app.js: it reads the Authorization
    header, strips the first "Bearer " from it, verifies the token and its
    expiry, and either refuses the request or lets it proceed with the id
    carried by the token. */
module Auth {
  import opened Common
  import opened Text
  import opened Crypto

  /** What the middleware decides: refuse with a status and a message, or
      call the route handler with the caller's id. */
  datatype Decision = Proceed(id: UserId) | Refuse(status: Status, message: string)

  const AccessDenied: string := "Access denied"
  const InvalidToken: string := "Invalid token"

  /** `header` is `req.header('Authorization')`; `now` is the verifier's clock
      in seconds. An absent or empty header is falsy in JavaScript. */
  function Authenticate(j: Jwt, header: Option<string>, now: int): (d: Decision)
    ensures d == Refuse(Unauthorized, AccessDenied) <==> header == None || header == Some("")
    ensures d.Proceed? <==>
              && header.Some? && header.value != ""
              && j.verify(RemoveFirst(header.value, Bearer)).Some?
              && !Expired(j.verify(RemoveFirst(header.value, Bearer)).value, now)
    ensures d.Proceed? ==> d.id == j.verify(RemoveFirst(header.value, Bearer)).value.id
    ensures d.Refuse? && header.Some? && header.value != "" ==> d == Refuse(BadRequest, InvalidToken)
  {
    if header.None? || header.value == "" then
      Refuse(Unauthorized, AccessDenied)
    else
      match j.verify(RemoveFirst(header.value, Bearer))
      case None => Refuse(BadRequest, InvalidToken)
      case Some(claims) =>
        if Expired(claims, now) then Refuse(BadRequest, InvalidToken) else Proceed(claims.id)
  }

  /** A token issued at time `t` and presented as "Bearer <token>" lets the
      request proceed as its user exactly until one hour after `t`; from then
      on it is refused with 400. */
  lemma IssuedTokenAccepted(j: Jwt, id: UserId, t: int, now: int)
    requires JwtSound(j)
    ensures now < t + TokenLifetime ==>
              Authenticate(j, Some(Bearer + Issue(j, id, t)), now) == Proceed(id)
    ensures now >= t + TokenLifetime ==>
              Authenticate(j, Some(Bearer + Issue(j, id, t)), now) == Refuse(BadRequest, InvalidToken)
  {
  }

  /** The prefix is optional: the bare token is accepted the same way. */
  lemma BareTokenAccepted(j: Jwt, id: UserId, t: int, now: int)
    requires JwtSound(j)
    ensures now < t + TokenLifetime ==>
              Authenticate(j, Some(Issue(j, id, t)), now) == Proceed(id)
    ensures now >= t + TokenLifetime ==>
              Authenticate(j, Some(Issue(j, id, t)), now) == Refuse(BadRequest, InvalidToken)
  {
  }

  /** The header "Bearer " alone leaves an empty token, which is refused as invalid. */
  lemma PrefixOnlyRefused(j: Jwt, now: int)
    requires JwtSound(j)
    ensures Authenticate(j, Some(Bearer), now) == Refuse(BadRequest, InvalidToken)
  {
  }
}
