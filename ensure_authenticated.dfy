/** `ensureAuthenticated`: a second request gate, which no route mounts. It takes the second
    space-separated field of the Authorization header as the token, verifies
    it, and attaches the principal without consulting the store. */
module EnsureAuthenticated {
  import opened Wrappers
  import opened Domain
  import opened Text
  import AuthMiddleware

  const TokenMissing: string := "JWT token não informado"
  const InvalidToken: string := "Token JWT inválido"

  /** `const [, token] = header.split(' ')`: the second field, if there is one. */
  function SecondField(header: string): (r: Option<string>)
    ensures r.Some? <==> |Split(header, ' ')| >= 2
    ensures r.Some? ==> r.value == Split(header, ' ')[1] && ' ' !in r.value
  {
    var parts := Split(header, ' ');
    if |parts| >= 2 then Some(parts[1]) else None
  }

  /** A header "<scheme> <t>" whose scheme and token have no space yields `t`. */
  lemma SchemeHeaderYieldsToken(scheme: string, t: string)
    requires ' ' !in scheme && ' ' !in t
    ensures SecondField(scheme + " " + t) == Some(t)
  {
    SplitAtFirst(scheme, ' ', t);
    SplitNoSeparator(t, ' ');
  }

  /** The gate's decision, as an exception or a principal. A missing header
      throws "JWT token não informado" (401); a header without a second field,
      or whose second field does not verify, throws "Token JWT inválido" (401);
      otherwise `{ id: sub, type }` is attached. */
  function Gate(header: Option<string>, secret: string,
                verify: (string, string) -> Option<AuthMiddleware.TokenPayload>): (r: Result<Principal, Failure>)
    ensures AuthMiddleware.HeaderMissing(header) ==> r == Err(AppError(TokenMissing, Some(401)))
    ensures !AuthMiddleware.HeaderMissing(header) ==>
      (r.Ok? <==> SecondField(header.value).Some? && verify(SecondField(header.value).value, secret).Some?)
    ensures !AuthMiddleware.HeaderMissing(header) && r.Err? ==> r.error == AppError(InvalidToken, Some(401))
    ensures r.Ok? ==>
      var p := verify(SecondField(header.value).value, secret).value;
      r.value == Principal(p.sub, p.kind)
  {
    if AuthMiddleware.HeaderMissing(header) then Err(AppError(TokenMissing, Some(401)))
    else
      match SecondField(header.value)
      case None => Err(AppError(InvalidToken, Some(401)))
      case Some(token) =>
        match verify(token, secret)
        case None => Err(AppError(InvalidToken, Some(401)))
        case Some(p) => Ok(Principal(p.sub, p.kind))
  }
}
