/** `authMiddleware`: the request gate in front of the pet routes. It strips
    "Bearer " from the Authorization header, verifies the token, re-checks
    that an institution subject still exists, and attaches the principal. */
module AuthMiddleware {
  import opened Wrappers
  import opened Domain
  import opened Text

  const NotAuthorized: string := "Não autorizado"
  const InvalidToken: string := "Token inválido"
  const BearerPrefix: string := "Bearer "

  /** The claims a verified token yields: subject and principal kind. */
  datatype TokenPayload = TokenPayload(sub: Id, kind: PrincipalKind)

  /** The gate either passes the request on with a principal attached, or
      answers it with a status code and an error message. */
  datatype GateResult = Next(principal: Principal) | Respond(status: nat, error: string)

  /** A header that JavaScript treats as false: absent or empty. */
  predicate HeaderMissing(header: Option<string>) {
    header.None? || header.value == ""
  }

  /** `authorization.replace('Bearer ', '').trim()`. */
  function BearerToken(header: string): (token: string)
    ensures token == Trim(ReplaceFirst(header, BearerPrefix, ""))
    ensures IndexOf(header, BearerPrefix).None? ==> token == Trim(header)
  {
    Trim(ReplaceFirst(header, BearerPrefix, ""))
  }

  /** A header of the form "Bearer <t>" yields `t`, trimmed. */
  lemma BearerHeaderYieldsToken(t: string)
    ensures BearerToken(BearerPrefix + t) == Trim(t)
  {
    ReplacePrefix(BearerPrefix, t, "");
    assert "" + t == t;
  }

  /** The gate's decision. A missing header is refused before the verifier is
      consulted; an unverifiable token is refused; an institution token whose
      subject is no longer stored is refused; user tokens are never looked up.
      Otherwise the request passes with `{ id: sub, type }` attached. */
  function Gate(header: Option<string>, secret: string, verify: (string, string) -> Option<TokenPayload>,
                institutions: seq<Institution>): (r: GateResult)
    ensures HeaderMissing(header) ==> r == Respond(401, NotAuthorized)
    ensures !HeaderMissing(header) && verify(BearerToken(header.value), secret).None? ==>
      r == Respond(401, InvalidToken)
    ensures !HeaderMissing(header) && verify(BearerToken(header.value), secret).Some? ==>
      var p := verify(BearerToken(header.value), secret).value;
      if p.kind == InstitutionPrincipal && FindInstitution(institutions, p.sub).None? then
        r == Respond(401, InstitutionNotFound)
      else
        r == Next(Principal(p.sub, p.kind))
  {
    if HeaderMissing(header) then Respond(401, NotAuthorized)
    else
      match verify(BearerToken(header.value), secret)
      case None => Respond(401, InvalidToken)
      case Some(p) =>
        if p.kind == InstitutionPrincipal && FindInstitution(institutions, p.sub).None? then
          Respond(401, InstitutionNotFound)
        else
          Next(Principal(p.sub, p.kind))
  }

  /** The gate passes a request exactly when the header is present, the token
      verifies, and the subject of an institution token is stored; the
      attached principal is then a stored institution or a user. */
  lemma GatePassesExactly(header: Option<string>, secret: string,
                          verify: (string, string) -> Option<TokenPayload>, institutions: seq<Institution>)
    ensures Gate(header, secret, verify, institutions).Next? <==>
      && !HeaderMissing(header)
      && verify(BearerToken(header.value), secret).Some?
      && (verify(BearerToken(header.value), secret).value.kind == InstitutionPrincipal ==>
            exists i :: i in institutions && i.id == verify(BearerToken(header.value), secret).value.sub)
    ensures Gate(header, secret, verify, institutions).Next? ==>
      var p := Gate(header, secret, verify, institutions).principal;
      p.kind == InstitutionPrincipal ==> exists i :: i in institutions && i.id == p.id
  {
    if !HeaderMissing(header) && verify(BearerToken(header.value), secret).Some? {
      var p := verify(BearerToken(header.value), secret).value;
      if p.kind == InstitutionPrincipal && FindInstitution(institutions, p.sub).Some? {
        assert FindInstitution(institutions, p.sub).value in institutions;
      }
    }
  }

  /** For a user token the institution table plays no part in the decision. */
  lemma UserTokensNeverLookedUp(header: Option<string>, secret: string,
                                verify: (string, string) -> Option<TokenPayload>,
                                t1: seq<Institution>, t2: seq<Institution>)
    requires !HeaderMissing(header)
    requires verify(BearerToken(header.value), secret).Some?
    requires verify(BearerToken(header.value), secret).value.kind == UserPrincipal
    ensures Gate(header, secret, verify, t1) == Gate(header, secret, verify, t2)
  {
  }
}
