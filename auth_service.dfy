/** Login for users and institutions: lookup by email, password comparison
    against the stored hash, token signing, and the session response. */
module AuthService {
  import opened Wrappers
  import opened Domain
  import UserService
  import InstitutionService

  const InvalidCredentials: string := "Email ou senha incorretos"
  const DefaultSecret: string := "adotai-secret-key"
  const DefaultExpiresIn: string := "7d"

  datatype AuthRequest = AuthRequest(email: string, password: string)

  /** The signing configuration: secret and token lifetime. */
  datatype JwtConfig = JwtConfig(secret: string, expiresIn: string)

  /** What `sign` is asked to sign: payload `{ type }`, the secret, and the
      options `subject` and `expiresIn`. */
  datatype SignRequest = SignRequest(kind: PrincipalKind, secret: string, subject: Id, expiresIn: string)

  datatype UserSession = UserSession(
    id: Id, name: string, email: string, city: Option<string>, state: Option<string>, kind: PrincipalKind)
  datatype UserAuthResponse = UserAuthResponse(user: UserSession, token: string)

  datatype InstitutionSession = InstitutionSession(
    id: Id, name: string, email: string, kind: InstitutionType, city: string, state: string)
  datatype InstitutionAuthResponse = InstitutionAuthResponse(institution: InstitutionSession, token: string)

  /** An environment value with `||` fallback: absent or empty gives the default. */
  function OrDefault(env: Option<string>, default: string): (r: string)
    ensures env.Some? && env.value != "" ==> r == env.value
    ensures env.None? || env.value == "" ==> r == default
  {
    if env.Some? && env.value != "" then env.value else default
  }

  /** The configuration read from `JWT_SECRET` and `JWT_EXPIRES_IN`. */
  function LoadJwtConfig(envSecret: Option<string>, envExpiresIn: Option<string>): (c: JwtConfig)
    ensures c.secret == OrDefault(envSecret, DefaultSecret)
    ensures c.expiresIn == OrDefault(envExpiresIn, DefaultExpiresIn)
  {
    JwtConfig(OrDefault(envSecret, DefaultSecret), OrDefault(envExpiresIn, DefaultExpiresIn))
  }

  /** `user.city || undefined`: an empty string is reported as absent. */
  function Blank(s: Option<string>): (r: Option<string>)
    ensures r.Some? <==> s.Some? && s.value != ""
    ensures r.Some? ==> r == s
  {
    if s.Some? && s.value != "" then s else None
  }

  /** `user.findUnique({ where: { email } })`. */
  function FindUserByEmail(users: seq<User>, email: string): (r: Option<User>)
    ensures r.Some? ==> r.value in users && r.value.email == email
    ensures r.None? ==> forall u :: u in users ==> u.email != email
  {
    match FindFirst(users, (u: User) => u.email == email)
    case Some(k) => Some(users[k])
    case None => None
  }

  /** `institution.findUnique({ where: { email } })`. */
  function FindInstitutionByEmail(t: seq<Institution>, email: string): (r: Option<Institution>)
    ensures r.Some? ==> r.value in t && r.value.email == email
    ensures r.None? ==> forall i :: i in t ==> i.email != email
  {
    match FindFirst(t, (i: Institution) => i.email == email)
    case Some(k) => Some(t[k])
    case None => None
  }

  /** `authenticateUser`: succeeds exactly when a user with that email exists
      and the password compares equal to its stored hash; every failure is
      the same 401 error. On success the token signs `{ type: 'user' }` for
      the user's id with the configured lifetime. */
  function AuthenticateUser(users: seq<User>, req: AuthRequest, compare: (string, string) -> bool,
                            sign: SignRequest -> string, config: JwtConfig): (r: Result<UserAuthResponse, Failure>)
    ensures r.Ok? <==> FindUserByEmail(users, req.email).Some?
                       && compare(req.password, FindUserByEmail(users, req.email).value.password)
    ensures r.Err? ==> r.error == AppError(InvalidCredentials, Some(401))
    ensures r.Ok? ==>
      var u := FindUserByEmail(users, req.email).value;
      && r.value.token == sign(SignRequest(UserPrincipal, config.secret, u.id, config.expiresIn))
      && r.value.user == UserSession(u.id, u.name, u.email, Blank(u.city), Blank(u.state), UserPrincipal)
  {
    match FindUserByEmail(users, req.email)
    case None => Err(AppError(InvalidCredentials, Some(401)))
    case Some(u) =>
      if !compare(req.password, u.password) then Err(AppError(InvalidCredentials, Some(401)))
      else
        var token := sign(SignRequest(UserPrincipal, config.secret, u.id, config.expiresIn));
        Ok(UserAuthResponse(UserSession(u.id, u.name, u.email, Blank(u.city), Blank(u.state), UserPrincipal), token))
  }

  /** `authenticateInstitution`: the same two failures with the same error;
      on success the token signs `{ type: 'institution' }` for the
      institution's id and the response carries its stored kind. */
  function AuthenticateInstitution(t: seq<Institution>, req: AuthRequest, compare: (string, string) -> bool,
                                   sign: SignRequest -> string, config: JwtConfig)
    : (r: Result<InstitutionAuthResponse, Failure>)
    ensures r.Ok? <==> FindInstitutionByEmail(t, req.email).Some?
                       && compare(req.password, FindInstitutionByEmail(t, req.email).value.password)
    ensures r.Err? ==> r.error == AppError(InvalidCredentials, Some(401))
    ensures r.Ok? ==>
      var i := FindInstitutionByEmail(t, req.email).value;
      && r.value.token == sign(SignRequest(InstitutionPrincipal, config.secret, i.id, config.expiresIn))
      && r.value.institution == InstitutionSession(i.id, i.name, i.email, i.kind, i.city, i.state)
  {
    match FindInstitutionByEmail(t, req.email)
    case None => Err(AppError(InvalidCredentials, Some(401)))
    case Some(i) =>
      if !compare(req.password, i.password) then Err(AppError(InvalidCredentials, Some(401)))
      else
        var token := sign(SignRequest(InstitutionPrincipal, config.secret, i.id, config.expiresIn));
        Ok(InstitutionAuthResponse(InstitutionSession(i.id, i.name, i.email, i.kind, i.city, i.state), token))
  }

  /** An unknown email and a wrong password for a known one are answered
      with the same error, so a caller cannot tell which happened. */
  lemma UserFailuresIndistinguishable(users: seq<User>, unknown: AuthRequest, wrong: AuthRequest,
                                      compare: (string, string) -> bool, sign: SignRequest -> string,
                                      config: JwtConfig)
    requires forall u :: u in users ==> u.email != unknown.email
    requires exists u :: u in users && u.email == wrong.email
    requires forall u :: u in users && u.email == wrong.email ==> !compare(wrong.password, u.password)
    ensures AuthenticateUser(users, unknown, compare, sign, config)
         == AuthenticateUser(users, wrong, compare, sign, config)
         == Err(AppError(InvalidCredentials, Some(401)))
  {
  }

  /** The email lookup after appending a row whose email is new finds that row. */
  lemma {:induction false} FindNewUser(users: seq<User>, rec: User)
    requires forall u :: u in users ==> u.email != rec.email
    ensures FindUserByEmail(users + [rec], rec.email) == Some(rec)
  {
    if users != [] {
      assert (users + [rec])[1..] == users[1..] + [rec];
      FindNewUser(users[1..], rec);
    }
  }

  /** The email lookup after appending a row whose email is new finds that row. */
  lemma {:induction false} FindNewInstitution(t: seq<Institution>, rec: Institution)
    requires forall i :: i in t ==> i.email != rec.email
    ensures FindInstitutionByEmail(t + [rec], rec.email) == Some(rec)
  {
    if t != [] {
      assert (t + [rec])[1..] == t[1..] + [rec];
      FindNewInstitution(t[1..], rec);
    }
  }

  /** Credential round trip: after a successful user registration, logging
      in with the registered email and password succeeds for the new row,
      provided `compare` accepts a password against its own hash. */
  lemma UserRegisterThenLogin(users: seq<User>, id: Id, dto: UserService.CreateUserDTO,
                              hash: (string, nat) -> string, compare: (string, string) -> bool,
                              sign: SignRequest -> string, config: JwtConfig)
    requires UserService.FindByEmailOrCpf(users, dto.email, dto.cpf).None?
    requires compare(dto.password, hash(dto.password, SaltRounds))
    ensures var r := AuthenticateUser(users + [UserService.NewUser(id, dto, hash)],
                                      AuthRequest(dto.email, dto.password), compare, sign, config);
            r.Ok? && r.value.user.id == id
            && r.value.token == sign(SignRequest(UserPrincipal, config.secret, id, config.expiresIn))
  {
    FindNewUser(users, UserService.NewUser(id, dto, hash));
  }

  /** Credential round trip for institutions, as for users. */
  lemma InstitutionRegisterThenLogin(t: seq<Institution>, id: Id, dto: InstitutionService.CreateInstitutionDTO,
                                     kind: InstitutionType, hash: (string, nat) -> string,
                                     compare: (string, string) -> bool, sign: SignRequest -> string,
                                     config: JwtConfig)
    requires InstitutionService.FindByEmailOrCnpj(t, dto.email, dto.cnpj).None?
    requires compare(dto.password, hash(dto.password, SaltRounds))
    ensures var r := AuthenticateInstitution(t + [InstitutionService.NewInstitution(id, dto, kind, hash)],
                                             AuthRequest(dto.email, dto.password), compare, sign, config);
            r.Ok? && r.value.institution.id == id && r.value.institution.kind == kind
            && r.value.token == sign(SignRequest(InstitutionPrincipal, config.secret, id, config.expiresIn))
  {
    FindNewInstitution(t, InstitutionService.NewInstitution(id, dto, kind, hash));
  }
}
