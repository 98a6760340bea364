/** User registration: the email/cpf uniqueness check, storage of the
    password hash, and the public profile returned. */
module UserService {
  import opened Wrappers
  import opened Domain
  import opened Store

  const DuplicateUser: string := "E-mail ou CPF já cadastrado"

  datatype CreateUserDTO = CreateUserDTO(
    name: string,
    email: string,
    cpf: string,
    password: string,
    city: Option<string>,
    state: Option<string>,
    zipCode: Option<string>,
    address: Option<string>)

  /** What registration returns: the row without its password. */
  datatype UserProfile = UserProfile(
    id: Id,
    name: string,
    email: string,
    cpf: string,
    city: Option<string>,
    state: Option<string>)

  /** `findFirst({ where: { OR: [{ email }, { cpf }] } })`. */
  function FindByEmailOrCpf(t: seq<User>, email: string, cpf: string): (r: Option<User>)
    ensures r.Some? ==> r.value in t && (r.value.email == email || r.value.cpf == cpf)
    ensures r.None? ==> forall u :: u in t ==> u.email != email && u.cpf != cpf
  {
    match FindFirst(t, (u: User) => u.email == email || u.cpf == cpf)
    case Some(k) => Some(t[k])
    case None => None
  }

  /** The row registration inserts: the supplied fields, with the password
      replaced by its hash at cost `SaltRounds`. */
  function NewUser(id: Id, dto: CreateUserDTO, hash: (string, nat) -> string): (r: User)
    ensures r.id == id && r.password == hash(dto.password, SaltRounds)
    ensures r.name == dto.name && r.email == dto.email && r.cpf == dto.cpf
    ensures r.city == dto.city && r.state == dto.state
    ensures r.zipCode == dto.zipCode && r.address == dto.address
  {
    User(id, dto.name, dto.email, dto.cpf, hash(dto.password, SaltRounds),
         dto.city, dto.state, dto.zipCode, dto.address)
  }

  /** The public profile of a row: id, name, email, cpf, city and state; the
      password is not part of it. */
  function ProfileOf(u: User): (p: UserProfile)
    ensures p.id == u.id && p.name == u.name && p.email == u.email && p.cpf == u.cpf
    ensures p.city == u.city && p.state == u.state
  {
    UserProfile(u.id, u.name, u.email, u.cpf, u.city, u.state)
  }

  /** A row whose email and cpf clash with no stored row keeps both keys unique. */
  lemma InsertKeepsKeysUnique(t: seq<User>, rec: User)
    requires UserKeysUnique(t)
    requires FindByEmailOrCpf(t, rec.email, rec.cpf).None?
    ensures UserKeysUnique(t + [rec])
  {
    var s := t + [rec];
    forall i, j | 0 <= i < j < |s| ensures s[i].email != s[j].email && s[i].cpf != s[j].cpf {
      if j == |t| {
        assert s[i] in t;
      }
    }
  }

  /** `create`: a row sharing the email or the cpf fails and stores nothing.
      Otherwise exactly one row is appended and its profile returned. */
  method Create(db: Database, dto: CreateUserDTO, hash: (string, nat) -> string)
    returns (r: Result<UserProfile, Failure>)
    requires db.Valid()
    modifies db
    ensures db.Valid()
    ensures r.Err? ==> unchanged(db)
    ensures old(FindByEmailOrCpf(db.users, dto.email, dto.cpf)).Some? ==> r == Err(AppError(DuplicateUser, None))
    ensures old(FindByEmailOrCpf(db.users, dto.email, dto.cpf)).None? ==>
      var rec := NewUser(old(db.nextId), dto, hash);
      && db.users == old(db.users) + [rec]
      && r == Ok(ProfileOf(rec))
      && db.pets == old(db.pets) && db.events == old(db.events) && db.institutions == old(db.institutions)
      && db.nextId == old(db.nextId) + 1 && db.clock == old(db.clock)
  {
    if FindByEmailOrCpf(db.users, dto.email, dto.cpf).Some? {
      return Err(AppError(DuplicateUser, None));
    }
    InsertKeepsKeysUnique(db.users, NewUser(db.nextId, dto, hash));
    var id := db.FreshId();
    var rec := NewUser(id, dto, hash);
    db.users := db.users + [rec];
    r := Ok(ProfileOf(rec));
  }
}
