/** Institution registration: the kind check, the email/cnpj uniqueness
    check, storage of the password hash, and the public profile returned. */
module InstitutionService {
  import opened Wrappers
  import opened Domain
  import opened Store

  const InvalidKind: string := "Tipo inválido. Deve ser ONG ou PREFEITURA"
  const DuplicateInstitution: string := "E-mail ou CNPJ já cadastrado"

  datatype CreateInstitutionDTO = CreateInstitutionDTO(
    name: string,
    email: string,
    cnpj: string,
    password: string,
    responsibleName: string,
    kind: string,
    city: string,
    state: string,
    zipCode: string,
    address: string,
    latitude: Option<real>,
    longitude: Option<real>)

  /** What registration returns: the row without its password. */
  datatype InstitutionProfile = InstitutionProfile(
    id: Id,
    name: string,
    email: string,
    cnpj: string,
    kind: InstitutionType,
    responsibleName: string,
    city: string,
    state: string)

  /** Accepts exactly the spellings "ONG" and "PREFEITURA". */
  function ParseInstitutionType(s: string): (r: Option<InstitutionType>)
    ensures r.Some? <==> s == "ONG" || s == "PREFEITURA"
    ensures r.Some? ==> InstitutionTypeName(r.value) == s
  {
    if s == "ONG" then Some(ONG)
    else if s == "PREFEITURA" then Some(PREFEITURA)
    else None
  }

  /** Every kind's own spelling parses back to it. */
  lemma ParseNameRoundTrip(t: InstitutionType)
    ensures ParseInstitutionType(InstitutionTypeName(t)) == Some(t)
  {
  }

  /** `findFirst({ where: { OR: [{ email }, { cnpj }] } })`. */
  function FindByEmailOrCnpj(t: seq<Institution>, email: string, cnpj: string): (r: Option<Institution>)
    ensures r.Some? ==> r.value in t && (r.value.email == email || r.value.cnpj == cnpj)
    ensures r.None? ==> forall i :: i in t ==> i.email != email && i.cnpj != cnpj
  {
    match FindFirst(t, (i: Institution) => i.email == email || i.cnpj == cnpj)
    case Some(k) => Some(t[k])
    case None => None
  }

  /** The row registration inserts: the supplied fields, with the password
      replaced by its hash at cost `SaltRounds`. */
  function NewInstitution(id: Id, dto: CreateInstitutionDTO, kind: InstitutionType,
                          hash: (string, nat) -> string): (r: Institution)
    ensures r.id == id && r.password == hash(dto.password, SaltRounds) && r.kind == kind
    ensures r.name == dto.name && r.email == dto.email && r.cnpj == dto.cnpj
    ensures r.responsibleName == dto.responsibleName && r.city == dto.city && r.state == dto.state
    ensures r.zipCode == dto.zipCode && r.address == dto.address
    ensures r.latitude == dto.latitude && r.longitude == dto.longitude
  {
    Institution(id, dto.name, dto.email, dto.cnpj, hash(dto.password, SaltRounds), dto.responsibleName,
                kind, dto.city, dto.state, dto.zipCode, dto.address, dto.latitude, dto.longitude)
  }

  /** The public profile of a row: id, name, email, cnpj, type, responsible
      name, city and state; the password is not part of it. */
  function ProfileOf(i: Institution): (p: InstitutionProfile)
    ensures p.id == i.id && p.name == i.name && p.email == i.email && p.cnpj == i.cnpj
    ensures p.kind == i.kind && p.responsibleName == i.responsibleName
    ensures p.city == i.city && p.state == i.state
  {
    InstitutionProfile(i.id, i.name, i.email, i.cnpj, i.kind, i.responsibleName, i.city, i.state)
  }

  /** A row whose email and cnpj clash with no stored row keeps both keys unique. */
  lemma InsertKeepsKeysUnique(t: seq<Institution>, rec: Institution)
    requires InstitutionKeysUnique(t)
    requires FindByEmailOrCnpj(t, rec.email, rec.cnpj).None?
    ensures InstitutionKeysUnique(t + [rec])
  {
    var s := t + [rec];
    forall i, j | 0 <= i < j < |s| ensures s[i].email != s[j].email && s[i].cnpj != s[j].cnpj {
      if j == |t| {
        assert s[i] in t;
      }
    }
  }

  /** `create`: an invalid kind fails before the table is consulted; then a
      row sharing the email or the cnpj fails; a failure stores nothing.
      Otherwise exactly one row is appended and its profile returned. */
  method Create(db: Database, dto: CreateInstitutionDTO, hash: (string, nat) -> string)
    returns (r: Result<InstitutionProfile, Failure>)
    requires db.Valid()
    modifies db
    ensures db.Valid()
    ensures r.Err? ==> unchanged(db)
    ensures ParseInstitutionType(dto.kind).None? ==> r == Err(AppError(InvalidKind, None))
    ensures ParseInstitutionType(dto.kind).Some? ==>
      if old(FindByEmailOrCnpj(db.institutions, dto.email, dto.cnpj)).Some? then
        r == Err(AppError(DuplicateInstitution, None))
      else
        var rec := NewInstitution(old(db.nextId), dto, ParseInstitutionType(dto.kind).value, hash);
        && db.institutions == old(db.institutions) + [rec]
        && r == Ok(ProfileOf(rec))
        && db.pets == old(db.pets) && db.events == old(db.events) && db.users == old(db.users)
        && db.nextId == old(db.nextId) + 1 && db.clock == old(db.clock)
  {
    var kind := ParseInstitutionType(dto.kind);
    if kind.None? {
      return Err(AppError(InvalidKind, None));
    }
    if FindByEmailOrCnpj(db.institutions, dto.email, dto.cnpj).Some? {
      return Err(AppError(DuplicateInstitution, None));
    }
    InsertKeepsKeysUnique(db.institutions, NewInstitution(db.nextId, dto, kind.value, hash));
    var id := db.FreshId();
    var rec := NewInstitution(id, dto, kind.value, hash);
    db.institutions := db.institutions + [rec];
    r := Ok(ProfileOf(rec));
  }
}
