/** The records of the adoption service: pets, status events, institutions and
    users, with the enumerations the code spells in Portuguese, and the two
    kinds of exception the services throw. */
module Domain {
  import opened Wrappers

  /** Identifiers. The store generates a fresh one per inserted row. */
  type Id = nat

  datatype Species = CACHORRO | GATO
  datatype Size = PEQUENO | MEDIO | GRANDE
  datatype Gender = MACHO | FEMEA

  /** The four values of `PetStatusType`; no other status can be represented. */
  datatype PetStatusType = DISPONIVEL | EM_PROCESSO | ADOTADO | INDISPONIVEL

  datatype InstitutionType = ONG | PREFEITURA

  function SpeciesName(s: Species): string {
    match s
    case CACHORRO => "CACHORRO"
    case GATO => "GATO"
  }

  function SizeName(s: Size): string {
    match s
    case PEQUENO => "PEQUENO"
    case MEDIO => "MEDIO"
    case GRANDE => "GRANDE"
  }

  function GenderName(g: Gender): string {
    match g
    case MACHO => "MACHO"
    case FEMEA => "FEMEA"
  }

  function InstitutionTypeName(t: InstitutionType): string {
    match t
    case ONG => "ONG"
    case PREFEITURA => "PREFEITURA"
  }

  /** A stored pet row. `isAvailable` is derived from the status ledger. */
  datatype Pet = Pet(
    id: Id,
    name: string,
    species: Species,
    breed: Option<string>,
    age: int,
    size: Size,
    gender: Gender,
    description: string,
    isVaccinated: bool,
    isNeutered: bool,
    photos: seq<string>,
    isAvailable: bool,
    institutionId: Id)

  /** A stored status event; `createdAt` is the value of the store's clock. */
  datatype StatusEvent = StatusEvent(
    id: Id,
    status: PetStatusType,
    description: Option<string>,
    petId: Id,
    institutionId: Id,
    createdAt: nat)

  /** A stored institution row; `password` holds the hash only. */
  datatype Institution = Institution(
    id: Id,
    name: string,
    email: string,
    cnpj: string,
    password: string,
    responsibleName: string,
    kind: InstitutionType,
    city: string,
    state: string,
    zipCode: string,
    address: string,
    latitude: Option<real>,
    longitude: Option<real>)

  /** A stored user row; `password` holds the hash only. */
  datatype User = User(
    id: Id,
    name: string,
    email: string,
    cpf: string,
    password: string,
    city: Option<string>,
    state: Option<string>,
    zipCode: Option<string>,
    address: Option<string>)

  /** A plain `Error` or an `AppError` with an optional explicit status code. */
  datatype Failure =
    | Error(message: string)
    | AppError(message: string, statusCode: Option<nat>)

  /** The two principal kinds a session token can carry. */
  datatype PrincipalKind = UserPrincipal | InstitutionPrincipal

  /** The principal a gate attaches to an accepted request. */
  datatype Principal = Principal(id: Id, kind: PrincipalKind)

  /** Message of every lookup of a pet by id that finds nothing. */
  const PetNotFound: string := "Pet não encontrado"
  /** Message of every lookup of the caller's institution that finds nothing. */
  const InstitutionNotFound: string := "Instituição não encontrada"
  /** bcrypt cost factor used for every stored password. */
  const SaltRounds: nat := 10

  /** Position of the first row of `s` satisfying `p`: the scan behind every
      `findUnique` and `findFirst` over a table. */
  function FindFirst<T>(s: seq<T>, p: T -> bool): (r: Option<nat>)
    ensures r.Some? ==> r.value < |s| && p(s[r.value])
    ensures r.Some? ==> forall k :: 0 <= k < r.value ==> !p(s[k])
    ensures r.None? ==> forall k :: 0 <= k < |s| ==> !p(s[k])
  {
    if s == [] then None
    else if p(s[0]) then Some(0)
    else
      match FindFirst(s[1..], p)
      case Some(i) => Some(i + 1)
      case None => None
  }

  /** The institution with the given id, as `findUnique({ where: { id } })`. */
  function FindInstitution(institutions: seq<Institution>, id: Id): (r: Option<Institution>)
    ensures r.Some? ==> r.value in institutions && r.value.id == id
    ensures r.None? ==> forall i :: i in institutions ==> i.id != id
  {
    match FindFirst(institutions, (i: Institution) => i.id == id)
    case Some(k) => Some(institutions[k])
    case None => None
  }
}
