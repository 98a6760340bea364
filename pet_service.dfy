/** The pet registry: creating a pet together with its first status event,
    the filtered and paged listing, lookup by id, and the owner-only partial
    update and deletion. */
module PetService {
  import opened Wrappers
  import opened Domain
  import opened Ledger
  import opened Store
  import PetStatusService

  const NoUpdatePermission: string := "Você não tem permissão para atualizar este pet"
  const NoDeletePermission: string := "Você não tem permissão para excluir este pet"
  const InitialStatusDescription: string := "Pet cadastrado e disponível para adoção"

  /** The fields a client supplies when registering a pet. */
  datatype CreatePetData = CreatePetData(
    name: string,
    species: Species,
    breed: Option<string>,
    age: int,
    size: Size,
    gender: Gender,
    description: string,
    isVaccinated: bool,
    isNeutered: bool,
    photos: seq<string>)

  /** A partial update: every field of `CreatePetData`, each optional. It has
      no `isAvailable` and no `institutionId`. */
  datatype PetPatch = PetPatch(
    name: Option<string>,
    species: Option<Species>,
    breed: Option<string>,
    age: Option<int>,
    size: Option<Size>,
    gender: Option<Gender>,
    description: Option<string>,
    isVaccinated: Option<bool>,
    isNeutered: Option<bool>,
    photos: Option<seq<string>>)

  /** The row `create` inserts: the supplied fields, the caller as owner, available. */
  function NewPet(id: Id, data: CreatePetData, institutionId: Id): (p: Pet)
    ensures p.id == id && p.institutionId == institutionId && p.isAvailable
    ensures p.name == data.name && p.species == data.species && p.breed == data.breed
    ensures p.age == data.age && p.size == data.size && p.gender == data.gender
    ensures p.description == data.description && p.photos == data.photos
    ensures p.isVaccinated == data.isVaccinated && p.isNeutered == data.isNeutered
  {
    Pet(id, data.name, data.species, data.breed, data.age, data.size, data.gender,
        data.description, data.isVaccinated, data.isNeutered, data.photos, true, institutionId)
  }

  /** The row after a partial update: a supplied field takes the supplied
      value, an omitted one keeps the old value; id, owner and availability
      are never touched. */
  function ApplyPatch(p: Pet, d: PetPatch): (r: Pet)
    ensures r.id == p.id && r.institutionId == p.institutionId && r.isAvailable == p.isAvailable
    ensures r.name == (if d.name.Some? then d.name.value else p.name)
    ensures r.species == (if d.species.Some? then d.species.value else p.species)
    ensures r.breed == (if d.breed.Some? then d.breed else p.breed)
    ensures r.age == (if d.age.Some? then d.age.value else p.age)
    ensures r.size == (if d.size.Some? then d.size.value else p.size)
    ensures r.gender == (if d.gender.Some? then d.gender.value else p.gender)
    ensures r.description == (if d.description.Some? then d.description.value else p.description)
    ensures r.isVaccinated == (if d.isVaccinated.Some? then d.isVaccinated.value else p.isVaccinated)
    ensures r.isNeutered == (if d.isNeutered.Some? then d.isNeutered.value else p.isNeutered)
    ensures r.photos == (if d.photos.Some? then d.photos.value else p.photos)
  {
    p.(name := d.name.GetOr(p.name),
       species := d.species.GetOr(p.species),
       breed := if d.breed.Some? then d.breed else p.breed,
       age := d.age.GetOr(p.age),
       size := d.size.GetOr(p.size),
       gender := d.gender.GetOr(p.gender),
       description := d.description.GetOr(p.description),
       isVaccinated := d.isVaccinated.GetOr(p.isVaccinated),
       isNeutered := d.isNeutered.GetOr(p.isNeutered),
       photos := d.photos.GetOr(p.photos))
  }

  // ---------------------------------------------------------------------
  // Listing

  datatype FindAllParams = FindAllParams(
    page: int,
    limit: int,
    species: Option<string>,
    size: Option<string>,
    gender: Option<string>,
    isAvailable: Option<bool>)

  datatype FindAllResult = FindAllResult(pets: seq<Pet>, total: nat, page: int, totalPages: nat)

  /** A string filter constrains only when present and non-empty (JavaScript truthiness). */
  predicate Constrains(f: Option<string>) {
    f.Some? && f.value != ""
  }

  /** The `where` object of `findAll`: a conjunction of the supplied filters. */
  predicate Matches(p: Pet, q: FindAllParams) {
    && (Constrains(q.species) ==> SpeciesName(p.species) == q.species.value)
    && (Constrains(q.size) ==> SizeName(p.size) == q.size.value)
    && (Constrains(q.gender) ==> GenderName(p.gender) == q.gender.value)
    && (q.isAvailable.Some? ==> p.isAvailable == q.isAvailable.value)
  }

  /** The pets that satisfy the filter, in table order: each matching row as
      often as in the table, and nothing else. */
  function Filter(pets: seq<Pet>, q: FindAllParams): (r: seq<Pet>)
    ensures |r| <= |pets|
    ensures forall p :: p in r ==> p in pets && Matches(p, q)
    ensures forall p :: Matches(p, q) ==> multiset(r)[p] == multiset(pets)[p]
  {
    if pets == [] then []
    else
      assert pets == [pets[0]] + pets[1..];
      var rest := Filter(pets[1..], q);
      if Matches(pets[0], q) then [pets[0]] + rest else rest
  }

  /** `Math.ceil(n / d)` for a natural numerator and a positive divisor. */
  function CeilDiv(n: nat, d: nat): (r: nat)
    requires d > 0
    ensures r * d >= n && (r - 1) * d < n
  {
    if n == 0 then 0 else 1 + CeilDiv(if n >= d then n - d else 0, d)
  }

  /** At most `limit` elements of `s` starting at position `skip`. */
  function Window<T>(s: seq<T>, skip: nat, limit: nat): (w: seq<T>)
    ensures |w| == if skip >= |s| then 0 else if |s| - skip < limit then |s| - skip else limit
    ensures forall k :: 0 <= k < |w| ==> w[k] == s[skip + k]
  {
    if skip >= |s| then []
    else if |s| - skip < limit then s[skip..]
    else s[skip..skip + limit]
  }

  /** `findAll`: the same filter gives the count and the page; the page skips
      `(page - 1) * limit` matches and holds at most `limit` of them. */
  function FindAll(pets: seq<Pet>, q: FindAllParams): (r: FindAllResult)
    requires q.page >= 1 && q.limit >= 1
    ensures r.page == q.page
    ensures (q.page - 1) * q.limit >= 0
    ensures r.total == |Filter(pets, q)|
    ensures r.totalPages == CeilDiv(r.total, q.limit)
    ensures |r.pets| <= q.limit
    ensures r.pets != [] ==> (q.page - 1) * q.limit + |r.pets| <= r.total
    ensures |r.pets| < q.limit ==> (q.page - 1) * q.limit + |r.pets| >= r.total
    ensures forall k :: 0 <= k < |r.pets| ==> r.pets[k] == Filter(pets, q)[(q.page - 1) * q.limit + k]
    ensures forall p :: p in r.pets ==> p in pets && Matches(p, q)
  {
    var matches := Filter(pets, q);
    var skip := (q.page - 1) * q.limit;
    var items := Window(matches, skip, q.limit);
    WindowWithin(matches, skip, q.limit);
    FindAllResult(items, |matches|, q.page, CeilDiv(|matches|, q.limit))
  }

  /** Every element of a window is an element of the sequence. */
  lemma WindowWithin<T>(s: seq<T>, skip: nat, limit: nat)
    ensures forall x :: x in Window(s, skip, limit) ==> x in s
  {
    forall x | x in Window(s, skip, limit)
      ensures x in s
    {
      var w := Window(s, skip, limit);
      var k :| 0 <= k < |w| && w[k] == x;
      assert s[skip + k] == x;
    }
  }

  /** `findById`: the pet with that id, or "Pet não encontrado". */
  function FindById(pets: seq<Pet>, id: Id): (r: Result<Pet, Failure>)
    ensures r.Ok? <==> exists p :: p in pets && p.id == id
    ensures r.Ok? ==> r.value in pets && r.value.id == id
    ensures r.Err? ==> r.error == Error(PetNotFound)
  {
    match PetIndex(pets, id)
    case Some(i) => Ok(pets[i])
    case None => Err(Error(PetNotFound))
  }

  // ---------------------------------------------------------------------
  // Mutations

  /** Inserts the pet (available, owned by the caller) and records its first
      status event, DISPONIVEL, attributed to the same institution; returns the
      stored row. Its flag then agrees with its current status. */
  method Create(db: Database, data: CreatePetData, institutionId: Id) returns (pet: Pet)
    requires db.Valid()
    modifies db
    ensures db.Valid()
    ensures pet == NewPet(old(db.nextId), data, institutionId)
    ensures db.pets == old(db.pets) + [pet]
    ensures db.events == old(db.events) + [StatusEvent(old(db.nextId) + 1, DISPONIVEL,
                                                       Some(InitialStatusDescription), pet.id,
                                                       institutionId, old(db.clock))]
    ensures db.institutions == old(db.institutions) && db.users == old(db.users)
    ensures db.nextId == old(db.nextId) + 2 && db.clock == old(db.clock) + 1
    ensures Current(db.events, pet.id).Some? && Current(db.events, pet.id).value.status == DISPONIVEL
  {
    pet := InsertPet(db, data, institutionId);
    var status := PetStatusService.CreateStatus(db, PetStatusService.CreatePetStatusData(
      DISPONIVEL, Some(InitialStatusDescription), pet.id, institutionId));
    assert status.Ok?;
  }

  /** The row insertion of `create`: the new row is last and found by its id,
      and every other pet keeps an agreeing flag. */
  method InsertPet(db: Database, data: CreatePetData, institutionId: Id) returns (pet: Pet)
    requires db.Valid()
    modifies db
    ensures db.ValidExcept(pet.id)
    ensures pet == NewPet(old(db.nextId), data, institutionId)
    ensures db.pets == old(db.pets) + [pet] && PetIndex(db.pets, pet.id) == Some(|old(db.pets)|)
    ensures db.nextId == old(db.nextId) + 1 && db.clock == old(db.clock)
    ensures db.events == old(db.events)
    ensures db.institutions == old(db.institutions) && db.users == old(db.users)
  {
    InsertKeepsValidExcept(db.pets, db.events, db.institutions, db.users, db.nextId, db.clock,
                           NewPet(db.nextId, data, institutionId));
    var id := db.FreshId();
    pet := NewPet(id, data, institutionId);
    db.pets := db.pets + [pet];
    LastRowFound(db.pets, id);
  }

  /** In a table with unique ids, the lookup of the last row's id finds the last row. */
  lemma LastRowFound(pets: seq<Pet>, id: Id)
    requires PetIdsUnique(pets) && pets != [] && pets[|pets| - 1].id == id
    ensures PetIndex(pets, id) == Some(|pets| - 1)
  {
    var found := PetIndex(pets, id);
    if found.value != |pets| - 1 {
      assert false;
    }
  }

  /** Inserting a pet with a fresh id keeps the tables well formed, and every
      pet but the new one keeps an agreeing flag. */
  lemma InsertKeepsValidExcept(pets: seq<Pet>, events: seq<StatusEvent>, institutions: seq<Institution>,
                               users: seq<User>, nextId: nat, clock: nat, pet: Pet)
    requires TablesWellFormed(pets, events, institutions, users, nextId, clock)
    requires AllMatch(events, pets)
    requires pet.id == nextId
    ensures TablesWellFormed(pets + [pet], events, institutions, users, nextId + 1, clock)
    ensures AllMatchExcept(events, pets + [pet], pet.id)
  {
    var s := pets + [pet];
    forall i, j | 0 <= i < j < |s| ensures s[i].id != s[j].id {
      if j == |pets| {
        assert s[i] in pets;
      }
    }
  }

  /** `update`: an absent pet fails first, then a pet of another institution;
      a failure writes nothing. Otherwise only the supplied fields of that pet
      change. */
  method Update(db: Database, id: Id, patch: PetPatch, institutionId: Id) returns (r: Result<Pet, Failure>)
    requires db.Valid()
    modifies db
    ensures db.Valid()
    ensures r.Err? ==> unchanged(db)
    ensures old(PetIndex(db.pets, id)).None? ==> r == Err(Error(PetNotFound))
    ensures old(PetIndex(db.pets, id)).Some? ==>
      var i := old(PetIndex(db.pets, id)).value;
      if old(db.pets[i].institutionId) != institutionId then
        r == Err(Error(NoUpdatePermission))
      else
        && r == Ok(ApplyPatch(old(db.pets[i]), patch))
        && db.pets == old(db.pets)[i := r.value]
        && db.events == old(db.events)
        && db.institutions == old(db.institutions) && db.users == old(db.users)
        && db.nextId == old(db.nextId) && db.clock == old(db.clock)
  {
    var found := PetIndex(db.pets, id);
    if found.None? {
      return Err(Error(PetNotFound));
    }
    var i := found.value;
    if db.pets[i].institutionId != institutionId {
      return Err(Error(NoUpdatePermission));
    }
    var updated := ApplyPatch(db.pets[i], patch);
    SetKeepsPetIdsUnique(db.pets, i, updated);
    PatchKeepsAvailability(db.pets, db.events, i, patch);
    db.pets := db.pets[i := updated];
    r := Ok(updated);
  }

  /** A typed partial update leaves every flag agreeing with the ledger. */
  lemma PatchKeepsAvailability(pets: seq<Pet>, events: seq<StatusEvent>, i: nat, d: PetPatch)
    requires i < |pets| && AllMatch(events, pets)
    ensures AllMatch(events, pets[i := ApplyPatch(pets[i], d)])
  {
    var s := pets[i := ApplyPatch(pets[i], d)];
    forall p | p in s ensures AvailabilityMatches(events, p) {
      var k :| 0 <= k < |s| && s[k] == p;
      assert pets[k] in pets;
    }
  }

  /** `delete`: the same two checks in the same order, with the deletion
      message; a failure writes nothing. Otherwise exactly that row is removed,
      and the ledger keeps its events. */
  method Delete(db: Database, id: Id, institutionId: Id) returns (r: Result<(), Failure>)
    requires db.Valid()
    modifies db
    ensures db.Valid()
    ensures r.Err? ==> unchanged(db)
    ensures old(PetIndex(db.pets, id)).None? ==> r == Err(Error(PetNotFound))
    ensures old(PetIndex(db.pets, id)).Some? ==>
      var i := old(PetIndex(db.pets, id)).value;
      if old(db.pets[i].institutionId) != institutionId then
        r == Err(Error(NoDeletePermission))
      else
        && r == Ok(())
        && db.pets == old(db.pets[..i]) + old(db.pets[i + 1..])
        && (forall p :: p in db.pets ==> p.id != id)
        && db.events == old(db.events)
        && db.institutions == old(db.institutions) && db.users == old(db.users)
        && db.nextId == old(db.nextId) && db.clock == old(db.clock)
  {
    var found := PetIndex(db.pets, id);
    if found.None? {
      return Err(Error(PetNotFound));
    }
    var i := found.value;
    if db.pets[i].institutionId != institutionId {
      return Err(Error(NoDeletePermission));
    }
    RemoveKeepsValid(db.pets, db.events, db.institutions, db.users, db.nextId, db.clock, i);
    db.pets := db.pets[..i] + db.pets[i + 1..];
    r := Ok(());
  }

  /** Removing one pet row keeps the tables well formed and every remaining
      flag agreeing; no remaining row has the removed id. */
  lemma RemoveKeepsValid(pets: seq<Pet>, events: seq<StatusEvent>, institutions: seq<Institution>,
                         users: seq<User>, nextId: nat, clock: nat, i: nat)
    requires TablesWellFormed(pets, events, institutions, users, nextId, clock)
    requires AllMatch(events, pets) && i < |pets|
    ensures TablesWellFormed(pets[..i] + pets[i + 1..], events, institutions, users, nextId, clock)
    ensures AllMatch(events, pets[..i] + pets[i + 1..])
    ensures forall p :: p in pets[..i] + pets[i + 1..] ==> p.id != pets[i].id
  {
    var s := pets[..i] + pets[i + 1..];
    assert forall k :: 0 <= k < |s| ==> s[k] == pets[if k < i then k else k + 1];
    forall p | p in s ensures p in pets && p.id != pets[i].id {
      var k :| 0 <= k < |s| && s[k] == p;
      var m := if k < i then k else k + 1;
      assert p == pets[m] && m != i;
    }
  }
}
