/** The pet controller: maps requests to pet-service calls and outcomes to
    HTTP status codes and bodies. */
module PetController {
  import opened Wrappers
  import opened Domain
  import opened Ledger
  import opened Store
  import PetService

  const DefaultPage: int := 1
  const DefaultLimit: int := 10

  datatype Body =
    | PetBody(pet: Pet)
    | PageBody(page: PetService.FindAllResult)
    | ErrorBody(error: string)
    | NoBody

  datatype HttpResponse = HttpResponse(status: nat, body: Body)

  /** The `GET /pets` query string, numbers already read. */
  datatype PetQuery = PetQuery(
    page: Option<int>,
    limit: Option<int>,
    species: Option<string>,
    size: Option<string>,
    gender: Option<string>,
    isAvailable: Option<string>)

  /** A service outcome as a response: the success status with its body, or
      the error status with `{ error: message }`. */
  function ToResponse(r: Result<Body, Failure>, okStatus: nat, errStatus: nat): (res: HttpResponse)
    ensures r.Ok? ==> res == HttpResponse(okStatus, r.value)
    ensures r.Err? ==> res == HttpResponse(errStatus, ErrorBody(r.error.message))
  {
    match r
    case Ok(b) => HttpResponse(okStatus, b)
    case Err(e) => HttpResponse(errStatus, ErrorBody(e.message))
  }

  /** `findAll`'s reading of the query: page 1 and limit 10 when absent,
      string filters passed through, and `isAvailable` always supplied, true
      only for the exact text "true". */
  function DecodeQuery(q: PetQuery): (p: PetService.FindAllParams)
    ensures p.page == if q.page.Some? then q.page.value else DefaultPage
    ensures p.limit == if q.limit.Some? then q.limit.value else DefaultLimit
    ensures p.species == q.species && p.size == q.size && p.gender == q.gender
    ensures p.isAvailable.Some? && (p.isAvailable.value <==> q.isAvailable == Some("true"))
  {
    PetService.FindAllParams(q.page.GetOr(DefaultPage), q.limit.GetOr(DefaultLimit),
                             q.species, q.size, q.gender, Some(q.isAvailable == Some("true")))
  }

  /** `GET /pets`: 200 with the page the service computes for the decoded query. */
  function FindAll(pets: seq<Pet>, q: PetQuery): (res: HttpResponse)
    requires q.page.GetOr(DefaultPage) >= 1 && q.limit.GetOr(DefaultLimit) >= 1
    ensures res.status == 200 && res.body.PageBody?
    ensures res.body.page == PetService.FindAll(pets, DecodeQuery(q))
  {
    HttpResponse(200, PageBody(PetService.FindAll(pets, DecodeQuery(q))))
  }

  /** Without an `isAvailable` query value, or with any value other than
      "true", the listing holds only pets that are not available; with
      "true" it holds only available ones. */
  lemma ListingAvailabilityFilter(pets: seq<Pet>, q: PetQuery)
    requires q.page.GetOr(DefaultPage) >= 1 && q.limit.GetOr(DefaultLimit) >= 1
    ensures forall p :: p in FindAll(pets, q).body.page.pets ==>
      p in pets && (p.isAvailable <==> q.isAvailable == Some("true"))
  {
  }

  /** `GET /pets/:id`: 200 with the pet, or 404 with the service's message. */
  function FindById(pets: seq<Pet>, id: Id): (res: HttpResponse)
    ensures (exists p :: p in pets && p.id == id) ==>
      res.status == 200 && res.body.PetBody? && res.body.pet in pets && res.body.pet.id == id
    ensures (forall p :: p in pets ==> p.id != id) ==> res == HttpResponse(404, ErrorBody(PetNotFound))
  {
    ToResponse(match PetService.FindById(pets, id)
               case Ok(p) => Ok(PetBody(p))
               case Err(e) => Err(e), 200, 404)
  }

  /** `POST /pets`: when the caller's institution is not stored, 400 and
      nothing is written; otherwise the service creates the pet for the
      caller and the answer is 201 with the stored row. */
  method Create(db: Database, user: Principal, body: PetService.CreatePetData) returns (res: HttpResponse)
    requires db.Valid()
    modifies db
    ensures db.Valid()
    ensures old(FindInstitution(db.institutions, user.id)).None? ==>
      res == HttpResponse(400, ErrorBody(InstitutionNotFound)) && unchanged(db)
    ensures old(FindInstitution(db.institutions, user.id)).Some? ==>
      && res == HttpResponse(201, PetBody(PetService.NewPet(old(db.nextId), body, user.id)))
      && db.pets == old(db.pets) + [res.body.pet]
      && db.events == old(db.events) + [StatusEvent(old(db.nextId) + 1, DISPONIVEL,
                                                    Some(PetService.InitialStatusDescription),
                                                    res.body.pet.id, user.id, old(db.clock))]
      && db.institutions == old(db.institutions) && db.users == old(db.users)
      && db.nextId == old(db.nextId) + 2 && db.clock == old(db.clock) + 1
      && Current(db.events, res.body.pet.id).Some?
      && Current(db.events, res.body.pet.id).value.status == DISPONIVEL
  {
    if FindInstitution(db.institutions, user.id).None? {
      return HttpResponse(400, ErrorBody(InstitutionNotFound));
    }
    var pet := PetService.Create(db, body, user.id);
    res := HttpResponse(201, PetBody(pet));
  }

  /** `PUT /pets/:id`: 200 with the updated pet, or 400 with the service's
      message (absent pet, or pet of another institution). */
  method Update(db: Database, user: Principal, id: Id, patch: PetService.PetPatch) returns (res: HttpResponse)
    requires db.Valid()
    modifies db
    ensures db.Valid()
    ensures res.status == 400 ==> unchanged(db)
    ensures old(PetIndex(db.pets, id)).None? ==> res == HttpResponse(400, ErrorBody(PetNotFound))
    ensures old(PetIndex(db.pets, id)).Some? ==>
      var i := old(PetIndex(db.pets, id)).value;
      if old(db.pets[i].institutionId) != user.id then
        res == HttpResponse(400, ErrorBody(PetService.NoUpdatePermission))
      else
        && res == HttpResponse(200, PetBody(PetService.ApplyPatch(old(db.pets[i]), patch)))
        && db.pets == old(db.pets)[i := PetService.ApplyPatch(old(db.pets[i]), patch)]
        && db.events == old(db.events)
        && db.institutions == old(db.institutions) && db.users == old(db.users)
        && db.nextId == old(db.nextId) && db.clock == old(db.clock)
  {
    var r := PetService.Update(db, id, patch, user.id);
    res := ToResponse(match r case Ok(p) => Ok(PetBody(p)) case Err(e) => Err(e), 200, 400);
  }

  /** `DELETE /pets/:id`: 204 without a body, or 400 with the service's message. */
  method Delete(db: Database, user: Principal, id: Id) returns (res: HttpResponse)
    requires db.Valid()
    modifies db
    ensures db.Valid()
    ensures res.status == 400 ==> unchanged(db)
    ensures old(PetIndex(db.pets, id)).None? ==> res == HttpResponse(400, ErrorBody(PetNotFound))
    ensures old(PetIndex(db.pets, id)).Some? ==>
      var i := old(PetIndex(db.pets, id)).value;
      if old(db.pets[i].institutionId) != user.id then
        res == HttpResponse(400, ErrorBody(PetService.NoDeletePermission))
      else
        && res == HttpResponse(204, NoBody)
        && db.pets == old(db.pets[..i]) + old(db.pets[i + 1..])
        && (forall p :: p in db.pets ==> p.id != id)
        && db.events == old(db.events)
        && db.institutions == old(db.institutions) && db.users == old(db.users)
        && db.nextId == old(db.nextId) && db.clock == old(db.clock)
  {
    var r := PetService.Delete(db, id, user.id);
    res := ToResponse(match r case Ok(_) => Ok(NoBody) case Err(e) => Err(e), 204, 400);
  }

  // ---------------------------------------------------------------------
  // The update body as it reaches the store

  /** A `PUT /pets/:id` body as the controller forwards it: the typed fields,
      plus the two pet columns the typed patch leaves out, should the client
      send them. */
  datatype RawPetBody = RawPetBody(fields: PetService.PetPatch, isAvailable: Option<bool>, institutionId: Option<Id>)

  /** The row `prisma.pet.update({ data: req.body })` writes: every column
      present in the body, the two protected ones included. */
  function ApplyRawBody(p: Pet, b: RawPetBody): (r: Pet)
    ensures r.id == p.id
    ensures r.isAvailable == (if b.isAvailable.Some? then b.isAvailable.value else p.isAvailable)
    ensures r.institutionId == (if b.institutionId.Some? then b.institutionId.value else p.institutionId)
    ensures r.(isAvailable := p.isAvailable, institutionId := p.institutionId) == PetService.ApplyPatch(p, b.fields)
  {
    PetService.ApplyPatch(p, b.fields).(isAvailable := b.isAvailable.GetOr(p.isAvailable),
                                        institutionId := b.institutionId.GetOr(p.institutionId))
  }

  /** Without the two protected keys the forwarded body is the typed patch. */
  lemma RawBodyWithoutProtectedKeys(p: Pet, d: PetService.PetPatch)
    ensures ApplyRawBody(p, RawPetBody(d, None, None)) == PetService.ApplyPatch(p, d)
  {
  }

  /** As written, a body carrying the negated flag desynchronises any pet
      from its ledger, and a body carrying another institution id hands the
      pet to that institution. */
  lemma RawBodyBreaksInvariants(events: seq<StatusEvent>, p: Pet, d: PetService.PetPatch, other: Id)
    requires AvailabilityMatches(events, p)
    ensures !AvailabilityMatches(events, ApplyRawBody(p, RawPetBody(d, Some(!p.isAvailable), None)))
    ensures ApplyRawBody(p, RawPetBody(d, None, Some(other))).institutionId == other
  {
  }
}
