/** The status service: records a status event for a pet and writes the pet's
    availability flag back, and reads a pet's current status. */
module PetStatusService {
  import opened Wrappers
  import opened Domain
  import opened Ledger
  import opened Store

  const NoStatusPermission: string := "Você não tem permissão para alterar o status deste pet"
  const NoStatusFound: string := "Nenhum status encontrado para este pet"

  datatype CreatePetStatusData = CreatePetStatusData(
    status: PetStatusType,
    description: Option<string>,
    petId: Id,
    institutionId: Id)

  /** Appends one event for an existing pet owned by the caller and sets the
      pet's `isAvailable` to (status == DISPONIVEL). An absent pet fails
      first, then a pet of another institution; a failure writes nothing. */
  method CreateStatus(db: Database, data: CreatePetStatusData) returns (r: Result<StatusEvent, Failure>)
    requires db.WellFormed()
    modifies db
    ensures db.WellFormed()
    ensures r.Err? ==> unchanged(db)
    ensures old(PetIndex(db.pets, data.petId)).None? ==> r == Err(Error(PetNotFound))
    ensures old(PetIndex(db.pets, data.petId)).Some? ==>
      var i := old(PetIndex(db.pets, data.petId)).value;
      if old(db.pets[i].institutionId) != data.institutionId then
        r == Err(Error(NoStatusPermission))
      else
        && r == Ok(StatusEvent(old(db.nextId), data.status, data.description,
                               data.petId, data.institutionId, old(db.clock)))
        && db.events == old(db.events) + [r.value]
        && db.pets == old(db.pets)[i := old(db.pets[i]).(isAvailable := data.status == DISPONIVEL)]
        && db.institutions == old(db.institutions) && db.users == old(db.users)
        && db.nextId == old(db.nextId) + 1 && db.clock == old(db.clock) + 1
        && Current(db.events, data.petId) == Some(r.value)
    ensures r.Ok? && old(db.ValidExcept(data.petId)) ==> db.Valid()
  {
    var found := PetIndex(db.pets, data.petId);
    if found.None? {
      return Err(Error(PetNotFound));
    }
    var i := found.value;
    if db.pets[i].institutionId != data.institutionId {
      return Err(Error(NoStatusPermission));
    }
    var event := RecordStatus(db, i, data);
    r := Ok(event);
  }

  /** The writes of `createStatus` once the checks have passed: the event,
      stamped with a fresh id and the current time, is appended and the pet's
      flag is set from it; the event becomes the pet's current status. */
  method RecordStatus(db: Database, i: nat, data: CreatePetStatusData) returns (event: StatusEvent)
    requires db.WellFormed() && i < |db.pets| && db.pets[i].id == data.petId
    modifies db
    ensures db.WellFormed()
    ensures event == StatusEvent(old(db.nextId), data.status, data.description,
                                 data.petId, data.institutionId, old(db.clock))
    ensures db.events == old(db.events) + [event]
    ensures db.pets == old(db.pets)[i := old(db.pets[i]).(isAvailable := data.status == DISPONIVEL)]
    ensures db.institutions == old(db.institutions) && db.users == old(db.users)
    ensures db.nextId == old(db.nextId) + 1 && db.clock == old(db.clock) + 1
    ensures Current(db.events, data.petId) == Some(event)
    ensures old(db.ValidExcept(data.petId)) ==> db.Valid()
  {
    event := StatusEvent(db.nextId, data.status, data.description, data.petId, data.institutionId, db.clock);
    var pets := db.pets[i := db.pets[i].(isAvailable := data.status == DISPONIVEL)];
    var events := db.events + [event];
    RecordKeepsWellFormed(db.pets, db.events, db.institutions, db.users, db.nextId, db.clock, i, event);
    if db.ValidExcept(data.petId) {
      RecordKeepsAvailability(db.pets, db.events, i, event);
    }
    CurrentAfterAppend(db.events, event, data.petId);
    db.nextId, db.clock, db.pets, db.events := db.nextId + 1, db.clock + 1, pets, events;
  }

  /** `getCurrentStatus`: the head of the pet's newest-first history, or the
      "no status" error exactly when that history is empty. */
  function GetCurrentStatus(events: seq<StatusEvent>, petId: Id): (r: Result<StatusEvent, Failure>)
    ensures r.Err? <==> History(events, petId) == []
    ensures r.Err? ==> r.error == Error(NoStatusFound)
    ensures r.Ok? ==> r.value == History(events, petId)[0] && r.value.petId == petId && r.value in events
  {
    match Current(events, petId)
    case None => Err(Error(NoStatusFound))
    case Some(e) => Ok(e)
  }
}
