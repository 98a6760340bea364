/** The persistence layer as one in-memory database: the pet, status-event,
    institution and user tables, an identifier generator standing for the
    store's generated ids, and a clock giving each status event a strictly
    later `createdAt` than every earlier one. */
module Store {
  import opened Wrappers
  import opened Domain
  import opened Ledger

  /** No two pet rows share an id. */
  ghost predicate PetIdsUnique(pets: seq<Pet>) {
    forall i, j :: 0 <= i < j < |pets| ==> pets[i].id != pets[j].id
  }

  /** No two institutions share an email, and none share a cnpj. */
  ghost predicate InstitutionKeysUnique(t: seq<Institution>) {
    forall i, j :: 0 <= i < j < |t| ==> t[i].email != t[j].email && t[i].cnpj != t[j].cnpj
  }

  /** No two users share an email, and none share a cpf. */
  ghost predicate UserKeysUnique(t: seq<User>) {
    forall i, j :: 0 <= i < j < |t| ==> t[i].email != t[j].email && t[i].cpf != t[j].cpf
  }

  /** Position of the pet row with the given id: `findUnique({ where: { id } })`. */
  function PetIndex(pets: seq<Pet>, id: Id): (r: Option<nat>)
    ensures r.Some? ==> r.value < |pets| && pets[r.value].id == id
    ensures r.None? ==> forall p :: p in pets ==> p.id != id
  {
    FindFirst(pets, (p: Pet) => p.id == id)
  }

  /** Unique keys, ids below the generator, event times below the clock and
      increasing in insertion order. */
  ghost predicate TablesWellFormed(pets: seq<Pet>, events: seq<StatusEvent>, institutions: seq<Institution>,
                                   users: seq<User>, nextId: nat, clock: nat)
  {
    && PetIdsUnique(pets)
    && (forall p :: p in pets ==> p.id < nextId)
    && (forall e :: e in events ==> e.petId < nextId && e.createdAt < clock)
    && Chronological(events)
    && InstitutionKeysUnique(institutions)
    && UserKeysUnique(users)
  }

  /** Every pet's flag agrees with its current status. */
  ghost predicate AllMatch(events: seq<StatusEvent>, pets: seq<Pet>) {
    forall p :: p in pets ==> AvailabilityMatches(events, p)
  }

  /** Every pet's flag, except possibly that of `petId`, agrees with its current status. */
  ghost predicate AllMatchExcept(events: seq<StatusEvent>, pets: seq<Pet>, petId: Id) {
    forall p :: p in pets && p.id != petId ==> AvailabilityMatches(events, p)
  }

  class Database {
    var pets: seq<Pet>
    var events: seq<StatusEvent>
    var institutions: seq<Institution>
    var users: seq<User>
    var nextId: nat
    var clock: nat

    /** The structural invariant every operation keeps. */
    ghost predicate WellFormed()
      reads this
    {
      TablesWellFormed(pets, events, institutions, users, nextId, clock)
    }

    /** Well formed, and every pet except possibly `petId` has the
        availability flag its current status dictates. */
    ghost predicate ValidExcept(petId: Id)
      reads this
    {
      WellFormed() && AllMatchExcept(events, pets, petId)
    }

    /** Well formed, and every pet's `isAvailable` equals
        (its current status is DISPONIVEL). */
    ghost predicate Valid()
      reads this
    {
      WellFormed() && AllMatch(events, pets)
    }

    constructor ()
      ensures Valid()
      ensures pets == [] && events == [] && institutions == [] && users == []
    {
      pets, events, institutions, users := [], [], [], [];
      nextId, clock := 0, 0;
    }

    /** Draws an identifier no row carries yet. */
    method FreshId() returns (id: Id)
      modifies this`nextId
      ensures id == old(nextId) && nextId == id + 1
    {
      id := nextId;
      nextId := nextId + 1;
    }
  }

  /** Overwriting a pet row in place, keeping its id, keeps ids unique. */
  lemma SetKeepsPetIdsUnique(pets: seq<Pet>, i: nat, p: Pet)
    requires PetIdsUnique(pets) && i < |pets| && p.id == pets[i].id
    ensures PetIdsUnique(pets[i := p])
  {
    var s := pets[i := p];
    forall a, b | 0 <= a < b < |s| ensures s[a].id != s[b].id {
      assert s[a].id == pets[a].id && s[b].id == pets[b].id;
    }
  }

  /** With unique ids, the row at the found position is the only one with that id. */
  lemma OnlyRowWithId(pets: seq<Pet>, i: nat, p: Pet)
    requires PetIdsUnique(pets) && i < |pets| && p in pets && p.id == pets[i].id
    ensures p == pets[i]
  {
    var k :| 0 <= k < |pets| && pets[k] == p;
    if k != i {
      assert false;
    }
  }

  /** Recording an event for the pet at position `i` and writing its flag back
      to (status == DISPONIVEL) makes every flag agree, provided all other
      pets' flags agreed before. */
  lemma RecordKeepsAvailability(pets: seq<Pet>, events: seq<StatusEvent>, i: nat, e: StatusEvent)
    requires PetIdsUnique(pets) && i < |pets| && e.petId == pets[i].id
    requires AllMatchExcept(events, pets, e.petId)
    ensures AllMatch(events + [e], pets[i := pets[i].(isAvailable := e.status == DISPONIVEL)])
  {
    var s := pets[i := pets[i].(isAvailable := e.status == DISPONIVEL)];
    forall p | p in s ensures AvailabilityMatches(events + [e], p) {
      var k :| 0 <= k < |s| && s[k] == p;
      CurrentAfterAppend(events, e, p.id);
      if k != i {
        assert p == pets[k] && p.id != e.petId;
      }
    }
  }

  /** Recording an event stamped with fresh id and time, and overwriting the
      pet's flag, keeps the tables well formed. */
  lemma RecordKeepsWellFormed(pets: seq<Pet>, events: seq<StatusEvent>, institutions: seq<Institution>,
                              users: seq<User>, nextId: nat, clock: nat, i: nat, e: StatusEvent)
    requires TablesWellFormed(pets, events, institutions, users, nextId, clock)
    requires i < |pets| && e.petId == pets[i].id && e.createdAt == clock
    ensures TablesWellFormed(pets[i := pets[i].(isAvailable := e.status == DISPONIVEL)], events + [e],
                             institutions, users, nextId + 1, clock + 1)
  {
    AppendKeepsChronological(events, e);
    SetKeepsPetIdsUnique(pets, i, pets[i].(isAvailable := e.status == DISPONIVEL));
    assert pets[i] in pets;
  }
}
