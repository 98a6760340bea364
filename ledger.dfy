/** The status ledger as a value: the append-only sequence of status events in
    insertion order, and the two ordered selections the status service reads
    from it (a pet's history, newest first, and its current status). */
module Ledger {
  import opened Wrappers
  import opened Domain

  /** Events were appended with strictly increasing creation times. */
  ghost predicate Chronological(events: seq<StatusEvent>) {
    forall i, j :: 0 <= i < j < |events| ==> events[i].createdAt < events[j].createdAt
  }

  /** Strictly decreasing creation times: `orderBy: { createdAt: 'desc' }`. */
  ghost predicate NewestFirst(h: seq<StatusEvent>) {
    forall i, j :: 0 <= i < j < |h| ==> h[i].createdAt > h[j].createdAt
  }

  /** Every event of the given pet, latest appended first. Exactly the pet's
      events: each occurs as often as in the ledger, and nothing else occurs. */
  function History(events: seq<StatusEvent>, petId: Id): (h: seq<StatusEvent>)
    ensures |h| <= |events|
    ensures forall e :: e in h ==> e in events && e.petId == petId
    ensures forall e: StatusEvent :: e.petId == petId ==> multiset(h)[e] == multiset(events)[e]
    ensures forall e: StatusEvent :: e.petId != petId ==> multiset(h)[e] == 0
  {
    if events == [] then []
    else
      var prefix := events[..|events| - 1];
      var last := events[|events| - 1];
      assert events == prefix + [last];
      var rest := History(prefix, petId);
      if last.petId == petId then [last] + rest else rest
  }

  /** The newest event of the pet, or none when it has no history:
      `findFirst` with the same ordering. */
  function Current(events: seq<StatusEvent>, petId: Id): (r: Option<StatusEvent>)
  {
    var h := History(events, petId);
    if h == [] then None else Some(h[0])
  }

  /** The availability flag of `pet` agrees with its current status. */
  ghost predicate AvailabilityMatches(events: seq<StatusEvent>, pet: Pet) {
    var cur := Current(events, pet.id);
    cur.Some? && pet.isAvailable == (cur.value.status == DISPONIVEL)
  }

  /** Every event of a chronological ledger before its last one was created earlier. */
  lemma EarlierThanLast(events: seq<StatusEvent>)
    requires Chronological(events) && events != []
    ensures forall e :: e in events[..|events| - 1] ==> e.createdAt < events[|events| - 1].createdAt
  {
    var prefix := events[..|events| - 1];
    forall e | e in prefix ensures e.createdAt < events[|events| - 1].createdAt {
      var k :| 0 <= k < |prefix| && prefix[k] == e;
      assert events[k] == e;
    }
  }

  /** Putting an event in front of a newest-first sequence of earlier events
      keeps it newest first. */
  lemma ConsNewestFirst(last: StatusEvent, rest: seq<StatusEvent>)
    requires NewestFirst(rest)
    requires forall e :: e in rest ==> e.createdAt < last.createdAt
    ensures NewestFirst([last] + rest)
  {
    var h := [last] + rest;
    forall i, j | 0 <= i < j < |h| ensures h[i].createdAt > h[j].createdAt {
      assert h[j] == rest[j - 1];
      assert h[j] in rest;
      if i > 0 {
        assert h[i] == rest[i - 1];
      }
    }
  }

  /** History is ordered newest first whenever the ledger is chronological. */
  lemma {:induction false} HistoryIsNewestFirst(events: seq<StatusEvent>, petId: Id)
    requires Chronological(events)
    ensures NewestFirst(History(events, petId))
  {
    if events != [] {
      var prefix := events[..|events| - 1];
      var last := events[|events| - 1];
      assert Chronological(prefix);
      HistoryIsNewestFirst(prefix, petId);
      if last.petId == petId {
        EarlierThanLast(events);
        ConsNewestFirst(last, History(prefix, petId));
      }
    }
  }

  /** Appending an event puts it at the head of its pet's history and leaves
      every other pet's history as it was. */
  lemma HistoryAfterAppend(events: seq<StatusEvent>, e: StatusEvent, petId: Id)
    ensures History(events + [e], petId)
      == if e.petId == petId then [e] + History(events, petId) else History(events, petId)
  {
    assert (events + [e])[..|events + [e]| - 1] == events;
  }

  /** The current status is the newest event of the pet: it belongs to the
      pet, it is in the ledger, and no event of the pet is later. It is
      absent exactly when the pet has no event. */
  lemma CurrentIsLatest(events: seq<StatusEvent>, petId: Id)
    requires Chronological(events)
    ensures Current(events, petId).None? <==> forall e :: e in events ==> e.petId != petId
    ensures Current(events, petId).Some? ==>
      var c := Current(events, petId).value;
      && c in events && c.petId == petId
      && forall e :: e in events && e.petId == petId ==> e.createdAt <= c.createdAt
  {
    var h := History(events, petId);
    HistoryIsNewestFirst(events, petId);
    forall e | e in events && e.petId == petId ensures e in h {
      assert multiset(events)[e] > 0;
    }
    if h != [] {
      forall e | e in events && e.petId == petId ensures e.createdAt <= h[0].createdAt {
        var k :| 0 <= k < |h| && h[k] == e;
      }
    }
  }

  /** Appending an event makes it the current status of its pet and leaves
      every other pet's current status unchanged. */
  lemma CurrentAfterAppend(events: seq<StatusEvent>, e: StatusEvent, petId: Id)
    ensures Current(events + [e], petId)
      == if e.petId == petId then Some(e) else Current(events, petId)
  {
    HistoryAfterAppend(events, e, petId);
  }

  /** Appending an event with a later creation time keeps the ledger chronological. */
  lemma AppendKeepsChronological(events: seq<StatusEvent>, e: StatusEvent)
    requires Chronological(events)
    requires forall x :: x in events ==> x.createdAt < e.createdAt
    ensures Chronological(events + [e])
  {
    var s := events + [e];
    forall i, j | 0 <= i < j < |s| ensures s[i].createdAt < s[j].createdAt {
      if j == |events| {
        assert s[i] in events;
      }
    }
  }
}
