/** What the controller's actions guarantee together: read-after-write
    round trips, the store invariant (unique keys, only valid records), and
    insertion order. */
module Consistency {
  import opened Entries
  import opened Validation
  import opened Store
  import opened Controller

  /** Every stored record passed validation. */
  predicate AllValid(s: Store) {
    forall i :: 0 <= i < |s| ==> IsValid(s[i])
  }

  /** The store invariant: keys are unique and no invalid record is stored. */
  predicate Consistent(s: Store) {
    UniqueIds(s) && AllValid(s)
  }

  /** The key a valid create request draws is not in use yet (what a freshly
      drawn 128-bit GUID is relied on to be). An invalid create draws none. */
  predicate FreshFor(s: Store, req: Request) {
    req.Create? && IsValid(req.candidate) ==> req.newId !in Ids(s)
  }

  /** Reading a record back after creating it gives the candidate with its
      new key. */
  lemma CreateThenGet(s: Store, candidate: Entry, newId: Guid)
    requires IsValid(candidate)
    requires newId !in Ids(s)
    ensures GetEntryById(CreateEntry(s, candidate, newId).store, newId) == OkEntry(candidate.(id := newId))
  {
  }

  /** Reading a record back after updating it gives exactly the candidate's
      writable fields under the record's original key. */
  lemma UpdateThenGet(s: Store, id: Guid, candidate: Entry)
    requires id in Ids(s)
    requires IsValid(candidate)
    ensures GetEntryById(UpdateEntry(s, id, candidate).store, id) == OkEntry(candidate.(id := id))
  {
  }

  /** Once a key is deleted from a store with unique keys it is gone. */
  lemma DeleteThenGet(s: Store, id: Guid)
    requires UniqueIds(s)
    ensures GetEntryById(DeleteEntry(s, id).store, id) == NotFound(EntryNotFoundMessage)
  {
  }

  /** Delete takes out exactly the record it found: the multiset of records
      loses that one record and nothing else. */
  lemma DeleteRemovesOne(s: Store, id: Guid)
    requires id in Ids(s)
    ensures multiset(DeleteEntry(s, id).store) + multiset{s[FindIndex(s, id).value]} == multiset(s)
  {
    var k := FindIndex(s, id).value;
    RemoveAtKeepsOthers(s, k);
  }

  /** Cutting out one position loses exactly that element. */
  lemma RemoveAtKeepsOthers(s: Store, k: nat)
    requires k < |s|
    ensures multiset(s[..k] + s[k + 1..]) + multiset{s[k]} == multiset(s)
  {
    assert s == s[..k] + [s[k]] + s[k + 1..];
  }

  /** In a store with unique keys, delete removes exactly the one key. */
  lemma DeleteRemovesKey(s: Store, id: Guid)
    requires UniqueIds(s)
    requires id in Ids(s)
    ensures Ids(DeleteEntry(s, id).store) == Ids(s) - {id}
    ensures UniqueIds(DeleteEntry(s, id).store)
  {
  }

  /** Create adds exactly the new key; update keeps the set of keys. */
  lemma WritesAndKeys(s: Store, candidate: Entry, newId: Guid, id: Guid)
    ensures IsValid(candidate) ==> Ids(CreateEntry(s, candidate, newId).store) == Ids(s) + {newId}
    ensures Ids(UpdateEntry(s, id, candidate).store) == Ids(s)
  {
  }

  /** Key uniqueness alone survives a create, given an unused key when the
      candidate is valid; it does not depend on the stored records' validity. */
  lemma CreateKeepsUnique(s: Store, candidate: Entry, newId: Guid)
    requires UniqueIds(s)
    requires IsValid(candidate) ==> newId !in Ids(s)
    ensures UniqueIds(CreateEntry(s, candidate, newId).store)
  {
  }

  /** Key uniqueness alone survives an update: every key stays in place. */
  lemma UpdateKeepsUnique(s: Store, id: Guid, candidate: Entry)
    requires UniqueIds(s)
    ensures UniqueIds(UpdateEntry(s, id, candidate).store)
  {
  }

  /** A create keeps the store invariant, given an unused key when the
      candidate is valid. */
  lemma CreateKeepsConsistent(s: Store, candidate: Entry, newId: Guid)
    requires Consistent(s)
    requires IsValid(candidate) ==> newId !in Ids(s)
    ensures Consistent(CreateEntry(s, candidate, newId).store)
  {
  }

  /** An update keeps the store invariant: keys stay where they were and the
      overwritten record passed validation. */
  lemma UpdateKeepsConsistent(s: Store, id: Guid, candidate: Entry)
    requires Consistent(s)
    ensures Consistent(UpdateEntry(s, id, candidate).store)
  {
  }

  /** A delete keeps the store invariant. */
  lemma DeleteKeepsConsistent(s: Store, id: Guid)
    requires Consistent(s)
    ensures Consistent(DeleteEntry(s, id).store)
  {
  }

  /** Every request keeps the store invariant, given a fresh key for a
      create. */
  lemma HandleKeepsConsistent(s: Store, req: Request)
    requires Consistent(s)
    requires FreshFor(s, req)
    ensures Consistent(Handle(s, req).store)
  {
    match req
    case GetAll =>
    case GetById(_) =>
    case Create(candidate, newId) => CreateKeepsConsistent(s, candidate, newId);
    case Update(id, candidate) => UpdateKeepsConsistent(s, id, candidate);
    case Delete(id) => DeleteKeepsConsistent(s, id);
  }

  /** The store after a series of requests. */
  function Replay(s: Store, reqs: seq<Request>): (r: Store)
    decreases |reqs|
  {
    if |reqs| == 0 then s else Replay(Handle(s, reqs[0]).store, reqs[1..])
  }

  /** Each valid create in the series brings a key unused at the moment it runs. */
  predicate FreshThroughout(s: Store, reqs: seq<Request>)
    decreases |reqs|
  {
    |reqs| == 0 || (FreshFor(s, reqs[0]) && FreshThroughout(Handle(s, reqs[0]).store, reqs[1..]))
  }

  /** The store invariant holds across any series of requests. */
  lemma {:induction false} ReplayKeepsConsistent(s: Store, reqs: seq<Request>)
    requires Consistent(s)
    requires FreshThroughout(s, reqs)
    ensures Consistent(Replay(s, reqs))
    decreases |reqs|
  {
    if |reqs| > 0 {
      HandleKeepsConsistent(s, reqs[0]);
      ReplayKeepsConsistent(Handle(s, reqs[0]).store, reqs[1..]);
    }
  }

  /** The records a series of create requests would add, in request order. */
  function CreatedRecords(reqs: seq<Request>): (created: seq<Entry>)
    requires forall i :: 0 <= i < |reqs| ==> reqs[i].Create?
  {
    if |reqs| == 0 then []
    else [reqs[0].candidate.(id := reqs[0].newId)] + CreatedRecords(reqs[1..])
  }

  /** Get-all lists records in insertion order: after a series of valid
      creates it returns the earlier list followed by the new records in the
      order they were created. */
  lemma {:induction false} GetAllKeepsInsertionOrder(s: Store, reqs: seq<Request>)
    requires forall i :: 0 <= i < |reqs| ==> reqs[i].Create? && IsValid(reqs[i].candidate)
    ensures GetAllEntries(Replay(s, reqs)) == OkList(s + CreatedRecords(reqs))
    decreases |reqs|
  {
    if |reqs| > 0 {
      var s' := Handle(s, reqs[0]).store;
      assert s' == s + [reqs[0].candidate.(id := reqs[0].newId)];
      GetAllKeepsInsertionOrder(s', reqs[1..]);
      assert s + CreatedRecords(reqs) == s' + CreatedRecords(reqs[1..]);
    }
  }
}
