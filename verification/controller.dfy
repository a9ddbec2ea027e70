/** `BloodBankController`: the five HTTP actions over the shared store, each
    a pure function from the store (and the request's inputs) to the new
    store and the response the action renders. */
module Controller {
  import opened Entries
  import opened Validation
  import opened Store

  /** The body of every 404 response. */
  const EntryNotFoundMessage: string := "Entry not found."

  /** What an action renders; the HTTP status is the constructor. */
  datatype Response =
    | OkList(entries: seq<Entry>)   // 200 with the whole list
    | OkEntry(entry: Entry)         // 200 with one record
    | Created(entry: Entry)         // 201 pointing at the new record
    | NoContent                     // 204
    | NotFound(message: string)     // 404
    | BadRequest(message: string)   // 400

  /** The store after an action, and the action's response. */
  datatype Step = Step(store: Store, response: Response)

  /** An action that rejects its request and writes nothing. */
  predicate Rejected(step: Step, s: Store) {
    (step.response.NotFound? || step.response.BadRequest?) && step.store == s
  }

  /** `GetAllEntries`: the list itself, unchanged and in insertion order. */
  function GetAllEntries(s: Store): (r: Response)
    ensures r.OkList? && r.entries == s
  {
    OkList(s)
  }

  /** `GetEntryById`: the first record carrying the key, or 404. */
  function GetEntryById(s: Store, id: Guid): (r: Response)
    ensures r.OkEntry? <==> id in Ids(s)
    ensures r.OkEntry? ==> r.entry.id == id
    ensures r.OkEntry? ==> exists k :: 0 <= k < |s| && s[k] == r.entry
                             && forall j :: 0 <= j < k ==> s[j].id != id
    ensures !r.OkEntry? ==> r == NotFound(EntryNotFoundMessage)
  {
    match FindIndex(s, id)
    case None => NotFound(EntryNotFoundMessage)
    case Some(k) => OkEntry(s[k])
  }

  /** `CreateEntry`: reject an invalid candidate; otherwise give it the key
      `newId` (the value `Guid.NewGuid()` returned) and append it. */
  function CreateEntry(s: Store, candidate: Entry, newId: Guid): (r: Step)
    ensures !IsValid(candidate) <==> Rejected(r, s)
    ensures !IsValid(candidate) ==> r.response == BadRequest(InvalidInputMessage)
    ensures IsValid(candidate) ==>
      && |r.store| == |s| + 1
      && r.store[..|s|] == s
      && r.store[|s|].id == newId
      && SameWritableFields(r.store[|s|], candidate)
      && r.response == Created(r.store[|s|])
  {
    if !IsValid(candidate) then
      Step(s, BadRequest(InvalidInputMessage))
    else
      var created := candidate.(id := newId);
      Step(s + [created], Created(created))
  }

  /** The record an update leaves behind: every writable field taken from
      the candidate, the key kept from the stored record. */
  function Overwrite(existing: Entry, candidate: Entry): (r: Entry)
    ensures r.id == existing.id
    ensures SameWritableFields(r, candidate)
  {
    existing
      .(donorName := candidate.donorName)
      .(age := candidate.age)
      .(bloodType := candidate.bloodType)
      .(contactInfo := candidate.contactInfo)
      .(quantity := candidate.quantity)
      .(collectionDate := candidate.collectionDate)
      .(expirationDate := candidate.expirationDate)
      .(status := candidate.status)
  }

  /** `UpdateEntry`: 404 for an absent key (checked before the candidate),
      400 for an invalid candidate, otherwise overwrite the first record
      carrying the key in place. */
  function UpdateEntry(s: Store, id: Guid, candidate: Entry): (r: Step)
    ensures id !in Ids(s) ==> r == Step(s, NotFound(EntryNotFoundMessage))
    ensures id in Ids(s) && !IsValid(candidate) ==> r == Step(s, BadRequest(InvalidInputMessage))
    ensures id in Ids(s) && IsValid(candidate) ==>
      var k := FindIndex(s, id).value;
      && |r.store| == |s|
      && r.store[k].id == id
      && SameWritableFields(r.store[k], candidate)
      && (forall j :: 0 <= j < |s| && j != k ==> r.store[j] == s[j])
      && r.response == OkEntry(r.store[k])
  {
    match FindIndex(s, id)
    case None => Step(s, NotFound(EntryNotFoundMessage))
    case Some(k) =>
      if !IsValid(candidate) then
        Step(s, BadRequest(InvalidInputMessage))
      else
        var updated := Overwrite(s[k], candidate);
        Step(s[k := updated], OkEntry(updated))
  }

  /** `DeleteEntry`: 404 for an absent key, otherwise remove the first record
      carrying it. `List.Remove` removes the first element equal by `Equals`
      to the one found. Under reference equality an earlier equal element
      would be the same object, and under value equality it would have the
      same key; either way it would have been found first, so the removal is
      at the found position. */
  function DeleteEntry(s: Store, id: Guid): (r: Step)
    ensures id !in Ids(s) ==> r == Step(s, NotFound(EntryNotFoundMessage))
    ensures id in Ids(s) ==>
      var k := FindIndex(s, id).value;
      && r.response == NoContent
      && |r.store| == |s| - 1
      && r.store[..k] == s[..k]
      && r.store[k..] == s[k + 1..]
  {
    match FindIndex(s, id)
    case None => Step(s, NotFound(EntryNotFoundMessage))
    case Some(k) => Step(s[..k] + s[k + 1..], NoContent)
  }

  /** One request to the controller. A create request carries the key that
      `Guid.NewGuid()` would produce for it. */
  datatype Request =
    | GetAll
    | GetById(id: Guid)
    | Create(candidate: Entry, newId: Guid)
    | Update(id: Guid, candidate: Entry)
    | Delete(id: Guid)

  /** Routing: each request to its action. Reads never write, and every
      rejected request leaves the store as it was. */
  function Handle(s: Store, req: Request): (r: Step)
    ensures req.GetAll? || req.GetById? ==> r.store == s
    ensures r.response.NotFound? || r.response.BadRequest? ==> r.store == s
  {
    match req
    case GetAll => Step(s, GetAllEntries(s))
    case GetById(id) => Step(s, GetEntryById(s, id))
    case Create(candidate, newId) => CreateEntry(s, candidate, newId)
    case Update(id, candidate) => UpdateEntry(s, id, candidate)
    case Delete(id) => DeleteEntry(s, id)
  }
}
