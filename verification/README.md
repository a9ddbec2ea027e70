# Blood bank entry controller, modelled in Dafny

This project models `BloodBankController`, the create/read/update/delete
surface of a small blood-bank REST service. The service keeps one
process-wide list of `BloodBankEntry` records, each keyed by a GUID `Id`.
The controller has five actions:

- get-all returns the list as it stands;
- get-by-id returns the first record with the given key, or 404;
- create validates a candidate record, gives it a new key and appends it
  (201), or answers 400;
- update looks up the key (404 if absent), then validates the candidate
  (400 if invalid), then overwrites the eight writable fields of the stored
  record in place (200);
- delete looks up the key (404 if absent) and removes that record (204).

The list is a `seq<Entry>`. Each action is a pure function from the list
and the request's inputs to a `Step`, which holds the new list and the
`Response`. The response constructor stands for the HTTP status, and the
404 and 400 responses carry the source's exact message strings.

Modules (one file each):

- `Entries` (`entries.dfy`): the record and its field types. A C# string
  is `Option<string>`, where `None` is null. A `DateTime` is its tick count,
  where zero is `default(DateTime)`. A `Guid` is a 128-bit number.
- `Validation` (`validation.dfy`): the six field constraints. They are
  evaluated in the source's short-circuit order, and the lemmas give the
  exact acceptance condition.
- `Store` (`store.dfy`): the set of keys, key uniqueness, and
  `FirstOrDefault(e => e.Id == id)` as `FindIndex`.
- `Controller` (`controller.dfy`): the five actions, the `Request` type and
  the routing function `Handle`.
- `Consistency` (`consistency.dfy`): the read-after-write round trips, the
  store invariant (unique keys, only valid records) across any series of
  requests, and the insertion order of get-all.
- `SeedData` (`seed.dfy`): the four sample donors at a symbolic current
  time, and a scenario over them.

Deleting uses `List.Remove(entry)`, which removes the first element equal
to the entry found, by `Equals`. That entry is the first one carrying the
key. If `Equals` is reference equality, an earlier equal element would be
the same object and so carry the same key. If it is value equality, the
comparison includes `Id`, so the same holds. Either way no such element
exists, and removing at the found position is exact, even when keys are not
unique.

Pagination, filtering and sorting, which other revisions of the service
add, are not part of this controller. A rejected candidate is not told which
constraint it failed: every 400 carries the one generic message "Invalid
input. Please check all fields.", and the model follows the code.
`Validation.Validate` still names the first failed constraint, but no
response exposes it.

## Model

| member | source | states |
|---|---|---|
| `Validation.FirstFailing` | Controllers/BloodBankController.cs:42-47 | Short-circuit evaluation of the `\|\|` chain: the result is the position of the first failed constraint, every earlier constraint passes, and the result is the list's length exactly when all constraints pass |
| `Validation.Validate` | Controllers/BloodBankController.cs:42-47 | A candidate is rejected exactly when it fails at least one of the six constraints; the reported constraint is one it fails, and every constraint evaluated before it passes |
| `Validation.ValidIffAllFieldsSet` | Controllers/BloodBankController.cs:71-76 | A candidate is accepted if and only if its donor name and blood type are non-null and non-empty, its age and quantity are positive, and neither date equals `default(DateTime)`; create and update share this condition |
| `Validation.UncheckedFieldsIgnored` | Controllers/BloodBankController.cs:42-47 | Changing the key, the contact information or the status never changes the verdict, because none of them is checked |
| `Store.FindIndex` | Controllers/BloodBankController.cs:27 | The lookup finds nothing exactly when the key is absent; otherwise it gives the position of the first record carrying the key |
| `Store.FindIndexOfUnique` | Controllers/BloodBankController.cs:63 | When keys are unique, looking up the key of the record at position `i` finds position `i` |
| `Store.FindIndexAt` | Controllers/BloodBankController.cs:98 | A key whose first occurrence is at position `k` is found at `k` |
| `Controller.GetAllEntries` | Controllers/BloodBankController.cs:18-21 | Returns the stored list itself, in insertion order |
| `Controller.GetEntryById` | Controllers/BloodBankController.cs:27-34 | Returns 200 exactly when the key is present, and the record returned is the first one carrying that key; otherwise returns 404 with "Entry not found." |
| `Controller.CreateEntry` | Controllers/BloodBankController.cs:42-56 | Returns 400 and leaves the list unchanged exactly when validation fails. Otherwise the list grows by one, the earlier records are untouched, and the last record has the new key and all of the candidate's writable fields; 201 returns that record |
| `Controller.Overwrite` | Controllers/BloodBankController.cs:82-89 | The updated record takes all eight writable fields from the candidate and keeps the stored record's key |
| `Controller.UpdateEntry` | Controllers/BloodBankController.cs:63-91 | An absent key gives 404 with the list unchanged, whatever the candidate (existence is checked first). A present key with an invalid candidate gives 400 with the list unchanged. Otherwise only the found record changes: it keeps its position and key, takes the candidate's writable fields, and is returned with 200 |
| `Controller.DeleteEntry` | Controllers/BloodBankController.cs:98-107 | An absent key gives 404 with the list unchanged. Otherwise 204, and the list is the old one with exactly the found position cut out |
| `Controller.Handle` | Controllers/BloodBankController.cs:18-107 | The two reads never change the list, and every 404 or 400 leaves the list as it was |
| `Consistency.CreateThenGet` | Controllers/BloodBankController.cs:53-56 | After a valid create with an unused key, reading that key returns the candidate with the new key |
| `Consistency.UpdateThenGet` | Controllers/BloodBankController.cs:82-91 | After a valid update of a present key, reading that key returns exactly the candidate under the original key |
| `Consistency.DeleteThenGet` | Controllers/BloodBankController.cs:98-107 | When keys are unique, reading a key after deleting it gives 404 |
| `Consistency.DeleteRemovesOne` | Controllers/BloodBankController.cs:105 | Delete takes out exactly the found record: the multiset of records loses that one record and nothing else |
| `Consistency.DeleteRemovesKey` | Controllers/BloodBankController.cs:98-105 | When keys are unique, delete removes exactly the deleted key from the key set, and keys stay unique |
| `Consistency.WritesAndKeys` | Controllers/BloodBankController.cs:53-89 | A valid create adds exactly the new key to the key set, and an update never changes the key set |
| `Consistency.CreateKeepsUnique` | Controllers/BloodBankController.cs:53-54 | With unique keys beforehand, keys stay unique after a create, given an unused key when the candidate is valid, whether or not the stored records are valid |
| `Consistency.UpdateKeepsUnique` | Controllers/BloodBankController.cs:82-89 | With unique keys beforehand, keys stay unique after an update, whether or not the stored records are valid |
| `Consistency.CreateKeepsConsistent` | Controllers/BloodBankController.cs:42-54 | Create keeps keys unique and every stored record valid, given an unused key when the candidate is valid |
| `Consistency.UpdateKeepsConsistent` | Controllers/BloodBankController.cs:63-89 | Update keeps keys unique and every stored record valid: keys stay in place, and an overwritten record passed validation |
| `Consistency.DeleteKeepsConsistent` | Controllers/BloodBankController.cs:98-105 | Delete keeps keys unique and every stored record valid |
| `Consistency.HandleKeepsConsistent` | Controllers/BloodBankController.cs:39-107 | Every request keeps keys unique and every stored record valid, provided a valid create brings an unused key |
| `Consistency.ReplayKeepsConsistent` | Controllers/BloodBankController.cs:14-107 | The same invariant holds after any series of requests in which each valid create brings a key unused at that moment |
| `Consistency.GetAllKeepsInsertionOrder` | Controllers/BloodBankController.cs:18-54 | After a series of valid creates, get-all returns the earlier list followed by the new records in creation order, each with its assigned key |
| `SeedData.Seed` | Data/InmemoryDataStore.cs:9-55 | The seed list holds four records with the given keys in order. All four pass validation exactly when the current time is not the single instant where Robert Brown's collection date (fifteen days back) falls on `default(DateTime)` |
| `SeedData.SeedWithEmptyKeys` | Data/InmemoryDataStore.cs:11-21 | With every seed key left at `Guid.Empty`, the seed list does not have unique keys, and a read of that key returns Aman Singh |
| `SeedData.SeedScenario` | Data/InmemoryDataStore.cs:22-32 | With distinct keys, the seed list keeps the store invariant and Jane Smith can be read. After she is deleted, reading her key gives 404 and the other three donors remain in order |

## Left out

- Routing, the `[ApiController]`/`[Route]`/`[Http*]` attributes and response rendering (`Ok`, `CreatedAtAction`, `NoContent`) are framework plumbing. Only the status and body are modelled, as `Response`.
- JSON model binding and the framework's automatic model validation are not modelled. A missing body, or a body the entry class's own annotations reject, is answered with 400 by the framework before an action runs. So the 404-before-400 order of `Controller.UpdateEntry` is the action's own order, for bodies the framework accepts.
- `Guid.NewGuid()` is a parameter of create (`newId`). That the key is unused is a premise of the uniqueness lemmas rather than a precondition, because an invalid create never draws a key.
- `DateTime.Now` in the seed list is the parameter `now`. The initializers read it eight separate times; the model takes all eight reads as one instant, and the exact validity condition of `SeedData.Seed` holds under that reading. There is no date arithmetic beyond whole-day `AddDays`, and no calendar logic.
- Models/BloodBankEntry.cs is not part of this model. The field types follow their use in the controller: nullable strings, `int` age and quantity, `DateTime` dates, a `Guid` key. Age and quantity are only compared with zero, so unbounded integers stand in for the 32-bit ones.
- The seed initializers set no `Id`, and the entry class is not part of this model, so the seed keys are parameters and `SeedScenario` assumes they are distinct. If the entry class gives `Id` no initializer, all four seed records carry `Guid.Empty`. Then the starting list does not have unique keys (`SeedData.SeedWithEmptyKeys`), a read of `Guid.Empty` returns Aman Singh, and the invariant lemmas do not apply from startup.
- Concurrent access to the static list is not modelled: the source has no locking.
- In-place mutation of a shared object is modelled as replacing the record at its position. For example, a record returned by an earlier read is the same object the update changes, and that aliasing is not modelled.
- Pagination, filtering and sorting do not appear in this controller and are not modelled.
- There is no cross-field check, such as expiration after collection. The source has none, and none is added.
