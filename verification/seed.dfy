/** The four sample donors the store starts with, with their dates taken
    relative to a symbolic current time, and a short scenario over them. */
module SeedData {
  import opened Entries
  import opened Validation
  import opened Store
  import opened Controller
  import opened Consistency

  const TicksPerDay: int := 864_000_000_000

  /** `DateTime.AddDays` for a whole number of days, within the range where
      it does not throw. */
  function AddDays(t: Ticks, days: int): (r: Ticks)
    requires 0 <= t + days * TicksPerDay <= MaxTicks
  {
    t + days * TicksPerDay
  }

  /** The current times for which building the seed list does not throw:
      fifteen days back and twenty-five days ahead stay inside DateTime. */
  predicate SeedableTime(now: Ticks) {
    15 * TicksPerDay <= now <= MaxTicks - 25 * TicksPerDay
  }

  function Donor(id: Guid, name: string, age: int, bloodType: string, contact: string,
                 quantity: int, collected: Ticks, expires: Ticks, status: string): (e: Entry)
  {
    Entry(id, Some(name), age, Some(bloodType), Some(contact), quantity, collected, expires, Some(status))
  }

  /** The seed list at time `now`, the records keyed by `ids` in order. */
  function Seed(now: Ticks, ids: seq<Guid>): (s: Store)
    requires SeedableTime(now)
    requires |ids| == 4
    ensures |s| == 4 && forall i :: 0 <= i < 4 ==> s[i].id == ids[i]
    ensures AllValid(s) <==> now != 15 * TicksPerDay
  {
    var s := [
      Donor(ids[0], "Aman Singh", 22, "O+", "aksingh230502@gmail.com", 500,
            AddDays(now, -5), AddDays(now, 25), "Available"),
      Donor(ids[1], "Jane Smith", 25, "O-", "jane.smith@example.com", 450,
            AddDays(now, -10), AddDays(now, 20), "Available"),
      Donor(ids[2], "John Doe", 30, "A+", "john.doe@example.com", 500,
            AddDays(now, -5), AddDays(now, 25), "Available"),
      Donor(ids[3], "Robert Brown", 40, "B+", "robert.brown@example.com", 600,
            AddDays(now, -15), AddDays(now, 15), "Expired")
    ];
    ValidIffAllFieldsSet(s[0]);
    ValidIffAllFieldsSet(s[1]);
    ValidIffAllFieldsSet(s[2]);
    ValidIffAllFieldsSet(s[3]);
    s
  }

  /** If the initializers leave every key at `Guid.Empty`, the seed list
      does not have unique keys, and a read of that key finds Aman Singh. */
  lemma SeedWithEmptyKeys(now: Ticks)
    requires SeedableTime(now)
    ensures !UniqueIds(Seed(now, [0, 0, 0, 0]))
    ensures GetEntryById(Seed(now, [0, 0, 0, 0]), 0) == OkEntry(Seed(now, [0, 0, 0, 0])[0])
    ensures Seed(now, [0, 0, 0, 0])[0].donorName == Some("Aman Singh")
  {
  }

  /** Four pairwise distinct keys. */
  predicate DistinctKeys(ids: seq<Guid>) {
    |ids| == 4 && forall i, j :: 0 <= i < j < 4 ==> ids[i] != ids[j]
  }

  /** With distinct keys, the seed list satisfies the store invariant (the
      one instant where Robert Brown's collection date falls on the default
      value aside), Jane Smith can be read, and after deleting her a read
      of her key is 404 while the other three keep their order. */
  lemma SeedScenario(now: Ticks, ids: seq<Guid>)
    requires SeedableTime(now) && now != 15 * TicksPerDay
    requires DistinctKeys(ids)
    ensures Consistent(Seed(now, ids))
    ensures GetEntryById(Seed(now, ids), ids[1]).OkEntry?
    ensures GetEntryById(Seed(now, ids), ids[1]).entry.donorName == Some("Jane Smith")
    ensures var s' := DeleteEntry(Seed(now, ids), ids[1]).store;
      && GetEntryById(s', ids[1]) == NotFound(EntryNotFoundMessage)
      && s' == [Seed(now, ids)[0], Seed(now, ids)[2], Seed(now, ids)[3]]
  {
  }
}
