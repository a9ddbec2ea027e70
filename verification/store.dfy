/** The shared in-memory list of records and the key lookup every
    controller action starts from. */
module Store {
  import opened Entries

  /** The process-wide `List<BloodBankEntry>`, in insertion order. */
  type Store = seq<Entry>

  /** The keys present in a store. */
  function Ids(s: Store): (ids: set<Guid>) {
    set i | 0 <= i < |s| :: s[i].id
  }

  /** No key appears twice. */
  predicate UniqueIds(s: Store) {
    forall i, j :: 0 <= i < j < |s| ==> s[i].id != s[j].id
  }

  /** `FirstOrDefault(e => e.Id == id)`, as the position of the first record
      carrying the key, or `None` when no record does. */
  function FindIndex(s: Store, id: Guid): (r: Option<nat>)
    ensures r.None? <==> id !in Ids(s)
    ensures r.Some? ==> r.value < |s| && s[r.value].id == id
    ensures r.Some? ==> forall j :: 0 <= j < r.value ==> s[j].id != id
  {
    if |s| == 0 then None
    else if s[0].id == id then Some(0)
    else
      var r := FindIndex(s[1..], id);
      assert forall j :: 1 <= j < |s| ==> s[j] == s[1..][j - 1];
      if r.None? then None else Some(r.value + 1)
  }

  /** With unique keys the first record carrying a key is the only one. */
  lemma {:induction false} FindIndexOfUnique(s: Store, i: nat)
    requires UniqueIds(s)
    requires i < |s|
    ensures FindIndex(s, s[i].id) == Some(i)
  {
  }

  /** A key found at `k` with no earlier occurrence is found at `k`. */
  lemma FindIndexAt(s: Store, id: Guid, k: nat)
    requires k < |s| && s[k].id == id
    requires forall j :: 0 <= j < k ==> s[j].id != id
    ensures FindIndex(s, id) == Some(k)
  {
  }
}
