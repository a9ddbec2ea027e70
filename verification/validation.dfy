/** The input check that create and update apply to a candidate record
    before it may enter the store. */
module Validation {
  import opened Entries

  /** The six field constraints, each named by the way it can fail. */
  datatype Check =
    | DonorNameMissing
    | AgeNotPositive
    | BloodTypeMissing
    | QuantityNotPositive
    | CollectionDateUnset
    | ExpirationDateUnset

  /** The constraints in the order `BloodBankController`'s `||` check evaluates them. */
  const Checks: seq<Check> := [
    DonorNameMissing, AgeNotPositive, BloodTypeMissing,
    QuantityNotPositive, CollectionDateUnset, ExpirationDateUnset
  ]

  /** Where a constraint stands in the evaluation order. */
  function Position(c: Check): (k: nat)
    ensures k < |Checks| && Checks[k] == c
  {
    match c
    case DonorNameMissing => 0
    case AgeNotPositive => 1
    case BloodTypeMissing => 2
    case QuantityNotPositive => 3
    case CollectionDateUnset => 4
    case ExpirationDateUnset => 5
  }

  /** What it means for a candidate to fail one constraint. */
  predicate Violates(e: Entry, c: Check) {
    match c
    case DonorNameMissing => IsNullOrEmpty(e.donorName)
    case AgeNotPositive => e.age <= 0
    case BloodTypeMissing => IsNullOrEmpty(e.bloodType)
    case QuantityNotPositive => e.quantity <= 0
    case CollectionDateUnset => e.collectionDate == DefaultDate
    case ExpirationDateUnset => e.expirationDate == DefaultDate
  }

  /** The body of the 400 response for a rejected candidate. */
  const InvalidInputMessage: string := "Invalid input. Please check all fields."

  /** Short-circuit evaluation of a list of constraints: the position of the
      first one the candidate fails, or `|cs|` when it passes them all. */
  function FirstFailing(e: Entry, cs: seq<Check>): (k: nat)
    ensures k <= |cs|
    ensures k < |cs| ==> Violates(e, cs[k])
    ensures forall i :: 0 <= i < k ==> !Violates(e, cs[i])
  {
    if |cs| == 0 then 0
    else if Violates(e, cs[0]) then 0
    else 1 + FirstFailing(e, cs[1..])
  }

  /** `BloodBankController`'s validation: the first failed constraint in evaluation
      order, or `None` for an acceptable candidate. */
  function Validate(e: Entry): (r: Option<Check>)
    ensures r.None? <==> forall c: Check :: !Violates(e, c)
    ensures r.Some? ==> Violates(e, r.value)
    ensures r.Some? ==> forall c: Check :: Position(c) < Position(r.value) ==> !Violates(e, c)
  {
    var k := FirstFailing(e, Checks);
    if k < |Checks| then Some(Checks[k])
    else
      PassingAllListedPassesEvery(e);
      None
  }

  /** Every constraint is in the list, so passing the list means passing all. */
  lemma PassingAllListedPassesEvery(e: Entry)
    requires forall i :: 0 <= i < |Checks| ==> !Violates(e, Checks[i])
    ensures forall c: Check :: !Violates(e, c)
  {
    forall c: Check
      ensures !Violates(e, c)
    {
      assert Checks[Position(c)] == c;
    }
  }

  predicate IsValid(e: Entry) {
    Validate(e).None?
  }

  /** Acceptance in `BloodBankController`'s own terms: a candidate passes exactly when
      the donor name and blood type are non-null and non-empty, age and
      quantity are positive, and both dates differ from the default. */
  lemma ValidIffAllFieldsSet(e: Entry)
    ensures IsValid(e) <==>
      && !IsNullOrEmpty(e.donorName)
      && e.age > 0
      && !IsNullOrEmpty(e.bloodType)
      && e.quantity > 0
      && e.collectionDate != DefaultDate
      && e.expirationDate != DefaultDate
  {
    if !IsValid(e) {
      var c := Validate(e).value;
      assert Violates(e, c);
    } else {
      assert !Violates(e, DonorNameMissing) && !Violates(e, AgeNotPositive);
      assert !Violates(e, BloodTypeMissing) && !Violates(e, QuantityNotPositive);
      assert !Violates(e, CollectionDateUnset) && !Violates(e, ExpirationDateUnset);
    }
  }

  /** The key, the contact information and the status take no part in
      validation: changing them never changes the verdict. */
  lemma UncheckedFieldsIgnored(e: Entry, id: Guid, contactInfo: Text, status: Text)
    ensures Validate(e.(id := id, contactInfo := contactInfo, status := status)) == Validate(e)
  {
  }
}
