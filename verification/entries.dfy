/** The single entity of the blood bank service: one blood-donation record,
    together with the value types its fields are built from. */
module Entries {

  /** A C# reference may be null; `None` stands for null. */
  datatype Option<+T> = None | Some(value: T)

  /** A C# `string` field, which model binding may leave null. */
  type Text = Option<string>

  /** `System.Guid` is a 128-bit value; `Guid.Empty` is zero. */
  const GuidCount: int := 0x1_0000_0000_0000_0000_0000_0000_0000_0000
  type Guid = x: int | 0 <= x < GuidCount

  /** `System.DateTime` as its tick count. `default(DateTime)` is the value
      with zero ticks, and two DateTime values are equal exactly when their
      tick counts are. */
  const MaxTicks: int := 3_155_378_975_999_999_999
  type Ticks = t: int | 0 <= t <= MaxTicks
  const DefaultDate: Ticks := 0

  /** One `BloodBankEntry`: the system-assigned key and the eight fields a
      client writes. */
  datatype Entry = Entry(
    id: Guid,
    donorName: Text,
    age: int,
    bloodType: Text,
    contactInfo: Text,
    quantity: int,
    collectionDate: Ticks,
    expirationDate: Ticks,
    status: Text)

  /** `string.IsNullOrEmpty`. */
  predicate IsNullOrEmpty(t: Text) {
    t.None? || |t.value| == 0
  }

  /** Two records agree on every client-writable field (everything but `id`). */
  predicate SameWritableFields(a: Entry, b: Entry) {
    && a.donorName == b.donorName
    && a.age == b.age
    && a.bloodType == b.bloodType
    && a.contactInfo == b.contactInfo
    && a.quantity == b.quantity
    && a.collectionDate == b.collectionDate
    && a.expirationDate == b.expirationDate
    && a.status == b.status
  }
}
