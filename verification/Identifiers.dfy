/** The UUIDv7 layout (section 5.7 of RFC 9562) that uuid7 assembles from a millisecond
    clock and 80 random bits. */
module Identifiers {

  const MASK_48: bv128 := 0xFFFF_FFFF_FFFF
  const MASK_12: bv128 := 0xFFF
  const MASK_62: bv128 := 0x3FFF_FFFF_FFFF_FFFF
  const RANDOM_LIMIT: bv128 := 0x1_0000_0000_0000_0000_0000

  // ----- The fields of an identifier, from the most significant one -----

  function Timestamp(id: bv128): bv128 {
    id >> 80
  }

  function Version(id: bv128): bv128 {
    (id >> 76) & 0xF
  }

  function RandA(id: bv128): bv128 {
    (id >> 64) & MASK_12
  }

  function Variant(id: bv128): bv128 {
    (id >> 62) & 0x3
  }

  function RandB(id: bv128): bv128 {
    id & MASK_62
  }

  /** Three fields placed around the version and the variant. */
  function Packed(timestamp48: bv128, randA: bv128, randB: bv128): bv128 {
    (timestamp48 << 80) | (0x7 << 76) | (randA << 64) | (0x2 << 62) | randB
  }

  /** The value that uuid7 builds. */
  function Assembled(timestamp: bv128, random: bv128): bv128 {
    Packed(timestamp & MASK_48, (random >> 68) & MASK_12, random & MASK_62)
  }

  /** The low 48 bits of the clock, version 7, variant 0b10, and 74 of the 80 random bits
      end up in their fields; no other number has these fields (FieldsDetermine). */
  method Uuid7(timestampMs: bv128, randomBits: bv128) returns (value: bv128)
    requires randomBits < RANDOM_LIMIT
    ensures Timestamp(value) == timestampMs & MASK_48
    ensures Version(value) == 0x7 && Variant(value) == 0x2
    ensures RandA(value) == randomBits >> 68 && RandB(value) == randomBits & MASK_62
  {
    value := (timestampMs & MASK_48) << 80;
    value := value | (0x7 << 76);
    value := value | (((randomBits >> 68) & MASK_12) << 64);
    value := value | (0x2 << 62);
    value := value | (randomBits & MASK_62);
    FieldsReadBack(timestampMs, randomBits);
  }

  /** Every field can be read back: the low 48 bits of the clock, version 7, variant 0b10,
      the top 12 random bits and the low 62. */
  lemma FieldsReadBack(timestamp: bv128, random: bv128)
    requires random < RANDOM_LIMIT
    ensures var id := Assembled(timestamp, random);
      && Timestamp(id) == timestamp & MASK_48
      && Version(id) == 0x7
      && RandA(id) == random >> 68
      && Variant(id) == 0x2
      && RandB(id) == random & MASK_62
  {
  }

  /** These fields leave no choice: an identifier that shows them is the assembled one. */
  lemma FieldsDetermine(id: bv128, timestamp: bv128, random: bv128)
    requires random < RANDOM_LIMIT
    requires Version(id) == 0x7 && Variant(id) == 0x2
    requires Timestamp(id) == timestamp & MASK_48 && RandA(id) == random >> 68 && RandB(id) == random & MASK_62
    ensures id == Assembled(timestamp, random)
  {
  }

  /** The parts that are or-ed together share no bit. */
  lemma PartsDisjoint(timestamp: bv128, random: bv128)
    ensures var a, b, c := (timestamp & MASK_48) << 80, 0x7 << 76, ((random >> 68) & MASK_12) << 64;
      var d, e := 0x2 << 62, random & MASK_62;
      && a & b == 0 && a & c == 0 && a & d == 0 && a & e == 0
      && b & c == 0 && b & d == 0 && b & e == 0
      && c & d == 0 && c & e == 0
      && d & e == 0
      && Assembled(timestamp, random) == a + b + c + d + e
  {
  }

  /** An identifier of the right version and variant is rebuilt from its own fields, so
      reading back and assembling are inverse to each other. */
  lemma RebuiltFromFields(id: bv128)
    requires Version(id) == 0x7 && Variant(id) == 0x2
    ensures Assembled(Timestamp(id), (RandA(id) << 68) | RandB(id)) == id
  {
  }

  /** A larger 48-bit timestamp gives a larger identifier, whatever the random bits. */
  lemma LaterIsLarger(t1: bv128, t2: bv128, r1: bv128, r2: bv128)
    requires t1 & MASK_48 < t2 & MASK_48
    ensures Assembled(t1, r1) < Assembled(t2, r2)
  {
  }

  /** Two identifiers coincide exactly when the clocks agree in 48 bits and the random
      numbers in their top 12 and low 62 bits; the six bits between are never used. */
  lemma CoincideExactly(t1: bv128, t2: bv128, r1: bv128, r2: bv128)
    requires r1 < RANDOM_LIMIT && r2 < RANDOM_LIMIT
    ensures Assembled(t1, r1) == Assembled(t2, r2)
       <==> t1 & MASK_48 == t2 & MASK_48 && r1 >> 68 == r2 >> 68 && r1 & MASK_62 == r2 & MASK_62
  {
    hide Packed, Timestamp, RandA, RandB, Version, Variant;
    FieldsReadBack(t1, r1);
    FieldsReadBack(t2, r2);
  }
}
