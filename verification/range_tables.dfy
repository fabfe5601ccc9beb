/** The constant tables of the block validator, as the bit patterns of their
    `int8_t` entries. Each is 16 entries repeated for both 128-bit halves,
    because a shuffle looks up within the half of its own lane.
 */
module RangeTables {
  import opened Lanes

  /** High nibble of a first byte to its sequence length minus one:
      00..BF to 0, C0..DF to 1, E0..EF to 2, F0..FF to 3. */
  const FirstLenTbl: Vec := [
    0, 0, 0, 0, 0, 0, 0, 0, 0, 0, 0, 0, 1, 1, 2, 3,
    0, 0, 0, 0, 0, 0, 0, 0, 0, 0, 0, 0, 1, 1, 2, 3
  ]

  /** High nibble of a first byte to range index 8 for C0..FF. */
  const FirstRangeTbl: Vec := [
    0, 0, 0, 0, 0, 0, 0, 0, 0, 0, 0, 0, 8, 8, 8, 8,
    0, 0, 0, 0, 0, 0, 0, 0, 0, 0, 0, 0, 8, 8, 8, 8
  ]

  /** Lowest legal byte per range index; 0x7F (127) for the illegal 9..15. */
  const RangeMinTbl: Vec := [
    0x00, 0x80, 0x80, 0x80, 0xA0, 0x80, 0x90, 0x80,
    0xC2, 0x7F, 0x7F, 0x7F, 0x7F, 0x7F, 0x7F, 0x7F,
    0x00, 0x80, 0x80, 0x80, 0xA0, 0x80, 0x90, 0x80,
    0xC2, 0x7F, 0x7F, 0x7F, 0x7F, 0x7F, 0x7F, 0x7F
  ]

  /** Highest legal byte per range index; 0x80 (-128) for the illegal 9..15. */
  const RangeMaxTbl: Vec := [
    0x7F, 0xBF, 0xBF, 0xBF, 0xBF, 0x9F, 0xBF, 0x8F,
    0xF4, 0x80, 0x80, 0x80, 0x80, 0x80, 0x80, 0x80,
    0x7F, 0xBF, 0xBF, 0xBF, 0xBF, 0x9F, 0xBF, 0x8F,
    0xF4, 0x80, 0x80, 0x80, 0x80, 0x80, 0x80, 0x80
  ]

  /** Range-index adjustment keyed by distance from DF: entry 1 is E0 (+2),
      entry 14 is ED (+3). */
  const DfEeTbl: Vec := [
    0, 2, 0, 0, 0, 0, 0, 0, 0, 0, 0, 0, 0, 0, 3, 0,
    0, 2, 0, 0, 0, 0, 0, 0, 0, 0, 0, 0, 0, 0, 3, 0
  ]

  /** Range-index adjustment keyed by distance from EF: entry 1 is F0 (+3),
      entry 5 is F4 (+4). */
  const EfFeTbl: Vec := [
    0, 3, 0, 0, 0, 4, 0, 0, 0, 0, 0, 0, 0, 0, 0, 0,
    0, 3, 0, 0, 0, 4, 0, 0, 0, 0, 0, 0, 0, 0, 0, 0
  ]

  /** The lower bounds in the low half, entry by entry. */
  lemma RangeMinEntries(j: nat)
    requires j < 16
    ensures RangeMinTbl[j] ==
      if j == 0 then 0x00
      else if j <= 3 then 0x80
      else if j == 4 then 0xA0
      else if j == 5 then 0x80
      else if j == 6 then 0x90
      else if j == 7 then 0x80
      else if j == 8 then 0xC2
      else 0x7F
  {
  }

  /** The upper bounds in the low half, entry by entry. */
  lemma RangeMaxEntries(j: nat)
    requires j < 16
    ensures RangeMaxTbl[j] ==
      if j == 0 then 0x7F
      else if j <= 3 then 0xBF
      else if j == 4 then 0xBF
      else if j == 5 then 0x9F
      else if j == 6 then 0xBF
      else if j == 7 then 0x8F
      else if j == 8 then 0xF4
      else 0x80
  {
  }

  /** All six tables hold the same 16 entries in both halves, so every
      shuffle through them is a plain lookup by the index byte. */
  lemma TablesDuplicated()
    ensures Duplicated(FirstLenTbl) && Duplicated(FirstRangeTbl)
    ensures Duplicated(RangeMinTbl) && Duplicated(RangeMaxTbl)
    ensures Duplicated(DfEeTbl) && Duplicated(EfFeTbl)
  {
    ClassTablesDuplicated();
    BoundTablesDuplicated();
    AdjustmentTablesDuplicated();
  }

  lemma ClassTablesDuplicated()
    ensures Duplicated(FirstLenTbl) && Duplicated(FirstRangeTbl)
  {
  }

  lemma BoundTablesDuplicated()
    ensures Duplicated(RangeMinTbl) && Duplicated(RangeMaxTbl)
  {
  }

  lemma AdjustmentTablesDuplicated()
    ensures Duplicated(DfEeTbl) && Duplicated(EfFeTbl)
  {
  }
}
