/** What the block validator computes for one byte lane: the range index
    made from the byte and the three bytes before it, and the check of the
    byte against the [min, max] pair that index selects.
 */
module RangeIndex {
  import opened Bytes
  import opened Lanes
  import opened RangeTables
  import opened Table37

  /** `and(srli_epi16(input, 4), set1(0x0F))` in one lane. */
  function HighNibble(b: byte): byte
  {
    b / 16
  }

  /** `first_len` in one lane. */
  function FirstLen(b: byte): byte
  {
    Lookup(FirstLenTbl, HighNibble(b))
  }

  /** The initial `range` in one lane. */
  function FirstRange(b: byte): byte
  {
    Lookup(FirstRangeTbl, HighNibble(b))
  }

  /** `range2` in one lane, computed from the byte before it (`shift1`):
      `pos = prev - 0xEF` wrapping, then one lookup by `subs(pos, 240)` and
      one by `adds(pos, 112)`. The correction is 2 after E0, 3 after ED, 3
      after F0, 4 after F4 and 0 after every other byte: exactly the leads
      whose second byte has a narrower range than 80..BF. */
  function SecondByteAdjustment(prev: byte): (r: byte)
    ensures r ==
      if prev == 0xE0 then 2
      else if prev == 0xED then 3
      else if prev == 0xF0 then 3
      else if prev == 0xF4 then 4
      else 0
  {
    AdjustmentLookups(prev);
    var pos := SubWrap(prev, 0xEF);
    AddWrap(Lookup(DfEeTbl, SubSat(pos, 240)), Lookup(EfFeTbl, AddSat(pos, 112)))
  }

  /** The final `range` of a lane holding `b`, whose three preceding bytes
      are `p3`, `p2`, `p1` (nearest last). It lies in 0..15, so every
      range-table lookup reads one of the 16 entries: the or of the
      first-byte class (0 or 8) with the lookback classes (each 0..3) is at
      most 11 and the correction adds at most 4. */
  function RangeIndexOf(p3: byte, p2: byte, p1: byte, b: byte): (r: byte)
    ensures r <= 15
  {
    var a, b2, c := FirstLen(p1), SubSat(FirstLen(p2), 1), SubSat(FirstLen(p3), 2);
    FirstLenClass(p1);
    FirstLenClass(p2);
    FirstLenClass(p3);
    FirstRangeClass(b);
    IndexArithmetic(FirstRange(b), a, b2, c, SecondByteAdjustment(p1));
    OrLookback(a, b2, c);
    var range := Or(Or(Or(FirstRange(b), a), b2), c);
    AddWrap(range, SecondByteAdjustment(p1))
  }

  /** The lane of `error` is zero: neither `minv > b` nor `b > maxv`, both
      compared signed, for the pair the index selects. */
  predicate InRangeOf(idx: byte, b: byte)
  {
    && GreaterSigned(Lookup(RangeMinTbl, idx), b) == 0
    && GreaterSigned(b, Lookup(RangeMaxTbl, idx)) == 0
  }

  /** The block check passes the lane holding `b`. */
  predicate LocalOk(p3: byte, p2: byte, p1: byte, b: byte)
  {
    InRangeOf(RangeIndexOf(p3, p2, p1, b), b)
  }

  /** No lead byte among the three preceding bytes still expects a
      continuation byte at this position: the position is a sequence
      boundary as far as the lookback terms can tell. */
  predicate Clean(p3: byte, p2: byte, p1: byte)
  {
    Announced(p1) == 0 && Announced(p2) <= 1 && Announced(p3) <= 2
  }

  /** The number of continuation bytes a byte asks for when read as a
      first byte, by its high bits: none below C0, one for C0..DF, two for
      E0..EF, three for F0..FF. */
  function Announced(b: byte): nat
  {
    if b < 0xC0 then 0 else if b < 0xE0 then 1 else if b < 0xF0 then 2 else 3
  }

  /** `first_len` is the length of the sequence a first byte announces,
      minus one, by its high nibble. */
  lemma FirstLenClass(b: byte)
    ensures FirstLen(b) == Announced(b)
  {
  }

  /** The initial range index is 8 (non-ASCII first byte) for C0..FF and 0
      for everything else. */
  lemma FirstRangeClass(b: byte)
    ensures FirstRange(b) == if b >= 0xC0 then 8 else 0
  {
  }

  /** The two lookups of `range2` add up to the correction of the lead
      `prev`: one of the three byte ranges below decides each byte. */
  lemma AdjustmentLookups(prev: byte)
    ensures AddWrap(Lookup(DfEeTbl, SubSat(SubWrap(prev, 0xEF), 240)), Lookup(EfFeTbl, AddSat(SubWrap(prev, 0xEF), 112))) ==
      if prev == 0xE0 then 2
      else if prev == 0xED then 3
      else if prev == 0xF0 then 3
      else if prev == 0xF4 then 4
      else 0
  {
    if prev < 0xDF {
      AdjustmentBelowDf(prev);
    } else if prev <= 0xEE {
      AdjustmentDfToEe(prev);
    } else {
      AdjustmentEfToFf(prev);
    }
  }

  /** Below DF, `pos = prev - 0xEF` wraps to 0xF0..0xFF minus the distance,
      so neither lookup index has a low entry to read: both read 0. */
  lemma AdjustmentBelowDf(prev: byte)
    requires prev < 0xDF
    ensures Lookup(DfEeTbl, SubSat(SubWrap(prev, 0xEF), 240)) == 0
    ensures Lookup(EfFeTbl, AddSat(SubWrap(prev, 0xEF), 112)) == 0
  {
    var pos := SubWrap(prev, 0xEF);
    assert pos == prev + 256 - 0xEF;
    assert SubSat(pos, 240) == 0;
    assert AddSat(pos, 112) >= 0x80;
  }

  /** For DF..EE the first lookup reads entry `prev - 0xDF` of the DF..EE
      table, which is 2 for E0 and 3 for ED, and the second saturates to
      0xFF, which reads 0. */
  lemma AdjustmentDfToEe(prev: byte)
    requires 0xDF <= prev <= 0xEE
    ensures Lookup(DfEeTbl, SubSat(SubWrap(prev, 0xEF), 240)) ==
      if prev == 0xE0 then 2 else if prev == 0xED then 3 else 0
    ensures Lookup(EfFeTbl, AddSat(SubWrap(prev, 0xEF), 112)) == 0
  {
    var pos := SubWrap(prev, 0xEF);
    assert pos == prev + 256 - 0xEF;
    assert SubSat(pos, 240) == prev - 0xDF;
    assert AddSat(pos, 112) == 255;
    LookupLow(DfEeTbl, prev - 0xDF);
  }

  /** For EF..FE the second lookup reads entry `prev - 0xEF` of the EF..FE
      table, which is 3 for F0 and 4 for F4, and the first saturates to 0;
      FF lands on index 128, which reads 0. */
  lemma AdjustmentEfToFf(prev: byte)
    requires 0xEF <= prev
    ensures Lookup(DfEeTbl, SubSat(SubWrap(prev, 0xEF), 240)) == 0
    ensures Lookup(EfFeTbl, AddSat(SubWrap(prev, 0xEF), 112)) ==
      if prev == 0xF0 then 3 else if prev == 0xF4 then 4 else 0
  {
    var pos := SubWrap(prev, 0xEF);
    assert pos == prev - 0xEF;
    assert SubSat(pos, 240) == 0;
    if prev < 0xFF {
      var d := prev - 0xEF;
      assert AddSat(pos, 112) == 112 + d;
      assert (112 + d) % 16 == d;
      LookupLow(EfFeTbl, d);
    } else {
      assert AddSat(pos, 112) == 128;
    }
  }

  /** The arithmetic of a range index: the or of the first-byte class
      (0 or 8) with three lookback classes (each 0..3), plus a correction of
      at most 4, neither carries nor wraps. */
  lemma IndexArithmetic(fr: byte, a: byte, b: byte, c: byte, adj: byte)
    requires fr == 0 || fr == 8
    requires a <= 3 && b <= 3 && c <= 3 && adj <= 4
    ensures AddWrap(Or(Or(Or(fr, a), b), c), adj) == fr + Or(Or(a, b), c) + adj
  {
    OrLookback(a, b, c);
    OrSmall(fr, a);
    if fr == 8 {
      OrEight(a, b);
      OrEight(Or(a, b), c);
    }
  }

  /** The range table read as unsigned byte ranges: index 0 is 00..7F, 1..3
      are 80..BF, 4 is A0..BF, 5 is 80..9F, 6 is 90..BF, 7 is 80..8F, 8 is
      C2..F4, and the indices 9..15 (min 0x7F, max 0x80 signed) admit no
      byte at all. */
  lemma RangeTableMeaning(idx: byte, b: byte)
    requires idx < 16
    ensures InRangeOf(idx, b) <==>
      if idx == 0 then b <= 0x7F
      else if idx <= 3 then IsContinuation(b)
      else if idx == 4 then 0xA0 <= b <= 0xBF
      else if idx == 5 then 0x80 <= b <= 0x9F
      else if idx == 6 then 0x90 <= b <= 0xBF
      else if idx == 7 then 0x80 <= b <= 0x8F
      else if idx == 8 then 0xC2 <= b <= 0xF4
      else false
  {
    LookupLow(RangeMinTbl, idx);
    LookupLow(RangeMaxTbl, idx);
    RangeMinEntries(idx);
    RangeMaxEntries(idx);
    var lo, hi := RangeMinTbl[idx], RangeMaxTbl[idx];
    if idx <= 8 {
      SignedWindow(lo, hi, b);
    } else {
      assert Signed(lo) == 127 && Signed(hi) == -128;
    }
  }

  /** At a sequence boundary the lookback terms and the correction vanish,
      so the byte there passes exactly when it is ASCII or a legal lead
      byte C2..F4. */
  lemma LeadPosition(p3: byte, p2: byte, p1: byte, b: byte)
    requires Clean(p3, p2, p1)
    ensures LocalOk(p3, p2, p1, b) <==> b <= 0x7F || 0xC2 <= b <= 0xF4
  {
    FirstLenClass(p1);
    FirstLenClass(p2);
    FirstLenClass(p3);
    FirstRangeClass(b);
    IndexArithmetic(FirstRange(b), FirstLen(p1), SubSat(FirstLen(p2), 1), SubSat(FirstLen(p3), 2), SecondByteAdjustment(p1));
    OrZero(0);
    RangeTableMeaning(FirstRange(b), b);
  }

  /** The byte after a legal lead byte `b0` at a sequence boundary gets
      range index 4, 5, 6 or 7 after E0, ED, F0, F4, and the lead's
      `first_len` (1, 2 or 3) after any other lead, unless it is itself a
      first byte (C0..FF), which lands on an illegal index 9..15. */
  lemma SecondByteIndex(p3: byte, p2: byte, p1: byte, b0: byte, b1: byte)
    requires Clean(p3, p2, p1)
    requires 0xC2 <= b0 <= 0xF4
    ensures b1 < 0xC0 ==>
      RangeIndexOf(p2, p1, b0, b1) ==
        if b0 == 0xE0 then 4
        else if b0 == 0xED then 5
        else if b0 == 0xF0 then 6
        else if b0 == 0xF4 then 7
        else FirstLen(b0)
    ensures b1 >= 0xC0 ==> 9 <= RangeIndexOf(p2, p1, b0, b1) <= 15
  {
    FirstLenClass(b0);
    FirstLenClass(p1);
    FirstLenClass(p2);
    FirstRangeClass(b1);
    var m := FirstLen(b0);
    IndexArithmetic(FirstRange(b1), m, SubSat(FirstLen(p1), 1), SubSat(FirstLen(p2), 2), SecondByteAdjustment(b0));
    OrZero(m);
    OrZero(Or(m, 0));
  }

  /** `b1` is in the second-byte column of Table 3-7 for the lead `b0`. */
  predicate SecondByteFits(b0: byte, b1: byte)
  {
    if b0 == 0xE0 then 0xA0 <= b1 <= 0xBF
    else if b0 == 0xED then 0x80 <= b1 <= 0x9F
    else if b0 == 0xF0 then 0x90 <= b1 <= 0xBF
    else if b0 == 0xF4 then 0x80 <= b1 <= 0x8F
    else IsContinuation(b1)
  }

  /** The byte after a legal lead byte at a sequence boundary passes exactly
      when it is in the second-byte column of Table 3-7 for that lead. */
  lemma SecondPosition(p3: byte, p2: byte, p1: byte, b0: byte, b1: byte)
    requires Clean(p3, p2, p1)
    requires 0xC2 <= b0 <= 0xF4
    ensures LocalOk(p2, p1, b0, b1) <==> SecondByteFits(b0, b1)
  {
    SecondByteIndex(p3, p2, p1, b0, b1);
    FirstLenClass(b0);
    RangeTableMeaning(RangeIndexOf(p2, p1, b0, b1), b1);
  }

  /** Two bytes after a lead of a three- or four-byte sequence, past a
      continuation byte, the byte passes exactly when it is a continuation
      byte. */
  lemma ThirdPosition(p1: byte, b0: byte, b1: byte, b2: byte)
    requires Announced(p1) == 0
    requires Announced(b0) >= 2
    requires IsContinuation(b1)
    ensures LocalOk(p1, b0, b1, b2) <==> IsContinuation(b2)
  {
    FirstLenClass(b1);
    FirstRangeClass(b2);
    FirstLenClass(b0);
    FirstLenClass(p1);
    var c := SubSat(FirstLen(b0), 1);
    IndexArithmetic(FirstRange(b2), FirstLen(b1), c, SubSat(FirstLen(p1), 2), SecondByteAdjustment(b1));
    OrZero(c);
    RangeTableMeaning(RangeIndexOf(p1, b0, b1, b2), b2);
  }

  /** Three bytes after a four-byte lead, past two continuation bytes, the
      byte passes exactly when it is a continuation byte. */
  lemma FourthPosition(b0: byte, b1: byte, b2: byte, b3: byte)
    requires Announced(b0) == 3
    requires IsContinuation(b1) && IsContinuation(b2)
    ensures LocalOk(b0, b1, b2, b3) <==> IsContinuation(b3)
  {
    FirstLenClass(b0);
    FirstLenClass(b1);
    FirstLenClass(b2);
    FirstRangeClass(b3);
    IndexArithmetic(FirstRange(b3), FirstLen(b2), SubSat(FirstLen(b1), 1), SubSat(FirstLen(b0), 2), SecondByteAdjustment(b2));
    OrZero(0);
    OrZero(1);
    RangeTableMeaning(RangeIndexOf(b0, b1, b2, b3), b3);
  }
}
