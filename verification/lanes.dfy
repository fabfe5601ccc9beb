/** The 256-bit AVX2 operations of the block validator, each as what it does
    to the 32 byte lanes of a register. Lanes 0..15 form the low 128-bit half
    and lanes 16..31 the high half; lane 0 is the byte at the lowest address.
 */
module Lanes {
  import opened Bytes

  /** A 256-bit register viewed as 32 byte lanes. */
  type Vec = v: seq<byte> | |v| == 32 witness Zeros()

  /** `set1_epi8(0)` */
  function Zeros(): seq<byte>
  {
    seq(32, _ => 0)
  }

  /** `set1_epi8(x)`: every lane holds `x`. */
  function Set1(x: byte): Vec
  {
    seq(32, _ => x)
  }

  /** `shuffle_epi8(tbl, idx)`: lane `i` is 0 when bit 7 of `idx[i]` is set,
      and otherwise the entry of `tbl` picked by the low nibble of `idx[i]`
      within the 128-bit half that holds lane `i`. */
  function ShuffleEpi8(tbl: Vec, idx: Vec): Vec
  {
    seq(32, i requires 0 <= i < 32 =>
      if idx[i] >= 0x80 then 0 else tbl[16 * (i / 16) + idx[i] % 16])
  }

  /** `and_si256(srli_epi16(v, 4), set1_epi8(0x0F))`: the high nibble of
      every lane. The 16-bit shift moves bits of the neighbouring lane into
      bits 4..7, and the mask clears exactly those. */
  function HighNibbles(v: Vec): Vec
  {
    seq(32, i requires 0 <= i < 32 => v[i] / 16)
  }

  /** `subs_epu8(a, b)` */
  function SubsEpu8(a: Vec, b: Vec): Vec
  {
    seq(32, i requires 0 <= i < 32 => SubSat(a[i], b[i]))
  }

  /** `adds_epu8(a, b)` */
  function AddsEpu8(a: Vec, b: Vec): Vec
  {
    seq(32, i requires 0 <= i < 32 => AddSat(a[i], b[i]))
  }

  /** `sub_epi8(a, b)` */
  function SubEpi8(a: Vec, b: Vec): Vec
  {
    seq(32, i requires 0 <= i < 32 => SubWrap(a[i], b[i]))
  }

  /** `add_epi8(a, b)` */
  function AddEpi8(a: Vec, b: Vec): Vec
  {
    seq(32, i requires 0 <= i < 32 => AddWrap(a[i], b[i]))
  }

  /** `or_si256(a, b)` */
  function OrSi256(a: Vec, b: Vec): Vec
  {
    seq(32, i requires 0 <= i < 32 => Or(a[i], b[i]))
  }

  /** `cmpgt_epi8(a, b)`: a signed compare per lane. */
  function CmpgtEpi8(a: Vec, b: Vec): Vec
  {
    seq(32, i requires 0 <= i < 32 => GreaterSigned(a[i], b[i]))
  }

  /** `testz_si256(v, v)`: true when every bit of `v` is zero. */
  predicate TestzSi256(v: Vec)
  {
    forall i :: 0 <= i < 32 ==> v[i] == 0
  }

  /** `permute2x128_si256(a, b, 0x21)`: the high half of `a` followed by the
      low half of `b`. */
  function Permute2x128Hi0Lo1(a: Vec, b: Vec): Vec
  {
    seq(32, i requires 0 <= i < 32 => if i < 16 then a[16 + i] else b[i - 16])
  }

  /** `alignr_epi8(hi, lo, n)`: in each 128-bit half, the 32 bytes of `hi`'s
      half above `lo`'s half, shifted down by `n` bytes, low 16 bytes kept. */
  function AlignrEpi8(hi: Vec, lo: Vec, n: nat): Vec
  {
    seq(32, i requires 0 <= i < 32 =>
      var half := 16 * (i / 16);
      var j := i % 16 + n;
      if j < 16 then lo[half + j] else if j < 32 then hi[half + j - 16] else 0)
  }

  /** `push_last_byte_of_a_to_b` (k = 1), `push_last_2bytes_of_a_to_b`
      (k = 2) and `push_last_3bytes_of_a_to_b` (k = 3): pushing the last `k`
      bytes of `a` in front of `b` shifts `b` up by `k` lanes across the
      middle of the register, so lane `i` is `b[i - k]` when `i >= k` and
      `a[32 - k + i]` otherwise. */
  function PushLastBytes(k: nat, a: Vec, b: Vec): (r: Vec)
    requires 1 <= k <= 3
    ensures forall i :: 0 <= i < 32 ==> r[i] == Back(a, b, i, k)
  {
    AlignrEpi8(b, Permute2x128Hi0Lo1(a, b), 16 - k)
  }

  /** The byte `k` lanes before lane `i` of `b`, reaching back into the
      register `a` that precedes it in memory. */
  function Back(a: Vec, b: Vec, i: nat, k: nat): byte
    requires i < 32 && k <= 32
  {
    if i >= k then b[i - k] else a[32 - k + i]
  }

  /** A table whose two 128-bit halves are equal. */
  predicate Duplicated(tbl: Vec)
  {
    forall j :: 0 <= j < 16 ==> tbl[j] == tbl[16 + j]
  }

  /** Looking up `x` in a table through its low half: 0 when bit 7 is set. */
  function Lookup(tbl: Vec, x: byte): byte
  {
    if x >= 0x80 then 0 else tbl[x % 16]
  }

  /** Below 16 the lookup reads the entry the index names. */
  lemma LookupLow(tbl: Vec, x: byte)
    requires x < 16
    ensures Lookup(tbl, x) == tbl[x]
  {
    assert x % 16 == x;
  }

  /** On a table with equal halves, a shuffle is the same lookup in every
      lane, so it depends on the index byte only. */
  lemma ShuffleOfDuplicated(tbl: Vec, idx: Vec)
    requires Duplicated(tbl)
    ensures forall i :: 0 <= i < 32 ==> ShuffleEpi8(tbl, idx)[i] == Lookup(tbl, idx[i])
  {
    forall i | 0 <= i < 32
      ensures ShuffleEpi8(tbl, idx)[i] == Lookup(tbl, idx[i])
    {
      if idx[i] < 0x80 && i >= 16 {
        assert tbl[16 * (i / 16) + idx[i] % 16] == tbl[16 + idx[i] % 16];
      }
    }
  }

  /** `testz` of the or of two compare masks is true exactly when both masks
      are all zero. */
  lemma TestzOfOr(a: Vec, b: Vec)
    requires forall i :: 0 <= i < 32 ==> a[i] == 0 || a[i] == 0xFF
    requires forall i :: 0 <= i < 32 ==> b[i] == 0 || b[i] == 0xFF
    ensures TestzSi256(OrSi256(a, b)) <==> forall i :: 0 <= i < 32 ==> a[i] == 0 && b[i] == 0
  {
    assert forall i :: 0 <= i < 32 ==> OrSi256(a, b)[i] == Or(a[i], b[i]);
    forall i | 0 <= i < 32
      ensures Or(a[i], b[i]) == 0 <==> a[i] == 0 && b[i] == 0
    {
      OrMasks(a[i], b[i]);
    }
  }

  /** The or of two compare-mask bytes is zero exactly when both are zero. */
  lemma OrMasks(x: byte, y: byte)
    requires x == 0 || x == 0xFF
    requires y == 0 || y == 0xFF
    ensures Or(x, y) == 0 <==> x == 0 && y == 0
  {
  }
}
