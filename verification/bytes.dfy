/** Octets and the per-byte arithmetic of the 8-bit vector lanes.

    Every AVX2 operation the validator uses acts on each of its 32 byte lanes
    independently (except the lane shifts, modelled in module Lanes), so its
    meaning is one of the scalar functions below applied lane by lane.
 */
module Bytes {

  /** An octet, kept as an unbounded integer in 0..255. */
  type byte = x: int | 0 <= x < 256

  /** The value of a byte read through `signed char` / `int8_t` (two's complement). */
  function Signed(b: byte): int
  {
    if b < 128 then b else b - 256
  }

  /** Unsigned saturating subtraction of one lane (`subs_epu8`). */
  function SubSat(a: byte, b: byte): byte
  {
    if a > b then a - b else 0
  }

  /** Unsigned saturating addition of one lane (`adds_epu8`). */
  function AddSat(a: byte, b: byte): byte
  {
    if a + b > 255 then 255 else a + b
  }

  /** Wrapping subtraction of one lane (`sub_epi8`). */
  function SubWrap(a: byte, b: byte): byte
  {
    (a - b) % 256
  }

  /** Wrapping addition of one lane (`add_epi8`). */
  function AddWrap(a: byte, b: byte): byte
  {
    (a + b) % 256
  }

  /** Bitwise or of one lane (`or_si256`). */
  function Or(a: byte, b: byte): byte
  {
    ((a as bv8) | (b as bv8)) as int
  }

  /** Signed greater-than of one lane (`cmpgt_epi8`): all ones or all zeros. */
  function GreaterSigned(a: byte, b: byte): byte
  {
    if Signed(a) > Signed(b) then 0xFF else 0
  }

  /** The signed-char test `(signed char)b <= (signed char)0xBF` holds exactly
      for the continuation bytes 80..BF; its negation `> (int8_t)0xBF` holds
      exactly for the bytes that can start a sequence or are stray leads. */
  lemma SignedContinuationTest(b: byte)
    ensures Signed(b) <= Signed(0xBF) <==> 0x80 <= b <= 0xBF
  {
  }

  /** On two bounds in the same half of the byte range, a signed window
      is the unsigned window. */
  lemma SignedWindow(lo: byte, hi: byte, b: byte)
    requires (lo < 128) == (hi < 128)
    ensures Signed(lo) <= Signed(b) <= Signed(hi) <==> lo <= b <= hi
  {
  }

  /** The or of a first-byte class (0 or 8) with a lookback class (0..3). */
  lemma OrSmall(a: byte, b: byte)
    requires a == 0 || a == 8
    requires b <= 3
    ensures Or(a, b) == a + b
  {
  }

  /** Bit 3 passes through an or with a lookback class unchanged. */
  lemma OrEight(x: byte, y: byte)
    requires x <= 3 && y <= 3
    ensures Or(8 + x, y) == 8 + Or(x, y)
  {
  }

  /** The or of the three lookback terms of the range index stays in 0..3 and
      is zero exactly when all three are. */
  lemma OrLookback(a: byte, b: byte, c: byte)
    requires a <= 3 && b <= 3 && c <= 3
    ensures Or(Or(a, b), c) <= 3
    ensures Or(Or(a, b), c) == 0 <==> a == 0 && b == 0 && c == 0
    ensures a <= Or(Or(a, b), c) && b <= Or(Or(a, b), c) && c <= Or(Or(a, b), c)
  {
  }

  /** Or with zero is the identity on a lookback class. */
  lemma OrZero(a: byte)
    requires a <= 3
    ensures Or(a, 0) == a && Or(0, a) == a
  {
  }
}
