/** One iteration of the `while (len >= 32)` loop of `utf8_valid`: the range
    index of every lane of a 32-byte block, the check of every lane against
    the [min, max] pair of its index, and the per-lane meaning of the whole
    computation.
 */
module Block {
  import opened Bytes
  import opened Lanes
  import opened RangeTables
  import opened RangeIndex

  /** Whether the block passed (`testz(error, error)`), and its `first_len`
      register, which becomes `prev_first_len` for the next block. */
  datatype BlockResult = BlockResult(ok: bool, firstLen: Vec)

  /** `first_len = shuffle_epi8(first_len_tbl, high_nibbles)` */
  function FirstLens(input: Vec): Vec
  {
    ShuffleEpi8(FirstLenTbl, HighNibbles(input))
  }

  /** The final `range` register: the first-byte class, or-ed with the
      lookback terms taken from `first_len` shifted by one, two and three
      lanes (the last two saturating down by 1 and 2), plus the correction
      `range2` computed from the input shifted by one lane. */
  function RangeIndices(prevInput: Vec, prevFirstLen: Vec, input: Vec, firstLen: Vec): Vec
  {
    var range := ShuffleEpi8(FirstRangeTbl, HighNibbles(input));
    var range1 := OrSi256(range, PushLastBytes(1, prevFirstLen, firstLen));
    var range2 := OrSi256(range1, SubsEpu8(PushLastBytes(2, prevFirstLen, firstLen), Set1(1)));
    var range3 := OrSi256(range2, SubsEpu8(PushLastBytes(3, prevFirstLen, firstLen), Set1(2)));
    var shift1 := PushLastBytes(1, prevInput, input);
    var pos := SubEpi8(shift1, Set1(0xEF));
    var adjust := ShuffleEpi8(DfEeTbl, SubsEpu8(pos, Set1(240)));
    var adjust2 := AddEpi8(adjust, ShuffleEpi8(EfFeTbl, AddsEpu8(pos, Set1(112))));
    AddEpi8(range3, adjust2)
  }

  /** The `error` register: all ones in every lane whose byte is below the
      `minv` or above the `maxv` of its range index, compared signed. */
  function ErrorMask(input: Vec, range: Vec): Vec
  {
    var minv := ShuffleEpi8(RangeMinTbl, range);
    var maxv := ShuffleEpi8(RangeMaxTbl, range);
    OrSi256(CmpgtEpi8(minv, input), CmpgtEpi8(input, maxv))
  }

  /** The loop body from the load of `input` to the `testz` test. The
      `first_len` register it hands on holds `FirstLen` of its bytes, and,
      when the carried registers agree in the same way, the block passes
      exactly when every lane passes the local check on its byte and the
      three bytes before it. */
  function BlockCheck(prevInput: Vec, prevFirstLen: Vec, input: Vec): (r: BlockResult)
    ensures FirstLensOf(r.firstLen, input)
    ensures FirstLensOf(prevFirstLen, prevInput) ==> (r.ok <==> LanesPass(prevInput, input))
  {
    var firstLen := FirstLens(input);
    var range := RangeIndices(prevInput, prevFirstLen, input, firstLen);
    FirstLensLanes(input);
    RangeIndicesLanes(prevInput, prevFirstLen, input, firstLen);
    ErrorMaskLanes(input, range);
    BlockResult(TestzSi256(ErrorMask(input, range)), firstLen)
  }

  /** `firstLen` holds the `first_len` of every lane of `input`. */
  predicate FirstLensOf(firstLen: Vec, input: Vec)
  {
    forall i :: 0 <= i < 32 ==> firstLen[i] == FirstLen(input[i])
  }

  /** Every lane of `input` passes the local check on its byte and the
      three bytes before it in memory, the first ones in `prevInput`. */
  predicate LanesPass(prevInput: Vec, input: Vec)
  {
    forall i :: 0 <= i < 32 ==>
      LocalOk(Back(prevInput, input, i, 3), Back(prevInput, input, i, 2), Back(prevInput, input, i, 1), input[i])
  }

  /** `first_len` is `FirstLen` in every lane. */
  lemma FirstLensLanes(input: Vec)
    ensures FirstLensOf(FirstLens(input), input)
  {
    TablesDuplicated();
    ShuffleOfDuplicated(FirstLenTbl, HighNibbles(input));
  }

  /** Shifting the `first_len` registers is taking `first_len` of the
      shifted input: the carried register holds `first_len` of the carried
      input. */
  lemma BackOfFirstLens(prevInput: Vec, prevFirstLen: Vec, input: Vec, firstLen: Vec, i: nat, k: nat)
    requires FirstLensOf(prevFirstLen, prevInput) && FirstLensOf(firstLen, input)
    requires i < 32 && 1 <= k <= 3
    ensures PushLastBytes(k, prevFirstLen, firstLen)[i] == FirstLen(Back(prevInput, input, i, k))
  {
  }

  /** Every lane of `range` is the range index of its byte and the three
      bytes before it in memory, reaching back into the previous block. */
  lemma RangeIndicesLanes(prevInput: Vec, prevFirstLen: Vec, input: Vec, firstLen: Vec)
    requires FirstLensOf(firstLen, input)
    ensures FirstLensOf(prevFirstLen, prevInput) ==> forall i :: 0 <= i < 32 ==>
      RangeIndices(prevInput, prevFirstLen, input, firstLen)[i] ==
        RangeIndexOf(Back(prevInput, input, i, 3), Back(prevInput, input, i, 2), Back(prevInput, input, i, 1), input[i])
  {
    if FirstLensOf(prevFirstLen, prevInput) {
      RangeIndicesAgree(prevInput, prevFirstLen, input, firstLen);
    }
  }

  /** The lane-by-lane agreement, once both `first_len` registers are known
      to be right. */
  lemma RangeIndicesAgree(prevInput: Vec, prevFirstLen: Vec, input: Vec, firstLen: Vec)
    requires FirstLensOf(prevFirstLen, prevInput) && FirstLensOf(firstLen, input)
    ensures forall i :: 0 <= i < 32 ==>
      RangeIndices(prevInput, prevFirstLen, input, firstLen)[i] ==
        RangeIndexOf(Back(prevInput, input, i, 3), Back(prevInput, input, i, 2), Back(prevInput, input, i, 1), input[i])
  {
    TablesDuplicated();
    var nib := HighNibbles(input);
    ShuffleOfDuplicated(FirstRangeTbl, nib);
    var shift1 := PushLastBytes(1, prevInput, input);
    var pos := SubEpi8(shift1, Set1(0xEF));
    ShuffleOfDuplicated(DfEeTbl, SubsEpu8(pos, Set1(240)));
    ShuffleOfDuplicated(EfFeTbl, AddsEpu8(pos, Set1(112)));
    forall i | 0 <= i < 32
      ensures RangeIndices(prevInput, prevFirstLen, input, firstLen)[i] ==
        RangeIndexOf(Back(prevInput, input, i, 3), Back(prevInput, input, i, 2), Back(prevInput, input, i, 1), input[i])
    {
      BackOfFirstLens(prevInput, prevFirstLen, input, firstLen, i, 1);
      BackOfFirstLens(prevInput, prevFirstLen, input, firstLen, i, 2);
      BackOfFirstLens(prevInput, prevFirstLen, input, firstLen, i, 3);
    }
  }

  /** `testz` of the error mask holds exactly when every lane is in the
      range its index selects. */
  lemma ErrorMaskLanes(input: Vec, range: Vec)
    ensures TestzSi256(ErrorMask(input, range)) <==> forall i :: 0 <= i < 32 ==> InRangeOf(range[i], input[i])
  {
    TablesDuplicated();
    ShuffleOfDuplicated(RangeMinTbl, range);
    ShuffleOfDuplicated(RangeMaxTbl, range);
    var lo := CmpgtEpi8(ShuffleEpi8(RangeMinTbl, range), input);
    var hi := CmpgtEpi8(input, ShuffleEpi8(RangeMaxTbl, range));
    TestzOfOr(lo, hi);
    forall i | 0 <= i < 32
      ensures lo[i] == 0 && hi[i] == 0 <==> InRangeOf(range[i], input[i])
    {
      assert lo[i] == GreaterSigned(Lookup(RangeMinTbl, range[i]), input[i]);
      assert hi[i] == GreaterSigned(input[i], Lookup(RangeMaxTbl, range[i]));
    }
  }
}
