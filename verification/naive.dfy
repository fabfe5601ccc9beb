/** The scalar reference validator `utf8_valid_naive`: a greedy walk that
    classifies one sequence per step from its lead byte and stops at the
    first sequence that is ill-formed or cut off by the end of the buffer.
 */
module Naive {
  import opened Bytes
  import opened Table37

  /** What one iteration of the walk decides: advance by `bytes`, or fail. */
  datatype StepResult = Accept(bytes: nat) | Reject

  /** The outcome of a validation: the buffer is valid, or it is not and
      `index` is the offset of the lead byte of the offending sequence. */
  datatype Verdict = Valid | Invalid(index: nat)

  /** `(signed char)b <= (signed char)0xBF`, the continuation-byte test. */
  predicate SignedAtMostBF(b: byte)
  {
    Signed(b) <= Signed(0xBF)
  }

  /** One iteration of the loop, looking at `s[i..]` with `len = |s| - i`
      bytes left. The branches are tried in the order of `utf8_valid.h`: one
      byte, two bytes, three bytes, four bytes. */
  function Step(s: seq<byte>, i: nat): (r: StepResult)
    requires i < |s|
    ensures r.Accept? ==> 1 <= r.bytes <= 4 && i + r.bytes <= |s|
  {
    var len := |s| - i;
    var byte1 := s[i];
    if byte1 <= 0x7F then
      Accept(1)
    else if len >= 2 && 0xC2 <= byte1 <= 0xDF && SignedAtMostBF(s[i + 1]) then
      Accept(2)
    else if len >= 3 then
      var byte2 := s[i + 1];
      var byte2Ok := SignedAtMostBF(byte2);
      var byte3Ok := SignedAtMostBF(s[i + 2]);
      if byte2Ok && byte3Ok &&
         (|| (byte1 == 0xE0 && byte2 >= 0xA0)
          || (0xE1 <= byte1 <= 0xEC)
          || (byte1 == 0xED && byte2 <= 0x9F)
          || (0xEE <= byte1 <= 0xEF))
      then
        Accept(3)
      else if len >= 4 then
        var byte4Ok := SignedAtMostBF(s[i + 3]);
        if byte2Ok && byte3Ok && byte4Ok &&
           (|| (byte1 == 0xF0 && byte2 >= 0x90)
            || (0xF1 <= byte1 <= 0xF3)
            || (byte1 == 0xF4 && byte2 <= 0x8F))
        then
          Accept(4)
        else
          Reject
      else
        Reject
    else
      Reject
  }

  /** The walk from offset `i` (`err_idx` in `utf8_valid.h`) to the end of `s`. */
  function NaiveFrom(s: seq<byte>, i: nat): (r: Verdict)
    requires i <= |s|
    ensures r.Invalid? ==> i <= r.index < |s|
    decreases |s| - i
  {
    if i == |s| then
      Valid
    else
      match Step(s, i)
      case Reject => Invalid(i)
      case Accept(k) => NaiveFrom(s, i + k)
  }

  /** `utf8_valid_naive` on a whole buffer. */
  function Utf8ValidNaive(data: seq<byte>): (r: Verdict)
    ensures r.Invalid? ==> r.index < |data|
  {
    NaiveFrom(data, 0)
  }

  /** A verdict about `s[base..]` restated with offsets into `s`. */
  function Offset(v: Verdict, base: nat): Verdict
  {
    match v
    case Valid => Valid
    case Invalid(e) => Invalid(base + e)
  }

  /** One step accepts exactly the well-formed sequence that starts at `i`,
      and rejects exactly when no well-formed sequence starts there. */
  lemma StepMatchesTable(s: seq<byte>, i: nat, k: nat)
    requires i < |s|
    ensures Step(s, i) == Accept(k) <==> 1 <= k <= 4 && StartsSequence(s, i, k)
    ensures Step(s, i) == Reject <==> NoSequenceAt(s, i)
  {
    forall b: byte ensures SignedAtMostBF(b) <==> IsContinuation(b) {
      SignedContinuationTest(b);
    }
    if Step(s, i) == Reject {
      forall k' | 1 <= k' <= 4
        ensures !StartsSequence(s, i, k')
      {
      }
    } else {
      var n := Step(s, i).bytes;
      assert StartsSequence(s, i, n);
      if 1 <= k <= 4 && StartsSequence(s, i, k) {
        LeadDeterminesLength(s[i..i + n], s[i..i + k]);
      }
    }
  }

  /** The error cases the walk singles out: overlong forms (C0, C1, E0 80..9F,
      F0 80..8F), surrogates (ED A0..BF) and code points above U+10FFFF
      (F4 90..BF, F5..FF) are rejected at their lead byte. */
  lemma RejectsOverlongSurrogatesAndBeyond(s: seq<byte>, i: nat)
    requires i < |s|
    requires
      || s[i] == 0xC0 || s[i] == 0xC1 || s[i] >= 0xF5
      || (i + 1 < |s| && s[i] == 0xE0 && 0x80 <= s[i + 1] <= 0x9F)
      || (i + 1 < |s| && s[i] == 0xF0 && 0x80 <= s[i + 1] <= 0x8F)
      || (i + 1 < |s| && s[i] == 0xED && 0xA0 <= s[i + 1] <= 0xBF)
      || (i + 1 < |s| && s[i] == 0xF4 && 0x90 <= s[i + 1] <= 0xBF)
    ensures NoSequenceAt(s, i)
    ensures NaiveFrom(s, i) == Invalid(i)
  {
    StepMatchesTable(s, i, 0);
  }

  /** A step that rejects at `i` means `s[i..]` is not UTF-8. */
  lemma RejectedIsNotUtf8(s: seq<byte>, i: nat)
    requires i < |s|
    ensures Step(s, i) == Reject ==> !IsUtf8(s[i..])
  {
    if IsUtf8(s[i..]) {
      var k := FirstSequence(s[i..]);
      assert s[i..][..k] == s[i..i + k];
      StepMatchesTable(s, i, k);
    }
  }

  /** A step that accepts `n` bytes at `i` splits `s[i..e]` into the
      sequence it accepted and the rest: the rest is UTF-8 exactly when the
      whole is. */
  lemma AcceptedSplits(s: seq<byte>, i: nat, n: nat, e: nat)
    requires i < |s| && Step(s, i) == Accept(n)
    requires i + n <= e <= |s|
    ensures IsUtf8(s[i..e]) <==> IsUtf8(s[i + n..e])
  {
    StepMatchesTable(s, i, n);
    var t := s[i..e];
    assert t[..n] == s[i..i + n];
    assert t[n..] == s[i + n..e];
    if IsUtf8(s[i + n..e]) {
      assert SplitsAt(t, n);
      PrependSequence(t, n);
    }
    if IsUtf8(t) {
      var k := FirstSequence(t);
      assert t[..k] == s[i..i + k];
      StepMatchesTable(s, i, k);
    }
  }

  /** A sequence boundary `e` strictly after `i` is at or past the end of the
      sequence the step at `i` accepts, and not inside it. */
  lemma BoundaryAfterStep(s: seq<byte>, i: nat, e: nat)
    requires i < e <= |s|
    ensures IsUtf8(s[i..e]) ==> Step(s, i).Accept? && i + Step(s, i).bytes <= e
  {
    if IsUtf8(s[i..e]) {
      var t := s[i..e];
      var k := FirstSequence(t);
      assert t[..k] == s[i..i + k];
      StepMatchesTable(s, i, k);
    }
  }

  /** The walk from `i` accepts exactly when `s[i..]` is UTF-8. */
  lemma {:induction false} NaiveValidIffUtf8(s: seq<byte>, i: nat)
    requires i <= |s|
    ensures NaiveFrom(s, i) == Valid <==> IsUtf8(s[i..])
    decreases |s| - i
  {
    if i < |s| {
      match Step(s, i)
      case Reject =>
        RejectedIsNotUtf8(s, i);
      case Accept(n) =>
        NaiveValidIffUtf8(s, i + n);
        AcceptedSplits(s, i, n, |s|);
        assert s[i..|s|] == s[i..];
        assert s[i + n..|s|] == s[i + n..];
    }
  }

  /** The walk from `i` fails at `e` exactly when `e` is a sequence boundary
      past `i` (the bytes from `i` up to `e` are UTF-8) at which no
      well-formed sequence starts: `e` is the lead byte of the first
      ill-formed or truncated sequence, and it lies inside the buffer. */
  lemma {:induction false} NaiveErrorIff(s: seq<byte>, i: nat, e: nat)
    requires i <= |s|
    ensures NaiveFrom(s, i) == Invalid(e) <==>
              i <= e < |s| && IsUtf8(s[i..e]) && NoSequenceAt(s, e)
    decreases |s| - i
  {
    if i < |s| {
      match Step(s, i)
      case Reject =>
        StepMatchesTable(s, i, 0);
        if i < e <= |s| {
          BoundaryAfterStep(s, i, e);
        }
        assert s[i..i] == [];
      case Accept(n) =>
        assert NaiveFrom(s, i) == NaiveFrom(s, i + n);
        StepMatchesTable(s, i, n);
        NaiveErrorIff(s, i + n, e);
        if i + n <= e < |s| {
          AcceptedSplits(s, i, n, e);
        }
        if i < e <= |s| {
          BoundaryAfterStep(s, i, e);
        }
    }
  }

  /** The walk over `s` from `i` is the walk over the suffix `s[r..]`, with
      offsets moved by `r`: running the validator on `data + r` and adding
      `r` to its error index gives the same answer. */
  lemma {:induction false} NaiveFromSuffix(s: seq<byte>, r: nat, i: nat)
    requires r <= i <= |s|
    ensures NaiveFrom(s, i) == Offset(NaiveFrom(s[r..], i - r), r)
    decreases |s| - i
  {
    if i < |s| {
      StepShift(s, r, i);
      match Step(s, i)
      case Reject =>
      case Accept(k) =>
        NaiveFromSuffix(s, r, i + k);
    }
  }

  /** The walk from `r` is the walk over the suffix at `r`, moved by `r`. */
  lemma NaiveFromAt(s: seq<byte>, r: nat)
    requires r <= |s|
    ensures NaiveFrom(s, r) == Offset(NaiveFrom(s[r..], 0), r)
  {
    NaiveFromSuffix(s, r, r);
  }

  /** One iteration reads only the bytes from the cursor on, so it decides
      the same on any suffix that still holds them. */
  lemma StepShift(s: seq<byte>, r: nat, i: nat)
    requires r <= i < |s|
    ensures Step(s, i) == Step(s[r..], i - r)
  {
    var t := s[r..];
    assert t[i - r] == s[i];
    assert i + 1 < |s| ==> t[i + 1 - r] == s[i + 1];
    assert i + 2 < |s| ==> t[i + 2 - r] == s[i + 2];
    assert i + 3 < |s| ==> t[i + 3 - r] == s[i + 3];
  }

  /** Removing the final byte(s) of a well-formed multi-byte sequence at the
      end of a valid buffer makes the walk fail at that sequence's lead byte. */
  lemma TruncatedSequenceRejected(a: seq<byte>, t: seq<byte>, cut: nat)
    requires IsUtf8(a) && WellFormedSequence(t)
    requires 1 <= cut < |t|
    ensures Utf8ValidNaive(a + t[..cut]) == Invalid(|a|)
  {
    var s := a + t[..cut];
    assert s[..|a|] == a;
    forall k | 1 <= k <= 4
      ensures !StartsSequence(s, |a|, k)
    {
      if |a| + k <= |s| {
        LeadDeterminesLength(t, s[|a|..|a| + k]);
      }
    }
    NaiveErrorIff(s, 0, |a|);
  }

  /** `utf8_valid_naive(data, len, error_index)` with the caller's
      `*error_index` passed in as `errorIndexIn`: the loop of `utf8_valid.h`, with
      `errIdx` the offset reached and `len` the bytes left. The error index
      is written only when validation fails. */
  method ValidNaive(data: seq<byte>, errorIndexIn: nat) returns (valid: bool, errorIndex: nat)
    ensures valid <==> IsUtf8(data)
    ensures valid ==> errorIndex == errorIndexIn
    ensures !valid ==> errorIndex < |data| && Utf8ValidNaive(data) == Invalid(errorIndex)
  {
    errorIndex := errorIndexIn;
    var errIdx: nat := 0;
    var len: nat := |data|;
    NaiveValidIffUtf8(data, 0);
    while len > 0
      invariant errIdx + len == |data|
      invariant NaiveFrom(data, errIdx) == NaiveFrom(data, 0)
      decreases len
    {
      match Step(data, errIdx)
      case Reject =>
        errorIndex := errIdx;
        return false, errorIndex;
      case Accept(bytes) =>
        len := len - bytes;
        errIdx := errIdx + bytes;
    }
    return true, errorIndex;
  }

  /** The empty buffer is valid. */
  lemma EmptyBufferIsValid()
    ensures Utf8ValidNaive([]) == Valid
  {
  }

  /** A lone `C2`, a two-byte lead with no continuation byte, fails at 0. */
  lemma LoneLeadRejected()
    ensures Utf8ValidNaive([0xC2]) == Invalid(0)
  {
  }
}
