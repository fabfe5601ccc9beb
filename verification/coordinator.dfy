/** The coordinator `utf8_valid`: 32-byte blocks are checked while at least
    32 bytes remain, then the naive validator finishes the buffer from the
    last sequence boundary the blocks establish, and its error offset is
    turned back into an offset into the whole buffer.
 */
module Coordinator {
  import opened Bytes
  import opened Lanes
  import opened Table37
  import opened Naive
  import opened RangeIndex
  import opened Block

  /** The byte at `j`, or the zero the first block's carry register supplies
      for the positions before the buffer. */
  function At(s: seq<byte>, j: int): byte
  {
    if 0 <= j < |s| then s[j] else 0
  }

  /** The block check passes position `j` of the whole buffer. */
  predicate LocalOkAt(s: seq<byte>, j: nat)
    requires j < |s|
  {
    LocalOk(At(s, j - 3), At(s, j - 2), At(s, j - 1), s[j])
  }

  /** No lead byte among the three bytes before `i` reaches `i` or beyond. */
  predicate CleanAt(s: seq<byte>, i: nat)
  {
    Clean(At(s, i - 3), At(s, i - 2), At(s, i - 1))
  }

  /** The variables of the block loop: `data` as an offset into the buffer,
      `len`, `err_idx`, and the carry registers. */
  datatype ScanState = ScanState(data: nat, len: nat, errIdx: nat, prevInput: Vec, prevFirstLen: Vec)

  /** The state before the first block, `err_idx = 1` with both carry
      registers zero, meets the loop invariant: nothing is consumed yet and
      `err_idx - 1 + len` is the buffer length. */
  function InitialState(s: seq<byte>): (st: ScanState)
    ensures ScanInvariant(s, st) && st.errIdx == 1
  {
    assert FirstLen(0) == 0;
    ScanState(0, |s|, 1, Zeros(), Zeros())
  }

  /** What holds at the head of the block loop: whole blocks have been
      consumed, `err_idx - 1 + len` is the buffer length, the carry is the
      last accepted block (zeros before the first), and every position
      consumed passed its local check. */
  predicate ScanInvariant(s: seq<byte>, st: ScanState)
  {
    && st.data + st.len == |s|
    && st.errIdx == st.data + 1
    && st.data % 32 == 0
    && (st.data == 0 ==> st.prevFirstLen == Zeros())
    && CarryMatches(s, st)
    && FirstLensOf(st.prevFirstLen, st.prevInput)
    && forall j :: 0 <= j < st.data ==> LocalOkAt(s, j)
  }

  /** `prev_input` is the zero register before the first block and the
      block just before `data` after it. */
  predicate CarryMatches(s: seq<byte>, st: ScanState)
  {
    && st.data <= |s|
    && (st.data < 32 ==> st.data == 0 && st.prevInput == Zeros())
    && (st.data >= 32 ==> st.prevInput == s[st.data - 32..st.data])
  }

  /** The 32 bytes the loop loads at `data`. */
  function BlockAt(s: seq<byte>, st: ScanState): Vec
    requires st.data + 32 <= |s|
  {
    s[st.data..st.data + 32]
  }

  /** The block loop: check the block at `data`; on success carry it and
      advance `data`, `len` and `err_idx` by 32; stop at the first failing
      block or when fewer than 32 bytes remain. */
  function Scan(s: seq<byte>, st: ScanState): (r: ScanState)
    requires ScanInvariant(s, st)
    ensures ScanInvariant(s, r)
    ensures st.data <= r.data
    ensures r.data == st.data ==> r == st
    ensures r.len < 32 || !BlockCheck(r.prevInput, r.prevFirstLen, BlockAt(s, r)).ok
    decreases st.len
  {
    if st.len < 32 then
      st
    else
      var input := BlockAt(s, st);
      var res := BlockCheck(st.prevInput, st.prevFirstLen, input);
      if !res.ok then
        st
      else
        BlockPassesIff(s, st);
        Scan(s, ScanState(st.data + 32, st.len - 32, st.errIdx + 32, input, res.firstLen))
  }

  /** A lane of the block at `data` reaching back `k` bytes reads the byte
      `k` positions earlier in the buffer, or 0 before its start. */
  lemma BlockBack(s: seq<byte>, st: ScanState, i: nat, k: nat)
    requires CarryMatches(s, st) && st.data + 32 <= |s|
    requires i < 32 && 1 <= k <= 3
    ensures Back(st.prevInput, BlockAt(s, st), i, k) == At(s, st.data + i - k)
  {
  }

  /** The block at `data` passes exactly when each of its 32 positions
      passes its local check, looking back into the buffer. */
  lemma BlockPassesIff(s: seq<byte>, st: ScanState)
    requires CarryMatches(s, st) && FirstLensOf(st.prevFirstLen, st.prevInput)
    requires st.data + 32 <= |s|
    ensures BlockCheck(st.prevInput, st.prevFirstLen, BlockAt(s, st)).ok <==>
      forall j :: st.data <= j < st.data + 32 ==> LocalOkAt(s, j)
  {
    BlockLanesArePositions(s, st);
  }

  /** The lanes of the block at `data` pass exactly when the positions
      `data..data + 31` of the buffer do. */
  lemma BlockLanesArePositions(s: seq<byte>, st: ScanState)
    requires CarryMatches(s, st) && st.data + 32 <= |s|
    ensures LanesPass(st.prevInput, BlockAt(s, st)) <==>
      forall j :: st.data <= j < st.data + 32 ==> LocalOkAt(s, j)
  {
    BlockBacks(s, st);
    LanesArePositions(s, st.prevInput, BlockAt(s, st), st.data);
  }

  /** Every lane of `input` and its three lookback bytes, with `prev` the
      block before it, are the bytes at the same positions of the buffer
      from offset `o` on. */
  predicate WindowsMatch(s: seq<byte>, prev: Vec, input: Vec, o: nat)
    requires o + 32 <= |s|
  {
    forall i :: 0 <= i < 32 ==>
      && Back(prev, input, i, 3) == At(s, o + i - 3)
      && Back(prev, input, i, 2) == At(s, o + i - 2)
      && Back(prev, input, i, 1) == At(s, o + i - 1)
      && input[i] == s[o + i]
  }

  /** The block at `data`, with the carried `prev_input`, reads the buffer
      at `data` with zeros before its start. */
  lemma BlockBacks(s: seq<byte>, st: ScanState)
    requires CarryMatches(s, st) && st.data + 32 <= |s|
    ensures WindowsMatch(s, st.prevInput, BlockAt(s, st), st.data)
  {
    var input := BlockAt(s, st);
    forall i | 0 <= i < 32
      ensures && Back(st.prevInput, input, i, 3) == At(s, st.data + i - 3)
              && Back(st.prevInput, input, i, 2) == At(s, st.data + i - 2)
              && Back(st.prevInput, input, i, 1) == At(s, st.data + i - 1)
              && input[i] == s[st.data + i]
    {
      BlockWindow(s, st, i);
    }
  }

  /** Lane `i` of the block at `data` sees the buffer's window ending at
      `data + i`. */
  lemma BlockWindow(s: seq<byte>, st: ScanState, i: nat)
    requires CarryMatches(s, st) && st.data + 32 <= |s| && i < 32
    ensures Back(st.prevInput, BlockAt(s, st), i, 3) == At(s, st.data + i - 3)
    ensures Back(st.prevInput, BlockAt(s, st), i, 2) == At(s, st.data + i - 2)
    ensures Back(st.prevInput, BlockAt(s, st), i, 1) == At(s, st.data + i - 1)
    ensures BlockAt(s, st)[i] == s[st.data + i]
  {
    BlockBack(s, st, i, 1);
    BlockBack(s, st, i, 2);
    BlockBack(s, st, i, 3);
  }

  /** Re-indexing the per-lane condition of a block at offset `o` as a
      condition on the positions `o..o + 31` of the buffer. */
  lemma LanesArePositions(s: seq<byte>, prev: Vec, input: Vec, o: nat)
    requires o + 32 <= |s| && WindowsMatch(s, prev, input, o)
    ensures LanesPass(prev, input) <==> forall j :: o <= j < o + 32 ==> LocalOkAt(s, j)
  {
    if LanesPass(prev, input) {
      forall j | o <= j < o + 32
        ensures LocalOkAt(s, j)
      {
        LaneOk(prev, input, j - o);
        LaneIsPosition(s, prev, input, o, j - o);
      }
    }
    if forall j :: o <= j < o + 32 ==> LocalOkAt(s, j) {
      forall i | 0 <= i < 32
        ensures LocalOk(Back(prev, input, i, 3), Back(prev, input, i, 2), Back(prev, input, i, 1), input[i])
      {
        PositionOk(s, o, o + 32, o + i);
        LaneIsPosition(s, prev, input, o, i);
      }
    }
  }

  /** One lane of a passing block passes. */
  lemma LaneOk(prev: Vec, input: Vec, i: nat)
    requires LanesPass(prev, input) && i < 32
    ensures LocalOk(Back(prev, input, i, 3), Back(prev, input, i, 2), Back(prev, input, i, 1), input[i])
  {
  }

  /** One position of a passing range passes. */
  lemma PositionOk(s: seq<byte>, lo: nat, hi: nat, j: nat)
    requires lo <= j < hi <= |s|
    requires forall j :: lo <= j < hi ==> LocalOkAt(s, j)
    ensures LocalOkAt(s, j)
  {
  }

  /** Lane `i` of a block whose windows match the buffer passes exactly
      when position `o + i` does. */
  lemma LaneIsPosition(s: seq<byte>, prev: Vec, input: Vec, o: nat, i: nat)
    requires o + 32 <= |s| && i < 32 && WindowsMatch(s, prev, input, o)
    ensures LocalOk(Back(prev, input, i, 3), Back(prev, input, i, 2), Back(prev, input, i, 1), input[i])
      <==> LocalOkAt(s, o + i)
  {
    WindowAt(s, prev, input, o, i);
  }

  /** The window of lane `i` is the window of position `o + i`. */
  lemma WindowAt(s: seq<byte>, prev: Vec, input: Vec, o: nat, i: nat)
    requires o + 32 <= |s| && i < 32 && WindowsMatch(s, prev, input, o)
    ensures Back(prev, input, i, 3) == At(s, o + i - 3)
    ensures Back(prev, input, i, 2) == At(s, o + i - 2)
    ensures Back(prev, input, i, 1) == At(s, o + i - 1)
    ensures input[i] == s[o + i]
  {
  }

  /** `lookahead` from bytes 29..31 of the last accepted block, examined from
      byte 31 down with the signed compare `> (int8_t)0xBF`: the distance
      back from the end of the block to its last byte that is not a
      continuation byte, or 0 when bytes 29..31 are all continuation bytes. */
  function Lookahead(prev: Vec): (la: nat)
    ensures la <= 3
    ensures la > 0 ==> !IsContinuation(prev[32 - la])
    ensures forall j :: 32 - la < j < 32 ==> IsContinuation(prev[j])
    ensures la == 0 ==> forall j :: 29 <= j < 32 ==> IsContinuation(prev[j])
  {
    SignedContinuationTest(prev[31]);
    SignedContinuationTest(prev[30]);
    SignedContinuationTest(prev[29]);
    if Signed(prev[31]) > Signed(0xBF) then 1
    else if Signed(prev[30]) > Signed(0xBF) then 2
    else if Signed(prev[29]) > Signed(0xBF) then 3
    else 0
  }

  /** `r` is where the naive walk restarts after the blocks consumed
      `s[..p]`: the last byte among `s[p - 3..p]` that is not a continuation
      byte, or `p` itself when all three are continuation bytes. */
  predicate RestartAt(s: seq<byte>, p: nat, r: nat)
    requires 3 <= p <= |s|
  {
    && p - 3 <= r <= p
    && (forall j :: r < j < p ==> IsContinuation(s[j]))
    && (r < p ==> !IsContinuation(s[r]))
    && (r == p ==> forall j :: p - 3 <= j < p ==> IsContinuation(s[j]))
  }

  /** The `lookahead` rewind: after at least one block passed
      (`err_idx != 1`), step `data`, `len` and `err_idx` back by `lookahead`
      to the restart point. */
  function Rewind(s: seq<byte>, st: ScanState): (r: ScanState)
    requires ScanInvariant(s, st) && st.errIdx != 1
    ensures r.data + r.len == |s| && r.errIdx == r.data + 1
    ensures 32 <= st.data && RestartAt(s, st.data, r.data)
  {
    var la := Lookahead(st.prevInput);
    LookaheadIsRestart(s, st.data, st.prevInput);
    ScanState(st.data - la, st.len + la, st.errIdx - la, st.prevInput, st.prevFirstLen)
  }

  /** The rewind of `lookahead` bytes back from the end of the last accepted
      block lands on its restart point. */
  lemma LookaheadIsRestart(s: seq<byte>, p: nat, prev: Vec)
    requires 32 <= p <= |s| && prev == s[p - 32..p]
    ensures RestartAt(s, p, p - Lookahead(prev))
  {
    assert forall j :: 0 <= j < 32 ==> prev[j] == s[p - 32 + j];
  }

  /** The `do_naive` tail: run the naive validator on the `len` bytes at
      `data` and report `err_idx + err_idx2 - 1` on failure, an offset that
      lies within the `len` bytes checked when `err_idx - 1` is where they
      start. */
  function NaiveTail(s: seq<byte>, st: ScanState): (r: Verdict)
    requires st.data + st.len == |s| && st.errIdx >= 1
    ensures r.Invalid? ==> st.errIdx - 1 <= r.index < st.errIdx - 1 + st.len
  {
    match Utf8ValidNaive(s[st.data..st.data + st.len])
    case Valid => Valid
    case Invalid(e2) => Invalid(st.errIdx + e2 - 1)
  }

  /** `utf8_valid(data, len, error_index)`: the block loop when at least 32
      bytes are given, the fallback to the whole buffer when the first block
      fails, otherwise the rewind; then the naive validator on the rest. */
  function Utf8Valid(s: seq<byte>): (r: Verdict)
    ensures r.Invalid? ==> r.index < |s|
  {
    var init := InitialState(s);
    if |s| < 32 then
      NaiveTail(s, init)
    else
      var st := Scan(s, init);
      if st.errIdx == 1 then
        NaiveTail(s, st)
      else
        NaiveTail(s, Rewind(s, st))
  }

  /** Before the buffer there is nothing pending: offset 0 is clean. */
  lemma CleanStart(s: seq<byte>)
    ensures CleanAt(s, 0)
  {
  }

  /** The position after a lead byte at a clean position. */
  lemma SecondAt(s: seq<byte>, i: nat)
    requires i + 1 < |s| && CleanAt(s, i) && 0xC2 <= s[i] <= 0xF4
    requires LocalOkAt(s, i + 1)
    ensures SecondByteFits(s[i], s[i + 1]) && IsContinuation(s[i + 1])
  {
    SecondPosition(At(s, i - 3), At(s, i - 2), At(s, i - 1), s[i], s[i + 1]);
  }

  /** The position two after the lead byte of a three- or four-byte
      sequence. */
  lemma ThirdAt(s: seq<byte>, i: nat)
    requires i + 2 < |s| && CleanAt(s, i) && Announced(s[i]) >= 2
    requires IsContinuation(s[i + 1]) && LocalOkAt(s, i + 2)
    ensures IsContinuation(s[i + 2])
  {
    ThirdPosition(At(s, i - 1), s[i], s[i + 1], s[i + 2]);
  }

  /** The position three after the lead byte of a four-byte sequence. */
  lemma FourthAt(s: seq<byte>, i: nat)
    requires i + 3 < |s| && Announced(s[i]) == 3
    requires IsContinuation(s[i + 1]) && IsContinuation(s[i + 2]) && LocalOkAt(s, i + 3)
    ensures IsContinuation(s[i + 3])
  {
    FourthPosition(s[i], s[i + 1], s[i + 2], s[i + 3]);
  }

  /** A legal lead byte, the second byte its column admits and the
      continuation bytes it announces form a row of Table 3-7. */
  lemma SequenceFromLead(s: seq<byte>, i: nat)
    requires i < |s| && i + Announced(s[i]) < |s| && 0xC2 <= s[i] <= 0xF4
    requires SecondByteFits(s[i], s[i + 1])
    requires s[i] >= 0xE0 ==> IsContinuation(s[i + 2])
    requires s[i] >= 0xF0 ==> IsContinuation(s[i + 3])
    ensures StartsSequence(s, i, Announced(s[i]) + 1)
  {
    var m := Announced(s[i]);
    var t := s[i..i + m + 1];
    assert t[0] == s[i] && t[1] == s[i + 1];
    if m >= 2 {
      assert t[2] == s[i + 2];
    }
    if m == 3 {
      assert t[3] == s[i + 3];
    }
  }

  /** A lead byte C2..F4 at a clean position below `p`, inside the part of
      the buffer whose positions all pass the local check: each byte after
      it that it announces and that lies below `p` is a continuation byte,
      and the first one is in the second-byte column for the lead. */
  lemma ContinuationsAfterLead(s: seq<byte>, p: nat, i: nat)
    requires i < p <= |s|
    requires forall j :: 0 <= j < p ==> LocalOkAt(s, j)
    requires CleanAt(s, i) && 0xC2 <= s[i] <= 0xF4
    ensures i + 1 < p ==> IsContinuation(s[i + 1]) && SecondByteFits(s[i], s[i + 1])
    ensures i + 2 < p && s[i] >= 0xE0 ==> IsContinuation(s[i + 2])
    ensures i + 3 < p && s[i] >= 0xF0 ==> IsContinuation(s[i + 3])
  {
    if i + 1 < p {
      SecondAt(s, i);
      if s[i] >= 0xE0 && i + 2 < p {
        ThirdAt(s, i);
        if s[i] >= 0xF0 && i + 3 < p {
          FourthAt(s, i);
        }
      }
    }
  }

  /** After a lead byte and the continuation bytes it announces, no lead
      byte in the last three positions is still pending. */
  lemma CleanAfterSequence(s: seq<byte>, i: nat)
    requires i < |s| && i + Announced(s[i]) < |s| && CleanAt(s, i) && 0xC0 <= s[i]
    requires IsContinuation(s[i + 1])
    requires s[i] >= 0xE0 ==> IsContinuation(s[i + 2])
    requires s[i] >= 0xF0 ==> IsContinuation(s[i + 3])
    ensures CleanAt(s, i + Announced(s[i]) + 1)
  {
  }

  /** At a clean position that passes its local check stands an ASCII byte
      or a legal lead byte. */
  lemma AsciiOrLead(s: seq<byte>, p: nat, i: nat)
    requires i < p <= |s| && CleanAt(s, i)
    requires forall j :: 0 <= j < p ==> LocalOkAt(s, j)
    ensures s[i] <= 0x7F || 0xC2 <= s[i] <= 0xF4
  {
    assert LocalOkAt(s, i);
    LeadPosition(At(s, i - 3), At(s, i - 2), At(s, i - 1), s[i]);
  }

  /** A lead byte before the restart point has all the bytes it announces
      before the restart point too: the restart point is not a continuation
      byte, and a sequence cut by `p` would have made its lead the restart
      point. */
  lemma SequenceEndsBeforeRestart(s: seq<byte>, p: nat, r: nat, i: nat)
    requires 3 <= p <= |s| && RestartAt(s, p, r)
    requires i < r && 0xC2 <= s[i] <= 0xF4
    requires i + 1 < p ==> IsContinuation(s[i + 1])
    requires i + 2 < p && s[i] >= 0xE0 ==> IsContinuation(s[i + 2])
    requires i + 3 < p && s[i] >= 0xF0 ==> IsContinuation(s[i + 3])
    ensures i + Announced(s[i]) < r
  {
  }

  /** From a clean position before the restart point the walk accepts one
      sequence that ends at or before the restart point, and the position
      after it is clean. */
  lemma StepBeforeRestart(s: seq<byte>, p: nat, r: nat, i: nat) returns (n: nat)
    requires 3 <= p <= |s|
    requires forall j :: 0 <= j < p ==> LocalOkAt(s, j)
    requires RestartAt(s, p, r)
    requires i < r && CleanAt(s, i)
    ensures Step(s, i) == Accept(n) && i + n <= r && CleanAt(s, i + n)
  {
    AsciiOrLead(s, p, i);
    if s[i] <= 0x7F {
      n := StepOverAscii(s, i);
    } else {
      n := StepOverSequence(s, p, r, i);
    }
  }

  /** An ASCII byte at a clean position is a sequence of its own, and the
      position after it is clean. */
  lemma StepOverAscii(s: seq<byte>, i: nat) returns (n: nat)
    requires i < |s| && CleanAt(s, i) && s[i] <= 0x7F
    ensures n == 1 && Step(s, i) == Accept(n) && CleanAt(s, i + n)
  {
    n := 1;
  }

  /** The lead-byte case of `StepBeforeRestart`. */
  lemma StepOverSequence(s: seq<byte>, p: nat, r: nat, i: nat) returns (n: nat)
    requires 3 <= p <= |s|
    requires forall j :: 0 <= j < p ==> LocalOkAt(s, j)
    requires RestartAt(s, p, r)
    requires i < r && CleanAt(s, i) && 0xC2 <= s[i] <= 0xF4
    ensures Step(s, i) == Accept(n) && i + n <= r && CleanAt(s, i + n)
  {
    ContinuationsAfterLead(s, p, i);
    SequenceEndsBeforeRestart(s, p, r, i);
    n := Announced(s[i]) + 1;
    SequenceFromLead(s, i);
    CleanAfterSequence(s, i);
    StepMatchesTable(s, i, n);
  }

  /** Every position the blocks consumed passed its local check, so the
      naive walk from a clean position reaches the restart point through
      whole sequences: the bytes in between are UTF-8 and the walk from
      there gives the same verdict. */
  lemma {:induction false} Reach(s: seq<byte>, p: nat, r: nat, i: nat)
    requires 3 <= p <= |s|
    requires forall j :: 0 <= j < p ==> LocalOkAt(s, j)
    requires RestartAt(s, p, r)
    requires i <= r && CleanAt(s, i)
    ensures NaiveFrom(s, i) == NaiveFrom(s, r)
    ensures IsUtf8(s[i..r])
    decreases r - i
  {
    if i < r {
      var n := StepBeforeRestart(s, p, r, i);
      Reach(s, p, r, i + n);
      AcceptedSplits(s, i, n, r);
    } else {
      assert s[i..r] == [];
    }
  }

  /** The offset formula `err_idx + err_idx2 - 1`: when `err_idx` is
      `data + 1`, running the naive validator on the `len` bytes at `data`
      and correcting its error offset gives the walk over the whole buffer
      from `data`. */
  lemma NaiveTailFromData(s: seq<byte>, st: ScanState)
    requires st.data + st.len == |s| && st.errIdx == st.data + 1
    ensures NaiveTail(s, st) == NaiveFrom(s, st.data)
  {
    NaiveTailIsOffset(s, st);
    NaiveFromAt(s, st.data);
  }

  /** With `err_idx == data + 1`, the corrected verdict of the tail is the
      naive verdict of the suffix at `data`, moved by `data`. */
  lemma NaiveTailIsOffset(s: seq<byte>, st: ScanState)
    requires st.data + st.len == |s| && st.errIdx == st.data + 1
    ensures NaiveTail(s, st) == Offset(NaiveFrom(s[st.data..], 0), st.data)
  {
    assert s[st.data..st.data + st.len] == s[st.data..];
  }

  /** After at least one block passed, the naive walk over the whole buffer
      reaches the restart point through well-formed sequences, so starting
      there loses nothing. */
  lemma RestartReached(s: seq<byte>, st: ScanState)
    requires ScanInvariant(s, st) && st.errIdx != 1
    ensures IsUtf8(s[..Rewind(s, st).data])
    ensures NaiveFrom(s, 0) == NaiveFrom(s, Rewind(s, st).data)
  {
    var rw := Rewind(s, st);
    CleanStart(s);
    Reach(s, st.data, rw.data, 0);
    assert s[0..rw.data] == s[..rw.data];
  }

  /** `utf8_valid` and `utf8_valid_naive` agree on every buffer, on the
      verdict and on the error index. */
  lemma Utf8ValidAgreesWithNaive(s: seq<byte>)
    ensures Utf8Valid(s) == Utf8ValidNaive(s)
  {
    var init := InitialState(s);
    if |s| < 32 {
      NaiveTailFromData(s, init);
    } else {
      var st := Scan(s, init);
      if st.errIdx == 1 {
        NaiveTailFromData(s, st);
      } else {
        NaiveTailFromData(s, Rewind(s, st));
        RestartReached(s, st);
      }
    }
  }

  /** `utf8_valid` accepts exactly the buffers that are UTF-8. */
  lemma Utf8ValidIffUtf8(s: seq<byte>)
    ensures Utf8Valid(s) == Valid <==> IsUtf8(s)
  {
    Utf8ValidAgreesWithNaive(s);
    NaiveValidIffUtf8(s, 0);
    assert s[0..] == s;
  }

  /** `utf8_valid` reports error index `e` exactly when `e` is inside the
      buffer, the bytes before it are UTF-8, and no well-formed sequence
      starts at `e`. */
  lemma Utf8ValidErrorIff(s: seq<byte>, e: nat)
    ensures Utf8Valid(s) == Invalid(e) <==> e < |s| && IsUtf8(s[..e]) && NoSequenceAt(s, e)
  {
    Utf8ValidAgreesWithNaive(s);
    NaiveErrorIff(s, 0, e);
    if e <= |s| {
      assert s[0..e] == s[..e];
    }
  }

  /** `utf8_valid(data, len, error_index)` as the loop of `utf8_valid.h`: blocks
      are checked while 32 or more bytes remain, a failing block ends the
      loop, the rewind runs only when some block passed, and the naive
      validator finishes. The error index is written only on failure. */
  method ValidAvx2(data: seq<byte>, errorIndexIn: nat) returns (valid: bool, errorIndex: nat)
    ensures valid <==> IsUtf8(data)
    ensures valid ==> errorIndex == errorIndexIn
    ensures !valid ==> errorIndex < |data| && Utf8ValidNaive(data) == Invalid(errorIndex)
    ensures !valid ==> Utf8Valid(data) == Invalid(errorIndex)
  {
    errorIndex := errorIndexIn;
    Utf8ValidAgreesWithNaive(data);
    var st := InitialState(data);
    if st.len >= 32 {
      while st.len >= 32
        invariant ScanInvariant(data, st)
        decreases st.len
      {
        var input := BlockAt(data, st);
        var res := BlockCheck(st.prevInput, st.prevFirstLen, input);
        if !res.ok {
          break;
        }
        BlockPassesIff(data, st);
        st := ScanState(st.data + 32, st.len - 32, st.errIdx + 32, input, res.firstLen);
      }
      if st.errIdx != 1 {
        RestartReached(data, st);
        st := Rewind(data, st);
      }
    }
    var ok, errIdx2 := ValidNaive(data[st.data..st.data + st.len], 0);
    TailDecides(data, st, errIdx2);
    if !ok {
      errorIndex := st.errIdx + errIdx2 - 1;
      return false, errorIndex;
    }
    return true, errorIndex;
  }

  /** Once the walk over the whole buffer is known to pass through `data`,
      the naive validator on the `len` bytes left decides the buffer: the
      tail is UTF-8 exactly when the buffer is, and its error offset
      `err_idx2`, corrected by `err_idx - 1`, is the buffer's. */
  lemma TailDecides(s: seq<byte>, st: ScanState, e2: nat)
    requires st.data + st.len == |s| && st.errIdx == st.data + 1
    requires NaiveFrom(s, st.data) == NaiveFrom(s, 0)
    ensures IsUtf8(s[st.data..st.data + st.len]) <==> IsUtf8(s)
    ensures Utf8ValidNaive(s[st.data..st.data + st.len]) == Invalid(e2) ==>
              Utf8ValidNaive(s) == Invalid(st.errIdx + e2 - 1)
  {
    NaiveTailFromData(s, st);
    TailAccepts(s, st);
  }

  /** The tail at `data` is UTF-8 exactly when the buffer is, given that the
      walk over the buffer passes through `data`. */
  lemma TailAccepts(s: seq<byte>, st: ScanState)
    requires st.data + st.len == |s| && st.errIdx == st.data + 1
    requires NaiveFrom(s, st.data) == NaiveFrom(s, 0)
    ensures IsUtf8(s[st.data..st.data + st.len]) <==> IsUtf8(s)
  {
    NaiveValidIffUtf8(s, st.data);
    NaiveValidIffUtf8(s, 0);
    assert s[0..] == s && s[st.data..] == s[st.data..st.data + st.len];
  }
}
