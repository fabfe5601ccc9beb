/** The block check never rejects UTF-8: at every position of a UTF-8
    buffer the range index admits the byte there, so every block of a UTF-8
    buffer passes and the block loop runs until fewer than 32 bytes remain.
 */
module Completeness {
  import opened Bytes
  import opened Table37
  import opened RangeIndex
  import opened Coordinator

  /** The lead byte of a well-formed sequence at a sequence boundary passes. */
  lemma LeadPasses(s: seq<byte>, i: nat, k: nat)
    requires CleanAt(s, i) && 1 <= k <= 4 && StartsSequence(s, i, k)
    ensures LocalOkAt(s, i)
  {
    assert s[i..i + k][0] == s[i];
    LeadPosition(At(s, i - 3), At(s, i - 2), At(s, i - 1), s[i]);
  }

  /** The second byte of a well-formed sequence after a clean lead passes. */
  lemma SecondPasses(s: seq<byte>, i: nat, k: nat)
    requires CleanAt(s, i) && 2 <= k <= 4 && StartsSequence(s, i, k)
    ensures LocalOkAt(s, i + 1)
  {
    var t := s[i..i + k];
    assert t[0] == s[i] && t[1] == s[i + 1];
    SecondPosition(At(s, i - 3), At(s, i - 2), At(s, i - 1), s[i], s[i + 1]);
    assert At(s, i + 1 - 3) == At(s, i - 2) && At(s, i + 1 - 2) == At(s, i - 1) && At(s, i + 1 - 1) == s[i];
  }

  /** The third byte of a well-formed three- or four-byte sequence passes. */
  lemma ThirdPasses(s: seq<byte>, i: nat, k: nat)
    requires CleanAt(s, i) && 3 <= k <= 4 && StartsSequence(s, i, k)
    ensures LocalOkAt(s, i + 2)
  {
    var t := s[i..i + k];
    assert t[0] == s[i] && t[1] == s[i + 1] && t[2] == s[i + 2];
    ThirdPosition(At(s, i - 1), s[i], s[i + 1], s[i + 2]);
    assert At(s, i + 2 - 3) == At(s, i - 1) && At(s, i + 2 - 2) == s[i] && At(s, i + 2 - 1) == s[i + 1];
  }

  /** The fourth byte of a well-formed four-byte sequence passes. */
  lemma FourthPasses(s: seq<byte>, i: nat)
    requires StartsSequence(s, i, 4)
    ensures LocalOkAt(s, i + 3)
  {
    var t := s[i..i + 4];
    assert t[0] == s[i] && t[1] == s[i + 1] && t[2] == s[i + 2] && t[3] == s[i + 3];
    FourthPosition(s[i], s[i + 1], s[i + 2], s[i + 3]);
    assert At(s, i + 3 - 3) == s[i] && At(s, i + 3 - 2) == s[i + 1] && At(s, i + 3 - 1) == s[i + 2];
  }

  /** A well-formed sequence ends on a sequence boundary. */
  lemma CleanAfter(s: seq<byte>, i: nat, k: nat)
    requires CleanAt(s, i) && 1 <= k <= 4 && StartsSequence(s, i, k)
    ensures CleanAt(s, i + k)
  {
    var t := s[i..i + k];
    assert t[0] == s[i];
    if k == 1 {
      var n := StepOverAscii(s, i);
    } else {
      assert t[1] == s[i + 1];
      assert k >= 3 ==> t[2] == s[i + 2];
      assert k == 4 ==> t[3] == s[i + 3];
      assert Announced(s[i]) + 1 == k;
      CleanAfterSequence(s, i);
    }
  }

  /** Every byte of a well-formed sequence at a sequence boundary passes,
      and the position after it is again a boundary. */
  lemma SequencePasses(s: seq<byte>, i: nat, k: nat)
    requires CleanAt(s, i) && 1 <= k <= 4 && StartsSequence(s, i, k)
    ensures LocalOkAt(s, i)
    ensures k >= 2 ==> LocalOkAt(s, i + 1)
    ensures k >= 3 ==> LocalOkAt(s, i + 2)
    ensures k == 4 ==> LocalOkAt(s, i + 3)
    ensures CleanAt(s, i + k)
  {
    LeadPasses(s, i, k);
    if k >= 2 {
      SecondPasses(s, i, k);
    }
    if k >= 3 {
      ThirdPasses(s, i, k);
    }
    if k == 4 {
      FourthPasses(s, i);
    }
    CleanAfter(s, i, k);
  }

  /** From a sequence boundary, every position of a UTF-8 rest passes. */
  lemma {:induction false} PassesFrom(s: seq<byte>, i: nat)
    requires i <= |s| && CleanAt(s, i) && IsUtf8(s[i..])
    ensures forall j :: i <= j < |s| ==> LocalOkAt(s, j)
    decreases |s| - i
  {
    if i < |s| {
      var k := SequenceAt(s, i);
      SequencePasses(s, i, k);
      PassesFrom(s, i + k);
      JoinPositions(s, i, k);
    }
  }

  /** A UTF-8 rest starts with a well-formed sequence and goes on with a
      UTF-8 rest. */
  lemma SequenceAt(s: seq<byte>, i: nat) returns (k: nat)
    requires i < |s| && IsUtf8(s[i..])
    ensures 1 <= k <= 4 && StartsSequence(s, i, k) && IsUtf8(s[i + k..])
  {
    k := FirstSequence(s[i..]);
    assert s[i..][..k] == s[i..i + k];
    assert s[i..][k..] == s[i + k..];
  }

  /** The positions of one sequence of `k` bytes at `i` pass, and so do all
      positions after it: then every position from `i` on passes. */
  lemma JoinPositions(s: seq<byte>, i: nat, k: nat)
    requires 1 <= k <= 4 && i + k <= |s|
    requires LocalOkAt(s, i)
    requires k >= 2 ==> LocalOkAt(s, i + 1)
    requires k >= 3 ==> LocalOkAt(s, i + 2)
    requires k == 4 ==> LocalOkAt(s, i + 3)
    requires forall j :: i + k <= j < |s| ==> LocalOkAt(s, j)
    ensures forall j :: i <= j < |s| ==> LocalOkAt(s, j)
  {
    forall j | i <= j < |s|
      ensures LocalOkAt(s, j)
    {
      if j < i + k {
        SequencePositionOk(s, i, k, j);
      } else {
        PositionOk(s, i + k, |s|, j);
      }
    }
  }

  /** Each of the `k` positions of a sequence whose positions all pass. */
  lemma SequencePositionOk(s: seq<byte>, i: nat, k: nat, j: nat)
    requires 1 <= k <= 4 && i <= j < i + k <= |s|
    requires LocalOkAt(s, i)
    requires k >= 2 ==> LocalOkAt(s, i + 1)
    requires k >= 3 ==> LocalOkAt(s, i + 2)
    requires k == 4 ==> LocalOkAt(s, i + 3)
    ensures LocalOkAt(s, j)
  {
    if j == i {
    } else if j == i + 1 {
    } else if j == i + 2 {
    } else {
      assert j == i + 3;
    }
  }

  /** Every position of a UTF-8 buffer passes the local check of the block
      validator. */
  lemma Utf8PassesEveryPosition(s: seq<byte>)
    requires IsUtf8(s)
    ensures forall j :: 0 <= j < |s| ==> LocalOkAt(s, j)
  {
    CleanStart(s);
    assert s[0..] == s;
    PassesFrom(s, 0);
  }

  /** On a UTF-8 buffer no block fails: the block loop consumes every whole
      block and stops with fewer than 32 bytes left. */
  lemma Utf8PassesEveryBlock(s: seq<byte>)
    requires IsUtf8(s)
    ensures Scan(s, InitialState(s)).len < 32
  {
    var r := Scan(s, InitialState(s));
    if r.len >= 32 {
      Utf8PassesEveryPosition(s);
      BlockPassesIff(s, r);
    }
  }
}
