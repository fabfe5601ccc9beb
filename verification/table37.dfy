/** Well-formed UTF-8 as Table 3-7 of the Unicode Standard (section 3.9,
    definition D92) states it; the same grammar is section 4 of RFC 3629.
    This is the reference the two validators are measured against.
 */
module Table37 {
  import opened Bytes

  /** A trailing byte: 80..BF. */
  predicate IsContinuation(b: byte)
  {
    0x80 <= b <= 0xBF
  }

  /** `t` is one row of Table 3-7: a single well-formed byte sequence. */
  predicate WellFormedSequence(t: seq<byte>)
  {
    // U+0000..U+007F
    || (|t| == 1 && t[0] <= 0x7F)
    // U+0080..U+07FF
    || (|t| == 2 && 0xC2 <= t[0] <= 0xDF && IsContinuation(t[1]))
    // U+0800..U+0FFF
    || (|t| == 3 && t[0] == 0xE0 && 0xA0 <= t[1] <= 0xBF && IsContinuation(t[2]))
    // U+1000..U+CFFF
    || (|t| == 3 && 0xE1 <= t[0] <= 0xEC && IsContinuation(t[1]) && IsContinuation(t[2]))
    // U+D000..U+D7FF
    || (|t| == 3 && t[0] == 0xED && 0x80 <= t[1] <= 0x9F && IsContinuation(t[2]))
    // U+E000..U+FFFF
    || (|t| == 3 && 0xEE <= t[0] <= 0xEF && IsContinuation(t[1]) && IsContinuation(t[2]))
    // U+10000..U+3FFFF
    || (|t| == 4 && t[0] == 0xF0 && 0x90 <= t[1] <= 0xBF
        && IsContinuation(t[2]) && IsContinuation(t[3]))
    // U+40000..U+FFFFF
    || (|t| == 4 && 0xF1 <= t[0] <= 0xF3 && IsContinuation(t[1])
        && IsContinuation(t[2]) && IsContinuation(t[3]))
    // U+100000..U+10FFFF
    || (|t| == 4 && t[0] == 0xF4 && 0x80 <= t[1] <= 0x8F
        && IsContinuation(t[2]) && IsContinuation(t[3]))
  }

  /** `s` is a concatenation of well-formed byte sequences. */
  predicate IsUtf8(s: seq<byte>)
    decreases |s|, 1
  {
    || |s| == 0
    || exists k | 1 <= k <= 4 :: SplitsAt(s, k)
  }

  /** `s` starts with a well-formed sequence of `k` bytes and the rest of it
      is a concatenation of well-formed sequences. */
  predicate SplitsAt(s: seq<byte>, k: nat)
    decreases |s|, 0
  {
    1 <= k <= |s| && WellFormedSequence(s[..k]) && IsUtf8(s[k..])
  }

  /** A non-empty UTF-8 buffer begins with a well-formed sequence of some
      length `k` after which it is still UTF-8. */
  lemma FirstSequence(s: seq<byte>) returns (k: nat)
    requires IsUtf8(s) && |s| > 0
    ensures 1 <= k <= 4 && SplitsAt(s, k)
  {
    k :| 1 <= k <= 4 && SplitsAt(s, k);
  }

  /** A well-formed sequence followed by a UTF-8 buffer is a UTF-8 buffer. */
  lemma PrependSequence(s: seq<byte>, k: nat)
    requires 1 <= k <= 4 && SplitsAt(s, k)
    ensures IsUtf8(s)
  {
  }

  /** No well-formed sequence starts at offset `i` of `s`, whatever its length:
      the bytes there are ill-formed or the sequence is truncated by the end. */
  predicate NoSequenceAt(s: seq<byte>, i: nat)
  {
    forall k :: 1 <= k <= 4 ==> !StartsSequence(s, i, k)
  }

  /** The `k` bytes at offset `i` of `s` exist and form a well-formed sequence. */
  predicate StartsSequence(s: seq<byte>, i: nat, k: nat)
  {
    i + k <= |s| && WellFormedSequence(s[i..i + k])
  }

  /** The lead byte alone fixes the length of a well-formed sequence, so two
      well-formed sequences with the same first byte have the same length. */
  lemma LeadDeterminesLength(t: seq<byte>, u: seq<byte>)
    requires |t| > 0 && |u| > 0 && t[0] == u[0]
    ensures WellFormedSequence(t) && WellFormedSequence(u) ==> |t| == |u|
  {
  }

  /** A well-formed sequence of two or more bytes has a lead byte that is not
      a continuation byte and continuation bytes after it. */
  lemma SequenceShape(t: seq<byte>)
    requires WellFormedSequence(t)
    ensures !IsContinuation(t[0])
    ensures forall j :: 1 <= j < |t| ==> IsContinuation(t[j])
  {
  }

  /** The concatenation of two UTF-8 buffers is UTF-8. */
  lemma {:induction false} AppendIsUtf8(a: seq<byte>, b: seq<byte>)
    requires IsUtf8(a) && IsUtf8(b)
    ensures IsUtf8(a + b)
    decreases |a|
  {
    if |a| == 0 {
      assert a + b == b;
    } else {
      var k := FirstSequence(a);
      AppendIsUtf8(a[k..], b);
      assert (a + b)[..k] == a[..k];
      assert (a + b)[k..] == a[k..] + b;
      assert SplitsAt(a + b, k);
    }
  }

  /** Every all-ASCII buffer, including the empty one, is UTF-8. */
  lemma {:induction false} AsciiIsUtf8(s: seq<byte>)
    requires forall j :: 0 <= j < |s| ==> s[j] <= 0x7F
    ensures IsUtf8(s)
    decreases |s|
  {
    if |s| > 0 {
      assert WellFormedSequence(s[..1]);
      AsciiIsUtf8(s[1..]);
      assert SplitsAt(s, 1);
    }
  }
}
