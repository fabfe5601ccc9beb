/** The two buffers of the repository's test: the 32-byte buffer with a
    stray continuation byte at offset 30, and the opening of the greeting,
    whose first block ends on a lead byte so the rewind steps back one byte.
 */
module Vectors {
  import opened Bytes
  import opened Table37
  import opened Naive
  import opened Coordinator
  import opened Completeness

  /** "abcdefghijklmnopqrstuvwxyzabcd" */
  const Alphabet: seq<byte> := [
    0x61, 0x62, 0x63, 0x64, 0x65, 0x66, 0x67, 0x68, 0x69, 0x6A, 0x6B, 0x6C, 0x6D, 0x6E, 0x6F,
    0x70, 0x71, 0x72, 0x73, 0x74, 0x75, 0x76, 0x77, 0x78, 0x79, 0x7A, 0x61, 0x62, 0x63, 0x64
  ]

  /** "we on a world tour " */
  const Latin: seq<byte> := [
    0x77, 0x65, 0x20, 0x6F, 0x6E, 0x20, 0x61, 0x20, 0x77, 0x6F, 0x72, 0x6C, 0x64, 0x20,
    0x74, 0x6F, 0x75, 0x72, 0x20
  ]

  /** The Arabic words for "we", "in" and "tour" of the greeting, two bytes
      per letter, each followed by its space except the last. */
  const We: seq<byte> := [0xD9, 0x86, 0xD8, 0xAD, 0xD9, 0x86, 0x20]
  const In: seq<byte> := [0xD9, 0x81, 0xD9, 0x8A, 0x20]
  const Tour: seq<byte> := [0xD8, 0xAC, 0xD9, 0x88, 0xD9, 0x84, 0xD8, 0xA9]

  /** The invalid buffer of the test, "abcdefghijklmnopqrstuvwxyzabcd"
      followed by 80 01: `utf8_valid` fails with error index 30, the stray
      80. */
  lemma StrayContinuationAt30(s: seq<byte>)
    requires |s| == 32 && s[..30] == Alphabet && s[30] == 0x80 && s[31] == 0x01
    ensures Utf8Valid(s) == Invalid(30)
  {
    AsciiIsUtf8(Alphabet);
    ContinuationStartsNothing(s, 30);
    Utf8ValidErrorIff(s, 30);
  }

  /** No well-formed sequence starts at a continuation byte. */
  lemma ContinuationStartsNothing(s: seq<byte>, i: nat)
    requires i < |s| && IsContinuation(s[i])
    ensures NoSequenceAt(s, i)
  {
    forall k | 1 <= k <= 4
      ensures !StartsSequence(s, i, k)
    {
      if i + k <= |s| {
        assert s[i..i + k][0] == s[i];
      }
    }
  }

  /** The first 39 bytes of the valid buffer of the test, "we on a world
      tour " and three Arabic words, are accepted. Offset 31 is the lead
      byte D8 of the letter that straddles the first block: the first block
      passes and the rewind steps back one byte, to offset 31. */
  lemma GreetingAccepted(s: seq<byte>)
    requires |s| == 39 && s[..19] == Latin && s[19..26] == We && s[26..31] == In && s[31..] == Tour
    ensures Utf8Valid(s) == Valid
    ensures Scan(s, InitialState(s)).data == 32 && Rewind(s, Scan(s, InitialState(s))).data == 31
  {
    GreetingIsUtf8(s);
    Utf8ValidIffUtf8(s);
    TourStartsWithLead(s);
    OneWholeBlock(s);
    RewindByOne(s, Scan(s, InitialState(s)));
  }

  lemma GreetingIsUtf8(s: seq<byte>)
    requires |s| == 39 && s[..19] == Latin && s[19..26] == We && s[26..31] == In && s[31..] == Tour
    ensures IsUtf8(s)
  {
    AsciiIsUtf8(Latin);
    WordsAreUtf8();
    JoinFour(s, 19, 26, 31);
  }

  /** Offset 31 of the greeting holds D8, the lead byte of the first
      Arabic letter of the last word. */
  lemma TourStartsWithLead(s: seq<byte>)
    requires |s| == 39 && s[31..] == Tour
    ensures !IsContinuation(s[31])
  {
    assert s[31] == s[31..][0];
  }

  /** A UTF-8 buffer of 39 bytes has exactly one whole block, and it passes. */
  lemma OneWholeBlock(s: seq<byte>)
    requires IsUtf8(s) && |s| == 39
    ensures Scan(s, InitialState(s)).data == 32
  {
    Utf8PassesEveryBlock(s);
  }

  /** After one accepted block whose last byte starts a sequence, the rewind
      steps back by exactly that byte. */
  lemma RewindByOne(s: seq<byte>, st: ScanState)
    requires ScanInvariant(s, st) && st.data == 32 && !IsContinuation(s[31])
    ensures Rewind(s, st).data == 31
  {
    assert st.prevInput[31] == s[31];
  }

  /** The three Arabic words, space included, are UTF-8. */
  lemma WordsAreUtf8()
    ensures IsUtf8(We + (In + Tour))
  {
    WeIsUtf8();
    InIsUtf8();
    TourIsUtf8();
    AppendIsUtf8(In, Tour);
    AppendIsUtf8(We, In + Tour);
  }

  lemma WeIsUtf8()
    ensures IsUtf8(We)
  {
    AcceptedPiece(We);
  }

  lemma InIsUtf8()
    ensures IsUtf8(In)
  {
    AcceptedPiece(In);
  }

  lemma TourIsUtf8()
    ensures IsUtf8(Tour)
  {
    AcceptedPiece(Tour);
  }

  /** A short buffer the naive walk accepts is UTF-8. */
  lemma AcceptedPiece(t: seq<byte>)
    requires Utf8ValidNaive(t) == Valid
    ensures IsUtf8(t)
  {
    NaiveValidIffUtf8(t, 0);
    assert t[0..] == t;
  }

  /** A buffer whose head `s[..a]` and whose rest, read as three pieces, are
      well-formed is well-formed. */
  lemma JoinFour(s: seq<byte>, a: nat, b: nat, c: nat)
    requires a <= b <= c <= |s|
    requires IsUtf8(s[..a]) && IsUtf8(s[a..b] + (s[b..c] + s[c..]))
    ensures IsUtf8(s)
  {
    AppendIsUtf8(s[..a], s[a..b] + (s[b..c] + s[c..]));
    SplitFour(s, a, b, c);
  }

  /** A buffer is its four pieces cut at `a`, `b` and `c`. */
  lemma SplitFour(s: seq<byte>, a: nat, b: nat, c: nat)
    requires a <= b <= c <= |s|
    ensures s == s[..a] + (s[a..b] + (s[b..c] + s[c..]))
  {
  }
}
