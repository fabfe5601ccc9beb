# utf8_valid in Dafny

`src/utf8_valid.h` checks whether a byte buffer is well-formed UTF-8 in the
sense of Table 3-7 of the Unicode Standard (section 3.9, definition D92;
the same grammar is section 4 of RFC 3629). It has two validators.

- `utf8_valid_naive` is a scalar loop. The lead byte of each sequence fixes
  its length. The loop range-checks the bytes that follow. It stops at the
  first ill-formed or truncated sequence and reports the offset of that
  sequence's lead byte.
- `utf8_valid` checks 32 bytes at a time with AVX2 range tables. Each byte
  gets a range index, computed from the byte itself and the three bytes
  before it. The index selects a `[min, max]` pair that the byte must fall
  in. The loop stops when a block fails or fewer than 32 bytes remain.
  If no block passed (`len < 32` from the start, or the first block
  fails), the naive validator runs on the whole buffer. Otherwise the
  coordinator steps back 0 to 3 bytes: to the last byte among bytes 29..31
  of the last accepted block that is not a continuation byte, or not at
  all when all three are continuation bytes. The naive validator finishes
  from there, and its error offset is corrected by
  `err_idx + err_idx2 - 1`.

The project models both validators and the Table 3-7 grammar they
implement. It proves the following facts.

- The naive validator accepts exactly the UTF-8 buffers. When it fails, it
  reports exactly the lead byte of the first ill-formed or truncated
  sequence.
- Every AVX2 step of the block check is modelled as a function on 32 byte
  lanes. For each lane, the proofs show what the range index is and what
  the `[min, max]` check means.
- A passing block is exactly a block in which every byte passes its local
  check. Under this local check, a byte at a sequence boundary, and the
  bytes after a lead, pass exactly when Table 3-7 allows them.
- Every byte of a UTF-8 buffer passes its local check, so on UTF-8 input
  the block loop consumes every whole block.
- `utf8_valid` returns the same verdict and the same error index as
  `utf8_valid_naive` on every buffer.

The files and what they hold:

- `bytes.dfy`: bytes, the `signed char` reading of a byte, and the scalar
  arithmetic the intrinsics apply per lane.
- `table37.dfy`: the Table 3-7 reference grammar.
- `naive.dfy`: `utf8_valid_naive`.
- `lanes.dfy`: the AVX2 intrinsics as per-lane functions, and the
  `push_last_*` helpers.
- `range_tables.dfy`: the six constant tables.
- `range_index.dfy`: the range index of one lane and its meaning.
- `block.dfy`: one iteration of the block loop.
- `coordinator.dfy`: the block loop, the rewind, the offset formula and
  `utf8_valid`.
- `completeness.dfy`: the block check never rejects a UTF-8 buffer.
- `vectors.dfy`: the two buffers of `test.c`.

## Model

| member | source | states |
|---|---|---|
| Bytes.SignedContinuationTest | src/utf8_valid.h:46-68 | the test `(signed char)b <= (signed char)0xBF` holds exactly for the continuation bytes 80..BF |
| Table37.LeadDeterminesLength | src/utf8_valid.h:6-32 | in Table 3-7, two well-formed sequences with the same first byte have the same length |
| Table37.SequenceShape | src/utf8_valid.h:6-32 | the first byte of a well-formed sequence is not a continuation byte; every later byte is one |
| Table37.AppendIsUtf8 | src/utf8_valid.h:6-32 | two UTF-8 buffers concatenated are UTF-8 |
| Table37.AsciiIsUtf8 | src/utf8_valid.h:6-32 | every all-ASCII buffer, including the empty one, is UTF-8 |
| Naive.Step | src/utf8_valid.h:38-93 | one iteration accepts 1 to 4 bytes, and never more than the `len` bytes left |
| Naive.NaiveFrom | src/utf8_valid.h:36-96 | a failing walk from `err_idx` reports an offset at or after `err_idx` and inside the buffer |
| Naive.Utf8ValidNaive | src/utf8_valid.h:34-97 | a reported error index is below `len` |
| Naive.StepMatchesTable | src/utf8_valid.h:38-89 | one iteration accepts `k` bytes exactly when the `k` bytes at the cursor form a row of Table 3-7, and it fails exactly when no row starts there |
| Naive.RejectsOverlongSurrogatesAndBeyond | src/utf8_valid.h:46-76 | overlong forms (C0, C1, E0 80..9F, F0 80..8F), surrogates (ED A0..BF) and sequences above U+10FFFF (F4 90..BF, F5..FF) match no row and fail at their lead byte |
| Naive.RejectedIsNotUtf8 | src/utf8_valid.h:78-89 | a failing iteration means the rest of the buffer is not UTF-8 |
| Naive.AcceptedSplits | src/utf8_valid.h:91-93 | after an accepted sequence, what remains up to any later point is UTF-8 exactly when it was UTF-8 including that sequence |
| Naive.BoundaryAfterStep | src/utf8_valid.h:38-93 | if the bytes from the cursor up to `e` are UTF-8, the iteration accepts a sequence that ends at or before `e` |
| Naive.NaiveValidIffUtf8 | src/utf8_valid.h:38-96 | the walk from any offset returns true exactly when the rest of the buffer is a concatenation of Table 3-7 sequences |
| Naive.NaiveErrorIff | src/utf8_valid.h:78-89 | the walk fails at `e` exactly when `e` is inside the buffer, the bytes before it are UTF-8, and no well-formed sequence starts at `e`; so `e` is the lead byte of the first bad or truncated sequence |
| Naive.NaiveFromSuffix | src/utf8_valid.h:91-93 | walking with `data` advanced by `r` gives the walk over the whole buffer, with error offsets moved by `r` |
| Naive.TruncatedSequenceRejected | src/utf8_valid.h:46-89 | a valid buffer followed by a well-formed multi-byte sequence with its tail cut off fails at that sequence's lead byte |
| Naive.ValidNaive | src/utf8_valid.h:34-97 | the loop returns true exactly for UTF-8 buffers; `*error_index` is left unchanged on success; on failure it is below `len` and is the index the reference walk reports |
| Naive.EmptyBufferIsValid | src/utf8_valid.h:38 | the empty buffer is valid |
| Naive.LoneLeadRejected | src/utf8_valid.h:46-89 | the single byte C2 fails with index 0 |
| Lanes.PushLastBytes | src/utf8_valid.h:169-179 | `push_last_k_bytes_of_a_to_b(a, b)`, built from `permute2x128` and `alignr_epi8`, has `b[i - k]` in lane `i` when `i >= k`, and `a[32 - k + i]` otherwise |
| Lanes.ShuffleOfDuplicated | src/utf8_valid.h:106-166 | a `shuffle_epi8` (which looks up within each 128-bit half) through a table whose two halves are equal is the same lookup in every lane: 0 when bit 7 of the index is set, and otherwise the entry picked by its low nibble |
| Lanes.TestzOfOr | src/utf8_valid.h:283-286 | `testz` of the or of two compare masks holds exactly when both masks are zero in every lane |
| RangeTables.TablesDuplicated | src/utf8_valid.h:106-166 | each of the six tables holds the same 16 entries in both halves |
| RangeIndex.FirstLenClass | src/utf8_valid.h:99-109 | `first_len` is 0 for 00..BF, 1 for C0..DF, 2 for E0..EF and 3 for F0..FF |
| RangeIndex.FirstRangeClass | src/utf8_valid.h:111-115 | the initial range index is 8 for C0..FF and 0 otherwise |
| RangeIndex.SecondByteAdjustment | src/utf8_valid.h:261-276 | the `range2` correction computed from the previous byte is 2 after E0, 3 after ED, 3 after F0, 4 after F4, and 0 after any other byte, which are exactly the leads whose second byte is narrower than 80..BF |
| RangeIndex.AdjustmentBelowDf | src/utf8_valid.h:263-274 | below DF, `pos = prev - 0xEF` wraps so that both lookups read 0 |
| RangeIndex.AdjustmentDfToEe | src/utf8_valid.h:263-274 | for DF..EE, `subs(pos, 240)` reads entry `prev - 0xDF` of `_df_ee_tbl` (2 for E0, 3 for ED, else 0), and the saturated `adds(pos, 112)` reads 0 |
| RangeIndex.AdjustmentEfToFf | src/utf8_valid.h:263-274 | for EF..FE, `adds(pos, 112)` reads entry `prev - 0xEF` of `_ef_fe_tbl` (3 for F0, 4 for F4, else 0) and `subs(pos, 240)` reads 0; FF lands on index 128, which reads 0 |
| RangeIndex.IndexArithmetic | src/utf8_valid.h:216-276 | the or of the first-byte class (0 or 8) with three lookback terms (0..3), plus a correction of at most 4, neither carries nor wraps |
| RangeIndex.RangeIndexOf | src/utf8_valid.h:205-284 | the range index of a lane, from the byte and the three bytes before it, is at most 15, so every range-table lookup reads one of the 16 entries; what each index means is stated by LeadPosition, SecondByteIndex, SecondPosition, ThirdPosition and FourthPosition |
| RangeIndex.RangeTableMeaning | src/utf8_valid.h:118-140 | under the signed compares, each index admits the byte range its comment names: 0 is 00..7F, 1..3 are 80..BF, 4 is A0..BF, 5 is 80..9F, 6 is 90..BF, 7 is 80..8F, 8 is C2..F4; 9..15 admit no byte |
| RangeIndex.LeadPosition | src/utf8_valid.h:111-140 | when no lead among the three previous bytes still expects a continuation, a byte passes exactly when it is ASCII or a legal lead C2..F4 |
| RangeIndex.SecondByteIndex | src/utf8_valid.h:216-276 | the byte after a legal lead gets index 4, 5, 6 or 7 after E0, ED, F0 or F4, and the lead's `first_len` after any other lead; a first byte C0..FF there gets an illegal index 9..15 |
| RangeIndex.SecondPosition | src/utf8_valid.h:118-166 | the byte after a legal lead passes exactly when it is in that lead's second-byte column of Table 3-7 |
| RangeIndex.ThirdPosition | src/utf8_valid.h:224-234 | the byte two after a three- or four-byte lead, past a continuation byte, passes exactly when it is a continuation byte |
| RangeIndex.FourthPosition | src/utf8_valid.h:236-243 | the byte three after a four-byte lead, past two continuation bytes, passes exactly when it is a continuation byte |
| Block.FirstLensLanes | src/utf8_valid.h:205-212 | the `first_len` register holds the `first_len` of the high nibble of every lane |
| Block.BackOfFirstLens | src/utf8_valid.h:221-243 | shifting the `first_len` registers by `k` lanes gives the `first_len` of the byte `k` positions earlier, reaching into the previous block |
| Block.RangeIndicesLanes | src/utf8_valid.h:216-276 | each lane of the final `range` register is the range index of its byte and the three bytes before it in memory |
| Block.ErrorMaskLanes | src/utf8_valid.h:279-286 | the block passes `testz` exactly when every lane lies within the bounds its index selects |
| Block.BlockCheck | src/utf8_valid.h:202-290 | one loop iteration (`first_len`, `range` and `error` registers, then `testz`): the carried `first_len` register is correct for the next block, and, when the previous carry was correct, the block passes exactly when every lane passes its local check; the three registers are given their per-lane meaning by FirstLensLanes, RangeIndicesLanes and ErrorMaskLanes |
| Coordinator.InitialState | src/utf8_valid.h:182-186 | the state before the first block, with `err_idx = 1` and zero carry registers, meets the loop invariant: `err_idx - 1 + len` is the buffer length, the zero `prev_first_len` is the `first_len` of the zero `prev_input`, and no byte is consumed yet |
| Coordinator.Scan | src/utf8_valid.h:202-295 | the block loop keeps its invariant: every passing block advances `data`, `len` and `err_idx` by 32 and carries its input and `first_len`; every consumed byte passed its local check; the carry is unchanged when no block passes; the loop ends when fewer than 32 bytes remain or a block fails |
| Coordinator.BlockPassesIff | src/utf8_valid.h:202-287 | the block at `data` passes exactly when every one of its 32 positions passes its local check on the buffer, with zeros before the buffer start |
| Coordinator.LanesArePositions | src/utf8_valid.h:169-179 | a lane whose lookback bytes are the buffer's bytes passes exactly when that buffer position does |
| Coordinator.Lookahead | src/utf8_valid.h:302-310 | `lookahead` is 0..3; when it is 1, 2 or 3, byte 31, 30 or 29 of the last accepted block is the last non-continuation byte; when it is 0, bytes 29..31 are all continuation bytes |
| Coordinator.Rewind | src/utf8_valid.h:312-314 | after at least one passing block the rewind stays within the buffer, keeps `err_idx = data + 1` and `data + len` equal to the buffer length, and lands on the restart point |
| Coordinator.LookaheadIsRestart | src/utf8_valid.h:300-314 | stepping back `lookahead` bytes from the end of the last accepted block reaches its last non-continuation byte, or stays put when the last three bytes are continuation bytes |
| Coordinator.StepBeforeRestart | src/utf8_valid.h:300-314 | before the restart point, at a sequence boundary, the naive walk accepts a sequence that ends at or before the restart point and lands on another boundary |
| Coordinator.Reach | src/utf8_valid.h:300-320 | when every consumed byte passed its local check, the naive walk from the start reaches the restart point through well-formed sequences, so the restart never lands mid-sequence |
| Coordinator.RestartReached | src/utf8_valid.h:300-320 | after at least one passing block, the bytes before the restart point are UTF-8, and the naive walk over the whole buffer is the walk from the restart point |
| Coordinator.NaiveTail | src/utf8_valid.h:316-322 | the `do_naive` fallback on the `len` bytes left, with `err_idx + err_idx2 - 1`, reports an offset within those bytes; NaiveTailFromData says which |
| Coordinator.Utf8Valid | src/utf8_valid.h:181-325 | `utf8_valid` reports an error index inside the buffer; its verdict and index are those of `utf8_valid_naive` by Utf8ValidAgreesWithNaive |
| Coordinator.NaiveTailFromData | src/utf8_valid.h:316-322 | with `err_idx = data + 1`, the naive validator on the `len` bytes at `data`, with its offset corrected by `err_idx + err_idx2 - 1`, is the walk over the whole buffer from `data` |
| Coordinator.TailDecides | src/utf8_valid.h:316-322 | once the walk over the buffer passes through `data`, the tail is UTF-8 exactly when the buffer is, and the corrected offset is the buffer's error index |
| Coordinator.Utf8ValidAgreesWithNaive | src/utf8_valid.h:181-325 | `utf8_valid` and `utf8_valid_naive` agree on every buffer, on the verdict and on the error index, including the `len < 32` and first-block-fails fallbacks |
| Coordinator.Utf8ValidIffUtf8 | src/utf8_valid.h:181-325 | `utf8_valid` returns true exactly for UTF-8 buffers |
| Coordinator.Utf8ValidErrorIff | src/utf8_valid.h:316-322 | `utf8_valid` reports `e` exactly when `e` is inside the buffer, the bytes before it are UTF-8, and no well-formed sequence starts at `e` |
| Coordinator.ValidAvx2 | src/utf8_valid.h:181-325 | the loop form of `utf8_valid` returns true exactly for UTF-8 buffers; `*error_index` is left unchanged on success; on failure it is below `len` and equals both the functional model's index and the naive validator's index |
| Completeness.SequencePasses | src/utf8_valid.h:202-287 | at a sequence boundary, every byte of a well-formed sequence passes its local check, and the boundary after the sequence is again clean |
| Completeness.PassesFrom | src/utf8_valid.h:202-287 | from a sequence boundary, if the rest of the buffer is UTF-8 then every byte from there on passes its local check |
| Completeness.Utf8PassesEveryPosition | src/utf8_valid.h:202-287 | every byte of a UTF-8 buffer passes its local check |
| Completeness.Utf8PassesEveryBlock | src/utf8_valid.h:202-295 | on a UTF-8 buffer the block loop never stops at a failing block: it ends with fewer than 32 bytes left |
| Vectors.StrayContinuationAt30 | test.c:19-23 | "abcdefghijklmnopqrstuvwxyzabcd" followed by 80 01 is invalid with error index 30 |
| Vectors.GreetingAccepted | test.c:13-17 | the first 39 bytes of the greeting are valid; the block loop consumes its one whole block (`data = 32`) and the rewind steps back one byte to the lead D8 at offset 31 |

## Left out

- The `srli_epi16` and mask trick is modelled by its per-byte result, the high nibble `b / 16`. The 16-bit shift itself is not modelled.
- Register types, `loadu`, pointer arithmetic, alignment and `alignas` are not modelled. A block is the 32 bytes at offset `data`.
- `extract_epi32(prev_input, 7)` and the `int8_t` view of `token4` are modelled as bytes 28..31 of the block, least significant first. This is the little-endian layout the code assumes.
- `err_idx` is an `int` at src/utf8_valid.h:182 and can overflow for buffers over INT_MAX bytes. The model uses unbounded naturals.
- `size_t` arithmetic of `len` and `err_idx` is not modelled. The model's `nat` values never wrap.
- Vectors.GreetingAccepted covers only the first 39 bytes (the Latin and first Arabic words) of the test buffer at test.c:13, not the whole multi-script text.
- The `greatest` test harness and `main` of test.c are not modelled. Only its two assertions appear, as concrete checks.
- Comments that do not match the code are not modelled:
  - the table at src/utf8_valid.h:154 gives F4's adjusted range as 8, but the code gives 3 + 4 = 7, the 80..8F entry;
  - "Error in first 16 bytes" at src/utf8_valid.h:297 means the first 32-byte block.
- Decoding to code points and streaming across calls are out of scope, because the code does neither.
