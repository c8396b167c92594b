# sais: parallel suffix array and LCP array, modelled in Dafny

This project models `src/lib.rs` of the `sais` crate. The file contains
three pieces:

- `suffix_compare` orders suffix records. It compares the bytes from each
  start offset to the end of the text, and the recorded lengths break a tie.
- `construct_suffix_array_parallel` builds the suffix array in four steps:
  - it makes one `Suffix` record per start offset;
  - it cuts the records into chunks of `len / num_cpus` (or the whole input
    when there are fewer records than CPUs);
  - it sorts each chunk with `sort_by(suffix_compare)`;
  - it merges the sorted chunks with a k-way merge. The merge keeps a cursor
    per chunk, repeatedly scans the chunk heads for the first smallest one,
    emits its start offset and advances that chunk's cursor.
- `lcp_array_parallel` inverts the suffix array into a rank array. Then, for
  each text offset `j` in `1..n`, it scans forward to find the common prefix
  of the suffix at `j` and the suffix just before it in sorted order.

Files:

- `Lexicographic.dfy`: bytes, `Ordering`, `then_with` and `<[u8]>::cmp`
  (`Compare`). It also holds the longest common prefix `Lcp` and the laws of
  the byte order: equality, antisymmetry, transitivity, and that the first
  difference decides.
- `SuffixOrder.dfy`: the `Suffix` record and `suffix_compare`, with their
  laws.
- `Permutations.dfy`: permutations of `0..n`.
- `Chunking.dfy`: `chunks`, and the bookkeeping for the merge cursors.
- `SuffixArray.dfy`: `construct_suffix_array_parallel`.
  - `SelectMinimum` is the inner scan over chunk heads.
  - `MergeChunks` is the merge loop. Its cursors are a sequence of offsets
    into the chunks.
  - `BuildSuffixArray` is the whole function. Its output is proved to be a
    permutation of `0..n` whose suffixes strictly ascend.
  - Suffix arrays are proved unique, which gives the "banana" unit test.
- `LcpArray.dfy`: `lcp_array_parallel`, both as written and indexed by
  sorted position.
- `Wrappers.dfy`: `Option`.

The documented design indexes the LCP array by sorted position (entry
`k - 1` pairs `sa[k - 1]` with `sa[k]`), and it gives the empty text an
empty suffix array. The code does neither, so the model follows the code.
The two differences are listed under "## Findings", each with its corrected
counterpart.

## Model

| member | source | states |
|---|---|---|
| Lexicographic.LcpProperties | src/lib.rs:96-98 | the strings agree on the first `Lcp` bytes, and at that length one string has ended or the bytes differ |
| Lexicographic.LcpUnique | src/lib.rs:96-98 | any length with those three properties is the longest common prefix, so a scan that stops at the first mismatch computes it |
| Lexicographic.LcpSymmetric | src/lib.rs:95-98 | the common prefix of two suffixes does not depend on which is scanned as `j` and which as `k` |
| Lexicographic.CompareAtFirstDifference | src/lib.rs:24-25 | the byte comparison is decided at the longest common prefix: the smaller byte there wins, and a proper prefix comes first |
| Lexicographic.CompareEqualIff | src/lib.rs:24-25 | the byte comparison answers Equal exactly when the two byte strings are equal |
| Lexicographic.CompareFlip | src/lib.rs:24-25 | swapping the operands reverses the answer |
| Lexicographic.CompareLessTransitive | src/lib.rs:24-25 | Less is transitive |
| Lexicographic.CompareAtMostTransitive | src/lib.rs:24-25 | "not Greater" is transitive |
| SuffixOrder.SuffixCompareIsByteOrder | src/lib.rs:23-27 | on two well-formed records of one text the length tie-break never decides: the answer is the byte comparison of the two suffixes |
| SuffixOrder.SuffixCompareEqualIff | src/lib.rs:23-27 | two well-formed records compare Equal if and only if they start at the same offset, if and only if they are the same record |
| SuffixOrder.SuffixCompareFlip | src/lib.rs:23-27 | swapping the records reverses the answer |
| SuffixOrder.SuffixCompareAtMostTransitive | src/lib.rs:23-27 | "not after" is transitive on records of one text |
| SuffixOrder.SuffixCompareLessAtMost | src/lib.rs:23-27 | a record before one that is not after a third is before the third |
| SuffixOrder.StartsMultiset | src/lib.rs:75 | rearranging records rearranges the start offsets pushed for them alike |
| SuffixArray.Suffixes | src/lib.rs:32-38 | every record is well formed (offset inside the text, length to its end) and the records' offsets are exactly 0, 1, ..., n - 1 in order |
| SuffixArray.ChunkSize | src/lib.rs:42-46 | the chunk size never exceeds the record count, is at least 1 for a non-empty text, and with at least as many records as threads it is the floor of records / threads |
| SuffixArray.DivisionBounds | src/lib.rs:45 | with at least as many records as threads, `len / num_threads` is at least 1, at most the record count, and the floor of the quotient |
| SuffixArray.EmptyTextHasZeroChunkSize | src/lib.rs:42-48 | for the empty text the chunk size handed to `par_chunks` is 0 |
| Chunking.Chunks | src/lib.rs:47-48 | the chunks glue back to the input, each holds 1 to `size` records, all but the last exactly `size`, and there are no more chunks than records |
| SuffixArray.Insert | src/lib.rs:52 | inserting a well-formed record into a sorted run gives a sorted run with one more occurrence of the record |
| SuffixArray.SortChunk | src/lib.rs:49-54 | the sorted chunk is sorted by `suffix_compare` and is a rearrangement of the chunk |
| Chunking.FlattenMultiset | src/lib.rs:47-55 | sorting every chunk rearranges the concatenation of the chunks and loses or adds no record |
| SuffixArray.SelectMinimum | src/lib.rs:61-73 | the scan finds nothing exactly when every cursor is at its chunk's end; otherwise it returns a waiting head and its chunk, that head is not after any waiting head, and it is strictly before the heads of earlier chunks (the first smallest head wins) |
| Chunking.SomeChunkRemains | src/lib.rs:60-73 | while fewer records than the text holds have been emitted, some chunk still has a head, so the scan finds one |
| Chunking.ConsumedAdvance | src/lib.rs:74-77 | advancing the selected cursor adds exactly the selected record to the passed records, and the cursor stays inside its chunk |
| Chunking.SumOfAdvance | src/lib.rs:76 | advancing one cursor raises the number of passed records by one |
| Chunking.ConsumedLength | src/lib.rs:58-60 | the cursors have passed as many records as the sum of their values, and no more than the chunks hold |
| Chunking.AllConsumed | src/lib.rs:60 | once the cursors have passed as many records as there are, they have passed all of them |
| Chunking.NoneConsumed | src/lib.rs:58-59 | the zero-filled cursors have passed nothing |
| SuffixArray.MergeStep | src/lib.rs:74-77 | pushing the smallest head's offset and advancing its cursor keeps the merge invariant: cursors in range, output = offsets of the passed records, emitted records sorted, last one not after any waiting head |
| SuffixArray.PassedStep | src/lib.rs:74-77 | pushing the head's offset and advancing its cursor keeps the output equal to the offsets of the emitted records, and the emitted records a rearrangement of the passed ones |
| SuffixArray.InOrderStep | src/lib.rs:74-77 | emitting the smallest waiting head keeps the emitted records sorted and the last one not after any waiting head |
| SuffixArray.HeadsAfterStep | src/lib.rs:74-76 | after the cursor advances, the emitted head is still not after any waiting head, because each chunk is sorted |
| SuffixArray.MergeFinished | src/lib.rs:60-80 | when the loop stops, the output is a rearrangement of the offsets of all chunk records, and neighbouring suffixes do not descend |
| SuffixArray.MergeChunks | src/lib.rs:57-80 | the merge returns n offsets below n that rearrange the offsets of all chunk records, with neighbouring suffixes not descending |
| SuffixArray.BuildSuffixArray | src/lib.rs:30-81 | for a non-empty text and any thread count, the result is a permutation of 0..n and each suffix is strictly smaller than the next |
| SuffixArray.BuildSuffixArrayTotal | src/lib.rs:30-81 | the corrected builder returns a suffix array for every text, the empty one included |
| SuffixArray.SuffixArrayOrdered | src/lib.rs:30-81 | in a suffix array every earlier suffix is strictly smaller than every later one |
| SuffixArray.StrictlyAscendingUnique | src/lib.rs:30-81 | two strictly ascending arrangements of the same offsets are identical |
| SuffixArray.SmallestFirst | src/lib.rs:30-81 | two strictly ascending arrangements of the same offsets begin with the same offset |
| SuffixArray.StrictlyAscendingTail | src/lib.rs:30-81 | dropping the first offset keeps an arrangement strictly ascending |
| SuffixArray.SuffixArrayUnique | src/lib.rs:30-81 | a text has exactly one suffix array, so the result does not depend on the thread count |
| SuffixArray.BananaSuffixArray | src/lib.rs:110-115 | [5, 3, 1, 0, 4, 2] is the suffix array of "banana" |
| SuffixArray.BananaOffsets | src/lib.rs:114 | [5, 3, 1, 0, 4, 2] is a permutation of the six offsets of "banana" |
| SuffixArray.BananaSuffixesAscend | src/lib.rs:114 | "a" < "ana" < "anana" < "banana" < "na" < "nana" |
| SuffixArray.BananaTest | src/lib.rs:110-115 | building the suffix array of "banana" with any thread count gives [5, 3, 1, 0, 4, 2] |
| LcpArray.InvertSuffixArray | src/lib.rs:84-89 | the rank array inverts the suffix array both ways: `rank[sa[i]] == i` and `sa[rank[j]] == j`, with every rank below n |
| LcpArray.CommonPrefixLength | src/lib.rs:94-98 | the forward scan returns the longest common prefix of the suffixes at `j` and `k` |
| LcpArray.CommonPrefixIsLcp | src/lib.rs:96-99 | a stretch that agrees and then stops at a mismatch or at the end of the text is the longest common prefix |
| LcpArray.LcpOfSuffixes | src/lib.rs:96-98 | read in the text itself, the common prefix of the suffixes at `j` and `k` fits after both offsets, the bytes agree over it, and the next pair differs unless the text ends |
| LcpArray.LcpByTextPosition | src/lib.rs:83-102 | as written: n - 1 entries, and for each sorted position p >= 1 the entry at text offset `sa[p] - 1` is the common prefix of the suffix at `sa[p]` and its sorted predecessor; this needs `sa[0] == 0` so that `rank[j] - 1` never underflows |
| LcpArray.TextPositionEntries | src/lib.rs:91-101 | when `sa[0] == 0`, the entries computed per text offset through `rank` are, for each sorted position p >= 1, the common prefix of the suffixes at `sa[p]` and `sa[p - 1]` |
| LcpArray.BananaRankUnderflows | src/lib.rs:85-95 | for "banana" the suffix array starts with 5, so `sa[0] != 0` and `rank[5] == 0`, and `rank[5] - 1` underflows |
| LcpArray.LcpBySortedPosition | src/lib.rs:91-101 | corrected: n - 1 entries (none for n = 0), entry k - 1 being the common prefix of the suffixes at sorted positions k - 1 and k |
| LcpArray.BananaCommonPrefixes | src/lib.rs:94-98 | the neighbouring suffixes of "banana" in sorted order share prefixes of 1, 3, 0, 0 and 2 bytes |
| LcpArray.BananaLcp | src/lib.rs:91-101 | the corrected LCP array of "banana" is [1, 3, 0, 0, 2] |

## Left out

- Parallelism. `par_chunks`, `par_iter` and `into_par_iter` (rayon) are modelled as sequential computation. The chunks are sorted independently and each LCP entry is computed independently, so the order of evaluation does not change the result.
- `num_cpus::get()` becomes the parameter `threads`. Its only assumption is `threads >= 1`, which is what the CPU count guarantees.
- `sort_by` is modelled by an insertion sort (`SortChunk`) that is proved sorted and a rearrangement. Stability and the standard library's algorithm are not modelled. Every record of a text is distinct, so stability makes no observable difference.
- The `Clone` impl for `Suffix` is left out. It copies the fields, and a value model has nothing to copy.
- The `text: &[u8]` field of `Suffix` is not stored in each record. The same text is passed alongside every record instead, because every record of one call borrows that text.
- `usize` is modelled as unbounded `nat`. Overflow of `text.len()` or of `j + h` cannot happen for an in-memory text. The one wrap-around that matters is the `rank[j] - 1` underflow, which is handled by a precondition and a finding.
- The cursor vector `indices` of the merge is modelled as a local sequence that is reassigned at one index per step. The in-place update of the `Vec` is not modelled; nothing else reads or aliases it.
- `src/main.rs` and the `println!` in the unit test are I/O and are not part of this model.
- LcpArray.LcpByTextPosition: the lengths `|a| == |sa|` are required equal. The code reads `a` only below `sa.len()`, so a longer `a` would also be accepted there.

## Findings

| source | as written | input that shows it | evidently intended | confidence | as-written member | corrected member |
|---|---|---|---|---|---|---|
| src/lib.rs:42-48 | for an empty text `chunk_size` is `suffixes.len()` = 0, and `par_chunks(0)` panics | text = "" with any CPU count | the empty text gives the empty suffix array | not executed | SuffixArray.EmptyTextHasZeroChunkSize | SuffixArray.BuildSuffixArrayTotal |
| src/lib.rs:91-101 | the output is indexed by text offset `j`, and computes `rank[j] - 1`, which underflows for the offset whose suffix sorts first unless that offset is 0 | text = "banana", sa = [5, 3, 1, 0, 4, 2]: `rank[5] == 0` | entry k - 1 is the common prefix of the suffixes at sorted positions k - 1 and k, giving [1, 3, 0, 0, 2] for "banana" | not executed | LcpArray.BananaRankUnderflows | LcpArray.LcpBySortedPosition |
