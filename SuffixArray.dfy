/**
 * `construct_suffix_array_parallel`: one record per start offset, the
 * records cut into contiguous chunks, each chunk sorted by `suffix_compare`,
 * and the sorted chunks merged by repeatedly taking the smallest chunk head.
 */
module SuffixArray {
  import opened Lexicographic
  import opened Wrappers
  import opened Permutations
  import opened Chunking
  import opened SuffixOrder

  /**
   * A suffix array of `text`: every offset of the text exactly once, each
   * suffix strictly smaller than the next under the byte order.
   */
  ghost predicate IsSuffixArray(text: seq<Byte>, sa: seq<nat>) {
    && IsPermutation(sa, |text|)
    && forall k :: 0 <= k < |sa| - 1 ==> Compare(text[sa[k]..], text[sa[k + 1]..]) == Less
  }

  /** Records of one text in non-decreasing `suffix_compare` order, neighbour by neighbour. */
  ghost predicate Sorted(text: seq<Byte>, ss: seq<Suffix>) {
    && AllWellFormed(text, ss)
    && forall k :: 0 <= k < |ss| - 1 ==> NotAfter(text, ss[k], ss[k + 1])
  }

  /** The suffix records, one per start offset `i`, of length `|text| - i`. */
  function Suffixes(text: seq<Byte>): (ss: seq<Suffix>)
    ensures AllWellFormed(text, ss)
    ensures Starts(ss) == Range(|text|)
  {
    seq(|text|, i requires 0 <= i < |text| => Suffix(i, |text| - i))
  }

  /**
   * The chunk size: the whole input when there are fewer records than
   * threads, otherwise the records divided evenly by the thread count.
   */
  function ChunkSize(n: nat, threads: nat): (size: nat)
    requires threads >= 1
    ensures size <= n
    ensures n >= 1 ==> size >= 1
    ensures n >= threads ==> size * threads <= n < (size + 1) * threads
  {
    if n < threads then n
    else
      DivisionBounds(n, threads);
      n / threads
  }

  /** With at least as many records as threads, an even share is at least 1 and the shares fit. */
  lemma DivisionBounds(n: nat, threads: nat)
    requires 1 <= threads <= n
    ensures var q := n / threads; 1 <= q <= n && q * threads <= n < (q + 1) * threads
  {
    var q := n / threads;
    DivMod(n, threads);
    MulFacts(q, threads);
  }

  /** Euclidean division: `n` is `n / t` shares of `t` plus a remainder below `t`. */
  lemma DivMod(n: nat, t: nat)
    requires t >= 1
    ensures n == (n / t) * t + n % t && 0 <= n % t < t
  {
  }

  /** `q` shares of `t >= 1` are at least `q`, and one more share adds `t`. */
  lemma MulFacts(q: nat, t: nat)
    requires t >= 1
    ensures q <= q * t && (q + 1) * t == q * t + t
    ensures q == 0 <==> q * t == 0
  {
  }

  /** On an empty text the chunk size is zero, which `par_chunks` refuses. */
  lemma EmptyTextHasZeroChunkSize(threads: nat)
    requires threads >= 1
    ensures ChunkSize(0, threads) == 0
  {
  }

  /** A rearrangement of well-formed records, or of part of them, is well formed. */
  lemma WellFormedByMultiset(text: seq<Byte>, r: seq<Suffix>, ss: seq<Suffix>)
    requires AllWellFormed(text, ss) && multiset(r) <= multiset(ss)
    ensures AllWellFormed(text, r)
  {
    forall s | s in r ensures WellFormed(text, s) {
      assert s in multiset(r);
    }
  }

  /** Inserts a record into a sorted run of records, keeping it sorted. */
  function Insert(text: seq<Byte>, x: Suffix, ss: seq<Suffix>): (r: seq<Suffix>)
    requires WellFormed(text, x) && Sorted(text, ss)
    ensures Sorted(text, r)
    ensures multiset(r) == multiset(ss) + multiset{x}
    ensures |ss| > 0 ==> r[0] == x || r[0] == ss[0]
    decreases |ss|
  {
    if |ss| == 0 then [x]
    else
      SortedTail(text, ss);
      if SuffixCompare(text, x, ss[0]) == Less then
        SortedCons(text, x, ss);
        [x] + ss
      else
        var rest := Insert(text, x, ss[1..]);
        SuffixCompareFlip(text, x, ss[0]);
        SortedCons(text, ss[0], rest);
        assert ss == [ss[0]] + ss[1..];
        [ss[0]] + rest
  }

  /** The tail of a sorted run is sorted, and its head is no smaller than the run's head. */
  lemma SortedTail(text: seq<Byte>, ss: seq<Suffix>)
    requires Sorted(text, ss) && |ss| > 0
    ensures WellFormed(text, ss[0]) && Sorted(text, ss[1..])
    ensures |ss| > 1 ==> NotAfter(text, ss[0], ss[1])
  {
    assert ss[0] in ss;
    assert forall k :: 0 <= k < |ss| - 1 ==> ss[1..][k] == ss[k + 1];
  }

  /** A record no greater than the head of a sorted run can go in front of it. */
  lemma SortedCons(text: seq<Byte>, y: Suffix, ss: seq<Suffix>)
    requires WellFormed(text, y) && Sorted(text, ss)
    requires |ss| > 0 ==> NotAfter(text, y, ss[0])
    ensures Sorted(text, [y] + ss)
  {
    var r := [y] + ss;
    assert forall k :: 1 <= k < |r| ==> r[k] == ss[k - 1];
  }

  /** The per-chunk `sort_by(suffix_compare)`: a sorted rearrangement of the chunk. */
  function SortChunk(text: seq<Byte>, chunk: seq<Suffix>): (sorted: seq<Suffix>)
    requires AllWellFormed(text, chunk)
    ensures Sorted(text, sorted)
    ensures multiset(sorted) == multiset(chunk)
  {
    if |chunk| == 0 then []
    else
      assert chunk == [chunk[0]] + chunk[1..];
      Insert(text, chunk[0], SortChunk(text, chunk[1..]))
  }

  /** A record no smaller than the last of a sorted run can go after it. */
  lemma SortedSnoc(text: seq<Byte>, ss: seq<Suffix>, y: Suffix)
    requires WellFormed(text, y) && Sorted(text, ss)
    requires |ss| > 0 ==> NotAfter(text, ss[|ss| - 1], y)
    ensures Sorted(text, ss + [y])
  {
    var r := ss + [y];
    assert forall k :: 0 <= k < |ss| ==> r[k] == ss[k];
  }

  /**
   * One scan over the chunk heads: the first head that no other head is
   * smaller than, and the chunk it came from; `None` when every chunk is
   * used up.
   */
  method SelectMinimum(text: seq<Byte>, chunks: seq<seq<Suffix>>, indices: seq<nat>)
    returns (minSuffix: Option<Suffix>, minIndex: Option<nat>)
    requires CursorsInRange(chunks, indices)
    requires forall c, k :: 0 <= c < |chunks| && 0 <= k < |chunks[c]| ==> WellFormed(text, chunks[c][k])
    ensures minSuffix.Some? <==> minIndex.Some?
    ensures minIndex.None? ==> forall c :: 0 <= c < |chunks| ==> indices[c] == |chunks[c]|
    ensures minIndex.Some? ==>
      && minIndex.value < |chunks|
      && indices[minIndex.value] < |chunks[minIndex.value]|
      && minSuffix.value == chunks[minIndex.value][indices[minIndex.value]]
      && WellFormed(text, minSuffix.value)
    ensures minIndex.Some? ==>
      forall c :: 0 <= c < |chunks| && indices[c] < |chunks[c]| ==>
        NotAfter(text, minSuffix.value, chunks[c][indices[c]])
    ensures minIndex.Some? ==>
      forall c :: 0 <= c < minIndex.value && indices[c] < |chunks[c]| ==>
        Before(text, minSuffix.value, chunks[c][indices[c]])
  {
    minSuffix, minIndex := None, None;
    for i := 0 to |chunks|
      invariant minSuffix.Some? <==> minIndex.Some?
      invariant minIndex.None? ==> forall c :: 0 <= c < i ==> indices[c] == |chunks[c]|
      invariant minIndex.Some? ==>
        && minIndex.value < i
        && indices[minIndex.value] < |chunks[minIndex.value]|
        && minSuffix.value == chunks[minIndex.value][indices[minIndex.value]]
        && WellFormed(text, minSuffix.value)
      invariant minIndex.Some? ==>
        forall c :: 0 <= c < i && indices[c] < |chunks[c]| ==>
          NotAfter(text, minSuffix.value, chunks[c][indices[c]])
      invariant minIndex.Some? ==>
        forall c :: 0 <= c < minIndex.value && indices[c] < |chunks[c]| ==>
          Before(text, minSuffix.value, chunks[c][indices[c]])
    {
      if indices[i] < |chunks[i]| {
        var suffix := chunks[i][indices[i]];
        if minSuffix.None? || SuffixCompare(text, suffix, minSuffix.value) == Less {
          forall c | 0 <= c < i && indices[c] < |chunks[c]|
            ensures Before(text, suffix, chunks[c][indices[c]])
          {
            SuffixCompareLessAtMost(text, suffix, minSuffix.value, chunks[c][indices[c]]);
          }
          SuffixCompareEqualIff(text, suffix, suffix);
          minSuffix := Some(suffix);
          minIndex := Some(i);
        } else {
          SuffixCompareFlip(text, suffix, minSuffix.value);
        }
      }
    }
  }

  /**
   * What holds before every step of the merge: the cursors stay inside their
   * chunks and have passed as many records as offsets were emitted; the
   * emitted offsets are those of the passed records, in sorted order; and the
   * last record emitted is no greater than any chunk head still waiting.
   */
  ghost predicate MergeInvariant(text: seq<Byte>, chunks: seq<seq<Suffix>>, indices: seq<nat>,
                                 sa: seq<nat>, emitted: seq<Suffix>)
  {
    Passed(chunks, indices, sa, emitted) && InOrder(text, chunks, indices, emitted)
  }

  /** The bookkeeping half: the output holds the offsets of exactly the records the cursors have passed. */
  ghost predicate Passed(chunks: seq<seq<Suffix>>, indices: seq<nat>, sa: seq<nat>, emitted: seq<Suffix>) {
    && CursorsInRange(chunks, indices)
    && |sa| == SumOf(indices)
    && sa == Starts(emitted)
    && multiset(emitted) == multiset(Consumed(chunks, indices))
  }

  /** The ordering half: chunks and output sorted, and the last record out not after any waiting head. */
  ghost predicate InOrder(text: seq<Byte>, chunks: seq<seq<Suffix>>, indices: seq<nat>, emitted: seq<Suffix>) {
    && |indices| == |chunks|
    && (forall c :: 0 <= c < |chunks| ==> Sorted(text, chunks[c]))
    && Sorted(text, emitted)
    && (|emitted| > 0 ==>
          forall c :: 0 <= c < |chunks| && indices[c] < |chunks[c]| ==>
            NotAfter(text, emitted[|emitted| - 1], chunks[c][indices[c]]))
  }

  /** Emitting the smallest head and advancing its chunk's cursor keeps the merge invariant. */
  lemma MergeStep(text: seq<Byte>, chunks: seq<seq<Suffix>>, indices: seq<nat>,
                  sa: seq<nat>, emitted: seq<Suffix>, m: nat)
    requires MergeInvariant(text, chunks, indices, sa, emitted)
    requires m < |chunks| && indices[m] < |chunks[m]|
    requires forall c :: 0 <= c < |chunks| && indices[c] < |chunks[c]| ==>
      NotAfter(text, chunks[m][indices[m]], chunks[c][indices[c]])
    ensures MergeInvariant(text, chunks, indices[m := indices[m] + 1],
                           sa + [chunks[m][indices[m]].startIndex], emitted + [chunks[m][indices[m]]])
  {
    PassedStep(chunks, indices, sa, emitted, m);
    InOrderStep(text, chunks, indices, emitted, m);
  }

  /** Advancing a cursor past its head and emitting that head keeps the bookkeeping. */
  lemma PassedStep(chunks: seq<seq<Suffix>>, indices: seq<nat>, sa: seq<nat>, emitted: seq<Suffix>, m: nat)
    requires Passed(chunks, indices, sa, emitted)
    requires m < |chunks| && indices[m] < |chunks[m]|
    ensures Passed(chunks, indices[m := indices[m] + 1],
                   sa + [chunks[m][indices[m]].startIndex], emitted + [chunks[m][indices[m]]])
  {
    ConsumedAdvance(chunks, indices, m);
    SumOfAdvance(indices, m);
    StartsSnoc(emitted, chunks[m][indices[m]]);
  }

  /** Emitting the smallest waiting head keeps the output sorted and behind every waiting head. */
  lemma InOrderStep(text: seq<Byte>, chunks: seq<seq<Suffix>>, indices: seq<nat>, emitted: seq<Suffix>, m: nat)
    requires InOrder(text, chunks, indices, emitted)
    requires CursorsInRange(chunks, indices)
    requires m < |chunks| && indices[m] < |chunks[m]|
    requires forall c :: 0 <= c < |chunks| && indices[c] < |chunks[c]| ==>
      NotAfter(text, chunks[m][indices[m]], chunks[c][indices[c]])
    ensures InOrder(text, chunks, indices[m := indices[m] + 1], emitted + [chunks[m][indices[m]]])
  {
    var head := chunks[m][indices[m]];
    assert head in chunks[m];
    SortedSnoc(text, emitted, head);
    HeadsAfterStep(text, chunks, indices, m);
  }

  /** After advancing chunk `m` past the smallest head, that head is no greater than any new head. */
  lemma HeadsAfterStep(text: seq<Byte>, chunks: seq<seq<Suffix>>, indices: seq<nat>, m: nat)
    requires forall c :: 0 <= c < |chunks| ==> Sorted(text, chunks[c])
    requires CursorsInRange(chunks, indices)
    requires m < |chunks| && indices[m] < |chunks[m]|
    requires forall c :: 0 <= c < |chunks| && indices[c] < |chunks[c]| ==>
      NotAfter(text, chunks[m][indices[m]], chunks[c][indices[c]])
    ensures var indices' := indices[m := indices[m] + 1];
      forall c :: 0 <= c < |chunks| && indices'[c] < |chunks[c]| ==>
        NotAfter(text, chunks[m][indices[m]], chunks[c][indices'[c]])
  {
    var indices' := indices[m := indices[m] + 1];
    forall c | 0 <= c < |chunks| && indices'[c] < |chunks[c]|
      ensures NotAfter(text, chunks[m][indices[m]], chunks[c][indices'[c]])
    {
      if c == m {
        assert NotAfter(text, chunks[m][indices[m]], chunks[m][indices[m] + 1]);
      }
    }
  }

  /**
   * The k-way merge: while fewer offsets than the text has bytes have been
   * emitted, take the smallest chunk head, emit its start offset and advance
   * that chunk's cursor.
   */
  method MergeChunks(text: seq<Byte>, chunks: seq<seq<Suffix>>) returns (sa: seq<nat>)
    requires forall c :: 0 <= c < |chunks| ==> Sorted(text, chunks[c])
    requires |Flatten(chunks)| == |text|
    ensures |sa| == |text|
    ensures forall k :: 0 <= k < |sa| ==> sa[k] < |text|
    ensures multiset(sa) == multiset(Starts(Flatten(chunks)))
    ensures forall k :: 0 <= k < |sa| - 1 ==> Compare(text[sa[k]..], text[sa[k + 1]..]) != Greater
  {
    sa := [];
    var indices: seq<nat> := seq(|chunks|, _ => 0);
    ghost var emitted: seq<Suffix> := [];
    NoneConsumed(chunks, indices);
    while |sa| < |text|
      invariant MergeInvariant(text, chunks, indices, sa, emitted)
      decreases |text| - |sa|
    {
      SomeChunkRemains(chunks, indices);
      var minSuffix, minIndex := SelectMinimum(text, chunks, indices);
      if minSuffix.Some? {
        var m := minIndex.value;
        MergeStep(text, chunks, indices, sa, emitted, m);
        sa := sa + [minSuffix.value.startIndex];
        emitted := emitted + [minSuffix.value];
        indices := indices[m := indices[m] + 1];
      }
    }
    ConsumedLength(chunks, indices);
    MergeFinished(text, chunks, indices, sa, emitted);
  }

  /** When every offset has been emitted, the output is the sorted start offsets of all chunk records. */
  lemma MergeFinished(text: seq<Byte>, chunks: seq<seq<Suffix>>, indices: seq<nat>,
                      sa: seq<nat>, emitted: seq<Suffix>)
    requires MergeInvariant(text, chunks, indices, sa, emitted)
    requires |sa| == |Flatten(chunks)| == |text|
    ensures forall k :: 0 <= k < |sa| ==> sa[k] < |text|
    ensures multiset(sa) == multiset(Starts(Flatten(chunks)))
    ensures forall k :: 0 <= k < |sa| - 1 ==> Compare(text[sa[k]..], text[sa[k + 1]..]) != Greater
  {
    AllConsumed(chunks, indices);
    StartsMultiset(emitted, Flatten(chunks));
    forall k | 0 <= k < |sa| ensures sa[k] < |text| {
      assert emitted[k] in emitted;
    }
    forall k | 0 <= k < |sa| - 1
      ensures Compare(text[sa[k]..], text[sa[k + 1]..]) != Greater
    {
      assert emitted[k] in emitted && emitted[k + 1] in emitted;
      SuffixCompareIsByteOrder(text, emitted[k], emitted[k + 1]);
    }
  }

  /**
   * `construct_suffix_array_parallel` with `threads` standing for the CPU
   * count. It needs a non-empty text: for an empty one the chunk size is zero.
   */
  method BuildSuffixArray(text: seq<Byte>, threads: nat) returns (sa: seq<nat>)
    requires |text| >= 1 && threads >= 1
    ensures IsSuffixArray(text, sa)
  {
    var suffixes := Suffixes(text);
    var chunkSize := ChunkSize(|suffixes|, threads);
    var chunks := Chunks(suffixes, chunkSize);
    assert forall c :: 0 <= c < |chunks| ==> AllWellFormed(text, chunks[c]);
    var sortedChunks := seq(|chunks|, c requires 0 <= c < |chunks| => SortChunk(text, chunks[c]));
    FlattenMultiset(sortedChunks, chunks);
    assert |Flatten(sortedChunks)| == |multiset(Flatten(sortedChunks))| == |text|;
    sa := MergeChunks(text, sortedChunks);
    StartsMultiset(Flatten(sortedChunks), suffixes);
    PermutationFacts(sa, |text|);
    forall k | 0 <= k < |sa| - 1
      ensures Compare(text[sa[k]..], text[sa[k + 1]..]) == Less
    {
      CompareEqualIff(text[sa[k]..], text[sa[k + 1]..]);
      assert |text[sa[k]..]| != |text[sa[k + 1]..]|;
    }
  }

  /** The suffix array as evidently intended for every text: empty for the empty text. */
  method BuildSuffixArrayTotal(text: seq<Byte>, threads: nat) returns (sa: seq<nat>)
    requires threads >= 1
    ensures IsSuffixArray(text, sa)
  {
    if |text| == 0 {
      sa := [];
    } else {
      sa := BuildSuffixArray(text, threads);
    }
  }

  /** In a suffix array every earlier suffix is smaller than every later one, not only its neighbour. */
  lemma {:induction false} SuffixArrayOrdered(text: seq<Byte>, sa: seq<nat>, i: nat, j: nat)
    requires IsSuffixArray(text, sa) && i < j < |sa|
    ensures Compare(text[sa[i]..], text[sa[j]..]) == Less
    decreases j - i
  {
    if i + 1 < j {
      SuffixArrayOrdered(text, sa, i, j - 1);
      CompareLessTransitive(text[sa[i]..], text[sa[j - 1]..], text[sa[j]..]);
    }
  }

  /** Offsets whose suffixes are strictly ascending, each pair, not only neighbours. */
  ghost predicate StrictlyAscending(text: seq<Byte>, s: seq<nat>) {
    && (forall k :: 0 <= k < |s| ==> s[k] <= |text|)
    && forall i, j :: 0 <= i < j < |s| ==> Compare(text[s[i]..], text[s[j]..]) == Less
  }

  /** Two strictly ascending arrangements of the same offsets are the same sequence. */
  lemma {:induction false} StrictlyAscendingUnique(text: seq<Byte>, a: seq<nat>, b: seq<nat>)
    requires StrictlyAscending(text, a) && StrictlyAscending(text, b)
    requires multiset(a) == multiset(b)
    ensures a == b
    decreases |a|
  {
    if |a| == 0 {
      assert |multiset(b)| == 0;
    } else {
      assert |b| == |multiset(b)| == |a|;
      SmallestFirst(text, a, b);
      assert a == [a[0]] + a[1..] && b == [b[0]] + b[1..];
      assert multiset(a[1..]) == multiset(a) - multiset{a[0]};
      assert multiset(b[1..]) == multiset(b) - multiset{b[0]};
      StrictlyAscendingTail(text, a);
      StrictlyAscendingTail(text, b);
      StrictlyAscendingUnique(text, a[1..], b[1..]);
    }
  }

  /** Two strictly ascending arrangements of the same offsets start with the same one. */
  lemma SmallestFirst(text: seq<Byte>, a: seq<nat>, b: seq<nat>)
    requires StrictlyAscending(text, a) && StrictlyAscending(text, b)
    requires multiset(a) == multiset(b) && |a| > 0
    ensures |b| > 0 && a[0] == b[0]
  {
    assert |b| == |multiset(b)| == |a|;
    assert a[0] in multiset(b) && b[0] in multiset(a);
    var i :| 0 <= i < |b| && b[i] == a[0];
    var j :| 0 <= j < |a| && a[j] == b[0];
    if i != 0 {
      // b[0] comes before a[0] in b, and a[0] before b[0] in a.
      assert Compare(text[b[0]..], text[a[0]..]) == Less;
      CompareEqualIff(text[b[0]..], text[a[0]..]);
      CompareFlip(text[a[0]..], text[b[0]..]);
      assert false;
    }
  }

  lemma StrictlyAscendingTail(text: seq<Byte>, a: seq<nat>)
    requires StrictlyAscending(text, a) && |a| > 0
    ensures StrictlyAscending(text, a[1..])
  {
    var t := a[1..];
    assert forall k :: 0 <= k < |t| ==> t[k] == a[k + 1];
    forall i, j | 0 <= i < j < |t| ensures Compare(text[t[i]..], text[t[j]..]) == Less {
      assert t[i] == a[i + 1] && t[j] == a[j + 1];
    }
  }

  /** A text has exactly one suffix array. */
  lemma SuffixArrayUnique(text: seq<Byte>, sa1: seq<nat>, sa2: seq<nat>)
    requires IsSuffixArray(text, sa1) && IsSuffixArray(text, sa2)
    ensures sa1 == sa2
  {
    forall i, j | 0 <= i < j < |sa1| ensures Compare(text[sa1[i]..], text[sa1[j]..]) == Less {
      SuffixArrayOrdered(text, sa1, i, j);
    }
    forall i, j | 0 <= i < j < |sa2| ensures Compare(text[sa2[i]..], text[sa2[j]..]) == Less {
      SuffixArrayOrdered(text, sa2, i, j);
    }
    StrictlyAscendingUnique(text, sa1, sa2);
  }

  /** The bytes of "banana". */
  const Banana: seq<Byte> := [98, 97, 110, 97, 110, 97]

  /** [5, 3, 1, 0, 4, 2] sorts the suffixes of "banana": a, ana, anana, banana, na, nana. */
  lemma BananaSuffixArray()
    ensures IsSuffixArray(Banana, [5, 3, 1, 0, 4, 2])
  {
    var sa: seq<nat> := [5, 3, 1, 0, 4, 2];
    forall k | 0 <= k < |sa| - 1 ensures Compare(Banana[sa[k]..], Banana[sa[k + 1]..]) == Less {
      BananaSuffixesAscend();
    }
    BananaOffsets();
  }

  lemma BananaOffsets()
    ensures IsPermutation([5, 3, 1, 0, 4, 2], |Banana|)
  {
    SixOffsets();
    var sa: seq<nat> := [5, 3, 1, 0, 4, 2];
    assert forall k :: 0 <= k < |sa| ==> sa[k] < 6;
  }

  lemma SixOffsets()
    ensures multiset([5 as nat, 3, 1, 0, 4, 2]) == multiset(Range(6))
  {
    var s: seq<nat> := [5, 3, 1, 0, 4, 2];
    var r := Range(6);
    assert r == [0, 1, 2, 3, 4, 5];
    assert s == [5] + [3] + [1] + [0] + [4] + [2];
    assert r == [0] + [1] + [2] + [3] + [4] + [5];
  }

  lemma BananaSuffixesAscend()
    ensures Compare(Banana[5..], Banana[3..]) == Less
    ensures Compare(Banana[3..], Banana[1..]) == Less
    ensures Compare(Banana[1..], Banana[0..]) == Less
    ensures Compare(Banana[0..], Banana[4..]) == Less
    ensures Compare(Banana[4..], Banana[2..]) == Less
  {
    assert Banana[5..] == [97];
    assert Banana[3..] == [97, 110, 97];
    assert Banana[1..] == [97, 110, 97, 110, 97];
    assert Banana[0..] == [98, 97, 110, 97, 110, 97];
    assert Banana[4..] == [110, 97];
    assert Banana[2..] == [110, 97, 110, 97];
  }

  /** The unit test: building the suffix array of "banana" gives [5, 3, 1, 0, 4, 2], whatever the thread count. */
  method BananaTest(threads: nat) returns (sa: seq<nat>)
    requires threads >= 1
    ensures sa == [5, 3, 1, 0, 4, 2]
  {
    sa := BuildSuffixArray(Banana, threads);
    BananaSuffixArray();
    SuffixArrayUnique(Banana, sa, [5, 3, 1, 0, 4, 2]);
  }
}
