/**
 * `lcp_array_parallel`: the rank array (the inverse of the suffix array) and,
 * per position, the length of the common prefix of a suffix and the suffix
 * just before it in sorted order.
 */
module LcpArray {
  import opened Lexicographic
  import opened Permutations
  import opened SuffixArray

  /** `rank` undoes `sa`: the suffix at offset `sa[i]` has sorted position `i`. */
  ghost predicate IsRankOf(rank: seq<nat>, sa: seq<nat>) {
    && |rank| == |sa|
    && forall i :: 0 <= i < |sa| ==> sa[i] < |rank| && rank[sa[i]] == i
  }

  /** The rank pass: `rank[sa[i]] = i` for every sorted position `i`, into a zero-filled buffer. */
  method InvertSuffixArray(sa: seq<nat>) returns (rank: seq<nat>)
    requires IsPermutation(sa, |sa|)
    ensures IsRankOf(rank, sa)
    ensures forall j :: 0 <= j < |sa| ==> rank[j] < |sa| && sa[rank[j]] == j
  {
    var n := |sa|;
    PermutationFacts(sa, n);
    var buffer := new nat[n](_ => 0);
    for i := 0 to n
      invariant forall i' :: 0 <= i' < i ==> buffer[sa[i']] == i'
    {
      buffer[sa[i]] := i;
    }
    rank := buffer[..];
    forall j | 0 <= j < n ensures rank[j] < n && sa[rank[j]] == j {
      assert j in sa;
      var i :| 0 <= i < n && sa[i] == j;
    }
  }

  /**
   * The inner scan: count `h` up while both suffixes still have a byte at
   * offset `h` and the bytes agree.
   */
  method CommonPrefixLength(a: seq<Byte>, j: nat, k: nat) returns (h: nat)
    requires j <= |a| && k <= |a|
    ensures h == Lcp(a[j..], a[k..])
  {
    h := 0;
    while j + h < |a| && k + h < |a| && a[j + h] == a[k + h]
      invariant j + h <= |a| && k + h <= |a|
      invariant forall i :: j <= i < j + h ==> a[i] == a[i - j + k]
      decreases |a| - h
    {
      h := h + 1;
    }
    CommonPrefixIsLcp(a, j, k, h);
  }

  /** A stretch that agrees and then stops (by a mismatch or an end) is the longest common prefix. */
  lemma CommonPrefixIsLcp(a: seq<Byte>, j: nat, k: nat, h: nat)
    requires j + h <= |a| && k + h <= |a|
    requires forall i :: j <= i < j + h ==> a[i] == a[i - j + k]
    requires j + h < |a| && k + h < |a| ==> a[j + h] != a[k + h]
    ensures h == Lcp(a[j..], a[k..])
  {
    var x, y := a[j..], a[k..];
    forall i | 0 <= i < h ensures x[..h][i] == y[..h][i] {
      assert a[j + i] == a[k + i];
    }
    assert x[..h] == y[..h];
    if h < |x| && h < |y| {
      assert x[h] == a[j + h] && y[h] == a[k + h];
    }
    LcpUnique(x, y, h);
  }

  /**
   * The common prefix of two suffixes of `a`, read in `a` itself: it fits in
   * the text after the later of the two offsets, the bytes agree over it, and
   * the next byte pair differs unless the text ends first.
   */
  lemma LcpOfSuffixes(a: seq<Byte>, j: nat, k: nat)
    requires j <= |a| && k <= |a|
    ensures var h := Lcp(a[j..], a[k..]);
      && j + h <= |a| && k + h <= |a|
      && a[j..j + h] == a[k..k + h]
      && (j + h < |a| && k + h < |a| ==> a[j + h] != a[k + h])
  {
    var x, y := a[j..], a[k..];
    var h := Lcp(x, y);
    LcpProperties(x, y);
    assert x[..h] == a[j..j + h];
    assert y[..h] == a[k..k + h];
    if j + h < |a| && k + h < |a| {
      assert x[h] == a[j + h] && y[h] == a[k + h];
    }
  }

  /**
   * `lcp_array_parallel` as written: entry `j - 1`, for each text offset `j`
   * in `1..n`, is the common prefix of the suffix at `j` and the suffix just
   * before it in sorted order. Computing `rank[j] - 1` needs every such `j`
   * to have a predecessor, so the suffix at offset 0 must sort first.
   */
  method LcpByTextPosition(sa: seq<nat>, a: seq<Byte>) returns (lcp: seq<nat>)
    requires |a| == |sa|
    requires IsPermutation(sa, |sa|)
    requires |sa| > 0 ==> sa[0] == 0
    ensures |lcp| == if |sa| == 0 then 0 else |sa| - 1
    ensures forall p :: 1 <= p < |sa| ==>
      sa[p] >= 1 && lcp[sa[p] - 1] == Lcp(a[sa[p]..], a[sa[p - 1]..])
  {
    var n := |sa|;
    var rank := InvertSuffixArray(sa);
    lcp := [];
    var j := 1;
    while j < n
      invariant 1 <= j <= if n == 0 then 1 else n
      invariant |lcp| == j - 1
      invariant forall i :: 0 <= i < j - 1 ==> rank[i + 1] >= 1 && lcp[i] == Lcp(a[i + 1..], a[sa[rank[i + 1] - 1]..])
    {
      // `rank[j] == 0` would mean `sa[0] == j`, but `sa[0] == 0 < j`.
      assert sa[rank[j]] == j;
      var k := sa[rank[j] - 1];
      var h := CommonPrefixLength(a, j, k);
      lcp := lcp + [h];
      j := j + 1;
    }
    TextPositionEntries(sa, a, rank, lcp);
  }

  /** Read through `rank`, the entry for text offset `sa[p]` pairs sorted positions `p - 1` and `p`. */
  lemma TextPositionEntries(sa: seq<nat>, a: seq<Byte>, rank: seq<nat>, lcp: seq<nat>)
    requires |a| == |sa| && (|sa| > 0 ==> sa[0] == 0)
    requires IsRankOf(rank, sa)
    requires |lcp| == if |sa| == 0 then 0 else |sa| - 1
    requires forall i :: 0 <= i < |lcp| ==>
      1 <= rank[i + 1] < |sa| && lcp[i] == Lcp(a[i + 1..], a[sa[rank[i + 1] - 1]..])
    ensures forall p :: 1 <= p < |sa| ==>
      sa[p] >= 1 && lcp[sa[p] - 1] == Lcp(a[sa[p]..], a[sa[p - 1]..])
  {
    forall p | 1 <= p < |sa|
      ensures sa[p] >= 1 && lcp[sa[p] - 1] == Lcp(a[sa[p]..], a[sa[p - 1]..])
    {
      // The suffix at offset 0 has rank 0, and the one at `sa[p]` has rank `p`.
      assert rank[sa[0]] == 0;
      var j := sa[p];
      assert rank[j] == p;
      assert j != 0;
      assert lcp[j - 1] == Lcp(a[j..], a[sa[rank[j] - 1]..]);
    }
  }

  /**
   * The LCP array as evidently intended, indexed by sorted position: entry
   * `k - 1` is the common prefix of the suffixes at sorted positions `k - 1`
   * and `k`.
   */
  method LcpBySortedPosition(sa: seq<nat>, a: seq<Byte>) returns (lcp: seq<nat>)
    requires |a| == |sa|
    requires IsPermutation(sa, |sa|)
    ensures |lcp| == if |sa| == 0 then 0 else |sa| - 1
    ensures forall k :: 1 <= k < |sa| ==> lcp[k - 1] == Lcp(a[sa[k - 1]..], a[sa[k]..])
  {
    var n := |sa|;
    lcp := [];
    var k := 1;
    while k < n
      invariant 1 <= k <= if n == 0 then 1 else n
      invariant |lcp| == k - 1
      invariant forall k' :: 1 <= k' < k ==> lcp[k' - 1] == Lcp(a[sa[k' - 1]..], a[sa[k']..])
    {
      var h := CommonPrefixLength(a, sa[k - 1], sa[k]);
      lcp := lcp + [h];
      k := k + 1;
    }
  }

  /**
   * Why the as-written pass needs `sa[0] == 0`: in the suffix array of
   * "banana" the suffix at offset 5 sorts first, so its rank is 0 and
   * `rank[5] - 1` has no value in `usize`.
   */
  lemma BananaRankUnderflows(sa: seq<nat>, rank: seq<nat>)
    requires IsSuffixArray(Banana, sa)
    requires IsRankOf(rank, sa)
    ensures |sa| == 6 && sa[0] == 5 && sa[0] != 0
    ensures rank[5] == 0
  {
    BananaSuffixArray();
    SuffixArrayUnique(Banana, sa, [5, 3, 1, 0, 4, 2]);
  }

  /** The common prefixes of neighbouring suffixes of "banana" in sorted order. */
  lemma BananaCommonPrefixes()
    ensures Lcp(Banana[5..], Banana[3..]) == 1
    ensures Lcp(Banana[3..], Banana[1..]) == 3
    ensures Lcp(Banana[1..], Banana[0..]) == 0
    ensures Lcp(Banana[0..], Banana[4..]) == 0
    ensures Lcp(Banana[4..], Banana[2..]) == 2
  {
    CommonPrefixIsLcp(Banana, 5, 3, 1);
    CommonPrefixIsLcp(Banana, 3, 1, 3);
    CommonPrefixIsLcp(Banana, 1, 0, 0);
    CommonPrefixIsLcp(Banana, 0, 4, 0);
    CommonPrefixIsLcp(Banana, 4, 2, 2);
  }

  /** The LCP array by sorted position of "banana" is [1, 3, 0, 0, 2]. */
  method BananaLcp() returns (lcp: seq<nat>)
    ensures lcp == [1, 3, 0, 0, 2]
  {
    BananaOffsets();
    lcp := LcpBySortedPosition([5, 3, 1, 0, 4, 2], Banana);
    BananaLcpEntries(lcp);
  }

  /** Reading the neighbouring common prefixes of "banana" off the sorted-position contract. */
  lemma BananaLcpEntries(lcp: seq<nat>)
    requires |lcp| == 5
    requires forall k :: 1 <= k < 6 ==>
      lcp[k - 1] == Lcp(Banana[[5, 3, 1, 0, 4, 2][k - 1]..], Banana[[5, 3, 1, 0, 4, 2][k]..])
    ensures lcp == [1, 3, 0, 0, 2]
  {
    var sa: seq<nat> := [5, 3, 1, 0, 4, 2];
    BananaCommonPrefixes();
    assert lcp[0] == Lcp(Banana[sa[0]..], Banana[sa[1]..]);
    assert lcp[1] == Lcp(Banana[sa[1]..], Banana[sa[2]..]);
    assert lcp[2] == Lcp(Banana[sa[2]..], Banana[sa[3]..]);
    assert lcp[3] == Lcp(Banana[sa[3]..], Banana[sa[4]..]);
    assert lcp[4] == Lcp(Banana[sa[4]..], Banana[sa[5]..]);
  }
}
