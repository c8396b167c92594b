/**
 * Byte strings, Rust's three-way `Ordering`, and the lexicographic order that
 * `<[u8]>::cmp` implements: compare byte by byte, and when one side runs out
 * first it is the smaller one (a proper prefix comes first).
 */
module Lexicographic {

  /** An unsigned 8-bit value (`u8`). */
  newtype Byte = x: int | 0 <= x < 256

  /** `std::cmp::Ordering`. */
  datatype Ordering = Less | Equal | Greater

  /** `Ordering::reverse`. */
  function Flip(o: Ordering): Ordering {
    match o
    case Less => Greater
    case Equal => Equal
    case Greater => Less
  }

  /** `Ordering::then_with`: the second comparison only breaks a tie of the first. */
  function ThenWith(first: Ordering, tie: Ordering): Ordering {
    if first == Equal then tie else first
  }

  /** `usize::cmp`. */
  function CompareNat(x: nat, y: nat): Ordering {
    if x < y then Less else if x == y then Equal else Greater
  }

  /** `<[u8]>::cmp`: lexicographic comparison of two byte strings. */
  function Compare(x: seq<Byte>, y: seq<Byte>): Ordering
    decreases |x|
  {
    if |x| == 0 then (if |y| == 0 then Equal else Less)
    else if |y| == 0 then Greater
    else if x[0] < y[0] then Less
    else if x[0] > y[0] then Greater
    else Compare(x[1..], y[1..])
  }

  /**
   * Length of the longest common prefix of two byte strings: count the
   * leading positions where both have a byte and the bytes agree.
   */
  function Lcp(x: seq<Byte>, y: seq<Byte>): (h: nat)
    ensures h <= |x| && h <= |y|
    decreases |x|
  {
    if |x| == 0 || |y| == 0 || x[0] != y[0] then 0
    else 1 + Lcp(x[1..], y[1..])
  }

  /** The two strings agree on the first `Lcp` bytes, and at `Lcp` one of them has ended or they differ. */
  lemma {:induction false} LcpProperties(x: seq<Byte>, y: seq<Byte>)
    ensures var h := Lcp(x, y);
      && x[..h] == y[..h]
      && (h < |x| && h < |y| ==> x[h] != y[h])
    decreases |x|
  {
    if |x| > 0 && |y| > 0 && x[0] == y[0] {
      LcpProperties(x[1..], y[1..]);
      var h' := Lcp(x[1..], y[1..]);
      assert x[..h' + 1] == [x[0]] + x[1..][..h'];
      assert y[..h' + 1] == [y[0]] + y[1..][..h'];
    }
  }

  /** The three properties of `Lcp` determine it: any such `h` is the maximal common prefix. */
  lemma {:induction false} LcpUnique(x: seq<Byte>, y: seq<Byte>, h: nat)
    requires h <= |x| && h <= |y|
    requires x[..h] == y[..h]
    requires h < |x| && h < |y| ==> x[h] != y[h]
    ensures h == Lcp(x, y)
  {
    var l := Lcp(x, y);
    LcpProperties(x, y);
    forall i | 0 <= i < h ensures x[i] == y[i] {
      assert x[..h][i] == y[..h][i];
    }
    forall i | 0 <= i < l ensures x[i] == y[i] {
      assert x[..l][i] == y[..l][i];
    }
  }

  /** The common prefix does not depend on which string is named first. */
  lemma {:induction false} LcpSymmetric(x: seq<Byte>, y: seq<Byte>)
    ensures Lcp(x, y) == Lcp(y, x)
  {
    LcpProperties(x, y);
    LcpUnique(y, x, Lcp(x, y));
  }

  /**
   * `Compare` is decided at the first position where the strings differ:
   * the byte there decides, and if one string is a prefix of the other the
   * shorter one is smaller.
   */
  lemma {:induction false} CompareAtFirstDifference(x: seq<Byte>, y: seq<Byte>)
    ensures var h := Lcp(x, y);
      Compare(x, y) ==
        if h == |x| && h == |y| then Equal
        else if h == |x| then Less
        else if h == |y| then Greater
        else if x[h] < y[h] then Less
        else Greater
    decreases |x|
  {
    if |x| > 0 && |y| > 0 && x[0] == y[0] {
      CompareAtFirstDifference(x[1..], y[1..]);
    }
  }

  /** `Compare` returns `Equal` exactly on equal strings. */
  lemma {:induction false} CompareEqualIff(x: seq<Byte>, y: seq<Byte>)
    ensures Compare(x, y) == Equal <==> x == y
  {
    CompareAtFirstDifference(x, y);
    LcpProperties(x, y);
    var h := Lcp(x, y);
    if h == |x| && h == |y| {
      assert x == x[..h] && y == y[..h];
    } else if h < |x| && h < |y| {
      assert x[h] != y[h];
    }
  }

  /** Swapping the arguments reverses the answer. */
  lemma {:induction false} CompareFlip(x: seq<Byte>, y: seq<Byte>)
    ensures Compare(y, x) == Flip(Compare(x, y))
    decreases |x|
  {
    if |x| > 0 && |y| > 0 && x[0] == y[0] {
      CompareFlip(x[1..], y[1..]);
    }
  }

  /** `Less` is transitive. */
  lemma {:induction false} CompareLessTransitive(x: seq<Byte>, y: seq<Byte>, z: seq<Byte>)
    requires Compare(x, y) == Less && Compare(y, z) == Less
    ensures Compare(x, z) == Less
    decreases |x|
  {
    if |x| > 0 && x[0] == y[0] && y[0] == z[0] {
      CompareLessTransitive(x[1..], y[1..], z[1..]);
    }
  }

  /** "Not greater" is transitive. */
  lemma CompareAtMostTransitive(x: seq<Byte>, y: seq<Byte>, z: seq<Byte>)
    requires Compare(x, y) != Greater && Compare(y, z) != Greater
    ensures Compare(x, z) != Greater
  {
    CompareEqualIff(x, y);
    CompareEqualIff(y, z);
    if Compare(x, y) == Less && Compare(y, z) == Less {
      CompareLessTransitive(x, y, z);
    }
  }
}
