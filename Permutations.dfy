/** Permutations of the offsets `0..n`, stated through multisets. */
module Permutations {

  /** The offsets `0, 1, ..., n - 1` in order. */
  function Range(n: nat): (r: seq<nat>)
    ensures |r| == n
    ensures forall i :: 0 <= i < n ==> r[i] == i
  {
    seq(n, i requires 0 <= i < n => i)
  }

  /** `s` holds each of `0..n` exactly once (and nothing else). */
  ghost predicate IsPermutation(s: seq<nat>, n: nat) {
    && |s| == n
    && (forall k :: 0 <= k < |s| ==> s[k] < n)
    && multiset(s) == multiset(Range(n))
  }

  /** No offset occurs twice in `Range(n)`. */
  lemma {:induction false} RangeOccursOnce(n: nat, v: nat)
    ensures multiset(Range(n))[v] == (if v < n then 1 else 0)
  {
    if n > 0 {
      assert Range(n) == Range(n - 1) + [n - 1];
      RangeOccursOnce(n - 1, v);
    }
  }

  /** A permutation has no duplicates and no omissions. */
  lemma PermutationFacts(s: seq<nat>, n: nat)
    requires IsPermutation(s, n)
    ensures forall i, j :: 0 <= i < j < |s| ==> s[i] != s[j]
    ensures forall v :: 0 <= v < n ==> v in s
  {
    forall i, j | 0 <= i < j < |s| ensures s[i] != s[j] {
      if s[i] == s[j] {
        var v := s[i];
        assert s == s[..j] + s[j..];
        assert s[..j][i] == v && s[j..][0] == v;
        assert multiset(s)[v] >= 2;
        RangeOccursOnce(n, v);
        assert false;
      }
    }
    forall v | 0 <= v < n ensures v in s {
      RangeOccursOnce(n, v);
      assert v in multiset(s);
    }
  }
}
