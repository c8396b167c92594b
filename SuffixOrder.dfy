/**
 * Suffix records and `suffix_compare`, the order the suffix array is sorted by.
 */
module SuffixOrder {
  import opened Lexicographic

  /**
   * A suffix record: the offset it starts at and the number of bytes from
   * there to the end of the text. The text the record borrows is shared by
   * every record and is passed alongside as `text`.
   */
  datatype Suffix = Suffix(startIndex: nat, length: nat)

  /** A record built for `text`: it starts inside the text and its length runs to the end. */
  ghost predicate WellFormed(text: seq<Byte>, s: Suffix) {
    s.startIndex < |text| && s.length == |text| - s.startIndex
  }

  ghost predicate AllWellFormed(text: seq<Byte>, ss: seq<Suffix>) {
    forall s | s in ss :: WellFormed(text, s)
  }

  /**
   * `suffix_compare`: the bytes from each start offset to the end, compared
   * lexicographically, with ties broken by the recorded lengths.
   */
  function SuffixCompare(text: seq<Byte>, s1: Suffix, s2: Suffix): Ordering
    requires s1.startIndex <= |text| && s2.startIndex <= |text|
  {
    ThenWith(Compare(text[s1.startIndex..], text[s2.startIndex..]), CompareNat(s1.length, s2.length))
  }

  /** `s1` does not come after `s2`: `suffix_compare` answers `Less` or `Equal`. */
  ghost predicate NotAfter(text: seq<Byte>, s1: Suffix, s2: Suffix) {
    s1.startIndex <= |text| && s2.startIndex <= |text| && SuffixCompare(text, s1, s2) != Greater
  }

  /** `s1` comes strictly before `s2`: `suffix_compare` answers `Less`. */
  ghost predicate Before(text: seq<Byte>, s1: Suffix, s2: Suffix) {
    s1.startIndex <= |text| && s2.startIndex <= |text| && SuffixCompare(text, s1, s2) == Less
  }

  /** The length tie-break never decides: on records of one text the order is that of the bytes alone. */
  lemma SuffixCompareIsByteOrder(text: seq<Byte>, s1: Suffix, s2: Suffix)
    requires WellFormed(text, s1) && WellFormed(text, s2)
    ensures SuffixCompare(text, s1, s2) == Compare(text[s1.startIndex..], text[s2.startIndex..])
  {
    CompareEqualIff(text[s1.startIndex..], text[s2.startIndex..]);
  }

  /** Two records of one text compare `Equal` exactly when they start at the same offset. */
  lemma SuffixCompareEqualIff(text: seq<Byte>, s1: Suffix, s2: Suffix)
    requires WellFormed(text, s1) && WellFormed(text, s2)
    ensures SuffixCompare(text, s1, s2) == Equal <==> s1.startIndex == s2.startIndex
    ensures SuffixCompare(text, s1, s2) == Equal <==> s1 == s2
  {
    SuffixCompareIsByteOrder(text, s1, s2);
    CompareEqualIff(text[s1.startIndex..], text[s2.startIndex..]);
  }

  /** Swapping the records reverses the answer. */
  lemma SuffixCompareFlip(text: seq<Byte>, s1: Suffix, s2: Suffix)
    requires s1.startIndex <= |text| && s2.startIndex <= |text|
    ensures SuffixCompare(text, s2, s1) == Flip(SuffixCompare(text, s1, s2))
  {
    CompareFlip(text[s1.startIndex..], text[s2.startIndex..]);
  }

  /** "Not after" is transitive on the records of one text. */
  lemma SuffixCompareAtMostTransitive(text: seq<Byte>, s1: Suffix, s2: Suffix, s3: Suffix)
    requires WellFormed(text, s1) && WellFormed(text, s2) && WellFormed(text, s3)
    requires NotAfter(text, s1, s2) && NotAfter(text, s2, s3)
    ensures NotAfter(text, s1, s3)
  {
    SuffixCompareIsByteOrder(text, s1, s2);
    SuffixCompareIsByteOrder(text, s2, s3);
    SuffixCompareIsByteOrder(text, s1, s3);
    CompareAtMostTransitive(text[s1.startIndex..], text[s2.startIndex..], text[s3.startIndex..]);
  }

  /** A record smaller than one that is not after a third is smaller than the third. */
  lemma SuffixCompareLessAtMost(text: seq<Byte>, s1: Suffix, s2: Suffix, s3: Suffix)
    requires WellFormed(text, s1) && WellFormed(text, s2) && WellFormed(text, s3)
    requires Before(text, s1, s2) && NotAfter(text, s2, s3)
    ensures Before(text, s1, s3)
  {
    SuffixCompareIsByteOrder(text, s1, s2);
    SuffixCompareIsByteOrder(text, s2, s3);
    SuffixCompareIsByteOrder(text, s1, s3);
    CompareEqualIff(text[s2.startIndex..], text[s3.startIndex..]);
    if SuffixCompare(text, s2, s3) == Less {
      CompareLessTransitive(text[s1.startIndex..], text[s2.startIndex..], text[s3.startIndex..]);
    }
  }

  /** The start offsets of a sequence of records, in order. */
  function Starts(ss: seq<Suffix>): (r: seq<nat>)
    ensures |r| == |ss|
  {
    seq(|ss|, k requires 0 <= k < |ss| => ss[k].startIndex)
  }

  /** Rearranging records rearranges their start offsets alike. */
  lemma {:induction false} StartsMultiset(a: seq<Suffix>, b: seq<Suffix>)
    requires multiset(a) == multiset(b)
    ensures multiset(Starts(a)) == multiset(Starts(b))
    decreases |a|
  {
    if |a| == 0 {
      assert |multiset(b)| == 0;
    } else {
      var x := a[|a| - 1];
      var a' := a[..|a| - 1];
      assert a == a' + [x];
      assert x in multiset(b);
      var i :| 0 <= i < |b| && b[i] == x;
      var b' := b[..i] + b[i + 1..];
      RemoveOne(b, i);
      assert multiset(a') == multiset(b');
      StartsMultiset(a', b');
      StartsSnoc(a', x);
      StartsRemove(b, i);
      RemoveOne(Starts(b), i);
    }
  }

  /** Appending a record appends its start offset. */
  lemma StartsSnoc(a: seq<Suffix>, x: Suffix)
    ensures Starts(a + [x]) == Starts(a) + [x.startIndex]
  {
  }

  /** Dropping the record at `i` drops the start offset at `i`. */
  lemma StartsRemove(b: seq<Suffix>, i: nat)
    requires i < |b|
    ensures Starts(b[..i] + b[i + 1..]) == Starts(b)[..i] + Starts(b)[i + 1..]
    ensures Starts(b)[i] == b[i].startIndex
  {
  }

  /** Dropping the element at `i` removes one occurrence of it. */
  lemma RemoveOne<T>(b: seq<T>, i: nat)
    requires i < |b|
    ensures multiset(b[..i] + b[i + 1..]) == multiset(b) - multiset{b[i]}
  {
    assert b == b[..i] + [b[i]] + b[i + 1..];
  }
}
