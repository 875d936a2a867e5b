/** Order-preserving sub-sequences, the shape every `filter` and de-duplication in the app returns. */
module Seqs {

  /** `a` can be obtained from `b` by deleting elements, keeping the order of the rest. */
  ghost predicate IsSubseq<T>(a: seq<T>, b: seq<T>)
    decreases |b|
  {
    if a == [] then true
    else if b == [] then false
    else (a[0] == b[0] && IsSubseq(a[1..], b[1..])) || IsSubseq(a, b[1..])
  }

  /** Appending an element to the larger sequence keeps a sub-sequence. */
  lemma {:induction false} SubseqSnoc<T>(a: seq<T>, b: seq<T>, x: T)
    requires IsSubseq(a, b)
    ensures IsSubseq(a, b + [x])
    decreases |b|
  {
    if a != [] {
      assert (b + [x])[1..] == b[1..] + [x];
      if a[0] == b[0] && IsSubseq(a[1..], b[1..]) {
        SubseqSnoc(a[1..], b[1..], x);
      } else {
        SubseqSnoc(a, b[1..], x);
      }
    }
  }

  /** Appending the same element to both sides keeps a sub-sequence. */
  lemma {:induction false} SubseqSnocBoth<T>(a: seq<T>, b: seq<T>, x: T)
    requires IsSubseq(a, b)
    ensures IsSubseq(a + [x], b + [x])
    decreases |b|
  {
    if a == [] {
      if b == [] {
        var single: seq<T> := [x];
        assert single[1..] == [];
      } else {
        assert (b + [x])[1..] == b[1..] + [x];
        SubseqSnocBoth(a, b[1..], x);
      }
    } else {
      assert (a + [x])[1..] == a[1..] + [x];
      assert (b + [x])[1..] == b[1..] + [x];
      if a[0] == b[0] && IsSubseq(a[1..], b[1..]) {
        SubseqSnocBoth(a[1..], b[1..], x);
      } else {
        SubseqSnocBoth(a, b[1..], x);
      }
    }
  }

  /** A sub-sequence is never longer than the sequence it comes from. */
  lemma {:induction false} SubseqLength<T>(a: seq<T>, b: seq<T>)
    requires IsSubseq(a, b)
    ensures |a| <= |b|
    decreases |b|
  {
    if a != [] {
      if a[0] == b[0] && IsSubseq(a[1..], b[1..]) {
        SubseqLength(a[1..], b[1..]);
      } else {
        SubseqLength(a, b[1..]);
      }
    }
  }
}
