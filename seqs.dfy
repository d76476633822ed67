/** Order-preserving selection from a sequence, as the list comprehensions and filtering
    loops of the bot produce it. */
module Seqs {
  /** `a` is what is left of `b` after deleting some of its elements. */
  predicate Subseq<T(==)>(a: seq<T>, b: seq<T>)
    decreases |b|
  {
    if a == [] then true
    else if b == [] then false
    else (a[0] == b[0] && Subseq(a[1..], b[1..])) || Subseq(a, b[1..])
  }

  /** Dropping the head of `b` keeps a selection a selection. */
  lemma SubseqSkip<T>(a: seq<T>, x: T, b: seq<T>)
    requires Subseq(a, b)
    ensures Subseq(a, [x] + b)
  {
    assert ([x] + b)[1..] == b;
  }

  /** Keeping the head of `b` as well. */
  lemma SubseqKeep<T>(a: seq<T>, x: T, b: seq<T>)
    requires Subseq(a, b)
    ensures Subseq([x] + a, [x] + b)
  {
    assert ([x] + a)[1..] == a;
    assert ([x] + b)[1..] == b;
  }

  /** A selection is never longer than what it is taken from. */
  lemma {:induction false} SubseqLength<T>(a: seq<T>, b: seq<T>)
    requires Subseq(a, b)
    ensures |a| <= |b|
    decreases |b|
  {
    if a != [] {
      if a[0] == b[0] && Subseq(a[1..], b[1..]) {
        SubseqLength(a[1..], b[1..]);
      } else {
        SubseqLength(a, b[1..]);
      }
    }
  }

  /** A prefix of a selection is a selection. */
  lemma {:induction false} SubseqPrefix<T>(a: seq<T>, n: nat, b: seq<T>)
    requires Subseq(a, b) && n <= |a|
    ensures Subseq(a[..n], b)
    decreases |b|
  {
    if n > 0 {
      if a[0] == b[0] && Subseq(a[1..], b[1..]) {
        SubseqPrefix(a[1..], n - 1, b[1..]);
        assert a[1..][..n - 1] == a[..n][1..];
      } else {
        SubseqPrefix(a, n, b[1..]);
      }
    }
  }

  /** A selection of `b` is a selection of `b` with one more element at the end. */
  lemma {:induction false} SubseqSnocSkip<T>(a: seq<T>, b: seq<T>, x: T)
    requires Subseq(a, b)
    ensures Subseq(a, b + [x])
    decreases |b|
  {
    if a != [] && b != [] {
      assert (b + [x])[1..] == b[1..] + [x];
      if a[0] == b[0] && Subseq(a[1..], b[1..]) {
        SubseqSnocSkip(a[1..], b[1..], x);
      } else {
        SubseqSnocSkip(a, b[1..], x);
      }
    }
  }

  /** The element appended to `b` may be kept as well. */
  lemma {:induction false} SubseqSnocKeep<T>(a: seq<T>, b: seq<T>, x: T)
    requires Subseq(a, b)
    ensures Subseq(a + [x], b + [x])
    decreases |b|
  {
    if b == [] {
      assert a == [];
      assert (a + [x])[1..] == [];
    } else {
      assert (b + [x])[1..] == b[1..] + [x];
      if a != [] && a[0] == b[0] && Subseq(a[1..], b[1..]) {
        SubseqSnocKeep(a[1..], b[1..], x);
        assert (a + [x])[1..] == a[1..] + [x];
      } else {
        SubseqSnocKeep(a, b[1..], x);
      }
    }
  }
}
