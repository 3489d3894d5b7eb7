/** Order-preserving selection from a sequence, used for the big/small file partition. */
module Seqs {

  /** The elements of `s` that satisfy `p`, in their original order. */
  function Filter<T>(p: T -> bool, s: seq<T>): (r: seq<T>)
    ensures |r| <= |s|
    ensures forall x :: x in r ==> x in s && p(x)
    decreases |s|
  {
    if s == [] then []
    else if p(s[|s| - 1]) then Filter(p, s[..|s| - 1]) + [s[|s| - 1]]
    else Filter(p, s[..|s| - 1])
  }

  /** The elements of `s` that do not satisfy `p`, in their original order. */
  function FilterOut<T>(p: T -> bool, s: seq<T>): (r: seq<T>)
    ensures |r| <= |s|
    ensures forall x :: x in r ==> x in s && !p(x)
    decreases |s|
  {
    if s == [] then []
    else if p(s[|s| - 1]) then FilterOut(p, s[..|s| - 1])
    else FilterOut(p, s[..|s| - 1]) + [s[|s| - 1]]
  }

  /** `a` is `b` with some elements left out and the rest kept in order. */
  predicate IsSubseq<T(==)>(a: seq<T>, b: seq<T>)
    decreases |b|
  {
    if a == [] then true
    else if b == [] then false
    else if a[|a| - 1] == b[|b| - 1] then IsSubseq(a[..|a| - 1], b[..|b| - 1])
    else IsSubseq(a, b[..|b| - 1])
  }

  /** Splitting by a predicate loses nothing and duplicates nothing. */
  lemma {:induction false} FilterPartition<T>(p: T -> bool, s: seq<T>)
    ensures multiset(Filter(p, s)) + multiset(FilterOut(p, s)) == multiset(s)
    decreases |s|
  {
    if s != [] {
      var init, last := s[..|s| - 1], s[|s| - 1];
      FilterPartition(p, init);
      assert s == init + [last];
    }
  }

  /** The two halves of the split together are as long as the input. */
  lemma FilterLengths<T>(p: T -> bool, s: seq<T>)
    ensures |Filter(p, s)| + |FilterOut(p, s)| == |s|
  {
    FilterPartition(p, s);
    assert |multiset(Filter(p, s))| + |multiset(FilterOut(p, s))| == |multiset(s)|;
  }

  /** Each half of the split keeps the relative order of its elements. */
  lemma {:induction false} FilterKeepsOrder<T>(p: T -> bool, s: seq<T>)
    ensures IsSubseq(Filter(p, s), s) && IsSubseq(FilterOut(p, s), s)
    decreases |s|
  {
    if s != [] {
      var init, last := s[..|s| - 1], s[|s| - 1];
      FilterKeepsOrder(p, init);
      assert s == init + [last];
      if p(last) {
        var f := Filter(p, s);
        assert f[..|f| - 1] == Filter(p, init);
        SubseqWeaken(FilterOut(p, init), init, last);
      } else {
        var f := FilterOut(p, s);
        assert f[..|f| - 1] == FilterOut(p, init);
        SubseqWeaken(Filter(p, init), init, last);
      }
    }
  }

  /** A subsequence stays one when its last element is dropped. */
  lemma {:induction false} SubseqShorten<T>(a: seq<T>, b: seq<T>)
    requires a != [] && IsSubseq(a, b)
    ensures IsSubseq(a[..|a| - 1], b)
    decreases |b|, 0
  {
    var a' := a[..|a| - 1];
    if b != [] {
      var b' := b[..|b| - 1];
      assert b == b' + [b[|b| - 1]];
      if a[|a| - 1] == b[|b| - 1] {
        SubseqWeaken(a', b', b[|b| - 1]);
      } else {
        SubseqShorten(a, b');
        SubseqWeaken(a', b', b[|b| - 1]);
      }
    }
  }

  /** Growing the longer sequence at the end. */
  lemma {:induction false} SubseqWeaken<T>(a: seq<T>, b: seq<T>, x: T)
    requires IsSubseq(a, b)
    ensures IsSubseq(a, b + [x])
    decreases |b|, 1
  {
    var bx := b + [x];
    assert bx[..|bx| - 1] == b;
    if a != [] && a[|a| - 1] == x {
      SubseqShorten(a, b);
    }
  }
}
