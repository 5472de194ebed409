/** Order-preserving filtering, element-wise mapping and counting over sequences:
    the sequence view of a pandas boolean mask and of a row-wise `apply`. */
module Seqs {

  /** The elements of `s` that satisfy `p`, in their original order. */
  function Filter<T(==)>(p: T -> bool, s: seq<T>): (r: seq<T>)
    ensures |r| <= |s|
    ensures forall i :: 0 <= i < |r| ==> p(r[i])
  {
    if s == [] then [] else (if p(s[0]) then [s[0]] else []) + Filter(p, s[1..])
  }

  /** Filtering keeps only elements of the original sequence. */
  lemma {:induction false} FilterElements<T>(p: T -> bool, s: seq<T>, x: T)
    requires x in Filter(p, s)
    ensures x in s && p(x)
    decreases |s|
  {
    if x != s[0] || !p(s[0]) {
      FilterElements(p, s[1..], x);
    }
  }

  /** Every element that satisfies the predicate is kept. */
  lemma {:induction false} FilterKeeps<T>(p: T -> bool, s: seq<T>, x: T)
    requires x in s && p(x)
    ensures x in Filter(p, s)
    decreases |s|
  {
    if s[0] != x {
      FilterKeeps(p, s[1..], x);
    }
  }

  /** `f` applied to every element of `s`, in order. */
  function Map<T, U>(f: T -> U, s: seq<T>): (r: seq<U>)
    ensures |r| == |s|
    ensures forall i :: 0 <= i < |s| ==> r[i] == f(s[i])
  {
    if s == [] then [] else [f(s[0])] + Map(f, s[1..])
  }

  /** The number of positions of `s` whose element satisfies `p`. */
  function Count<T>(p: T -> bool, s: seq<T>): nat
  {
    |set i | 0 <= i < |s| && p(s[i])|
  }

  /** `a` can be obtained from `b` by deleting elements. */
  ghost predicate IsSubseq<T>(a: seq<T>, b: seq<T>)
    decreases |b|
  {
    if a == [] then true
    else if b == [] then false
    else (a[0] == b[0] && IsSubseq(a[1..], b[1..])) || IsSubseq(a, b[1..])
  }

  /** No element occurs twice. */
  ghost predicate NoDup<T>(s: seq<T>)
  {
    forall i, j :: 0 <= i < j < |s| ==> s[i] != s[j]
  }

  lemma {:induction false} FilterConcat<T>(p: T -> bool, a: seq<T>, b: seq<T>)
    ensures Filter(p, a + b) == Filter(p, a) + Filter(p, b)
    decreases |a|
  {
    if a == [] {
      assert a + b == b;
    } else {
      assert (a + b)[0] == a[0];
      assert (a + b)[1..] == a[1..] + b;
      FilterConcat(p, a[1..], b);
    }
  }

  /** The length of a filtered sequence is the number of positions the filter keeps. */
  lemma {:induction false} FilterCount<T>(p: T -> bool, s: seq<T>)
    ensures |Filter(p, s)| == Count(p, s)
    decreases |s|
  {
    if s != [] {
      var t, x := s[..|s| - 1], s[|s| - 1];
      assert s == t + [x];
      FilterConcat(p, t, [x]);
      FilterCount(p, t);
      assert [x][1..] == [];
      var before := set i | 0 <= i < |t| && p(t[i]);
      var after := set i | 0 <= i < |s| && p(s[i]);
      if p(x) {
        assert after == before + {|t|};
      } else {
        assert after == before;
      }
    }
  }

  lemma {:induction false} FilterIsSubseq<T>(p: T -> bool, s: seq<T>)
    ensures IsSubseq(Filter(p, s), s)
    decreases |s|
  {
    if s != [] {
      FilterIsSubseq(p, s[1..]);
      var rest := Filter(p, s[1..]);
      if p(s[0]) {
        assert ([s[0]] + rest)[1..] == rest;
      } else {
        assert Filter(p, s) == rest;
        SubseqOfSuffix(rest, s);
      }
    }
  }

  /** Anything that is a subsequence of the tail of `b` is a subsequence of `b`. */
  lemma SubseqOfSuffix<T>(a: seq<T>, b: seq<T>)
    requires b != [] && IsSubseq(a, b[1..])
    ensures IsSubseq(a, b)
  {
  }

  /** Filtering with a stronger predicate keeps a subsequence of what the weaker one keeps. */
  lemma {:induction false} FilterWeaker<T>(p: T -> bool, q: T -> bool, s: seq<T>)
    requires forall x :: q(x) ==> p(x)
    ensures IsSubseq(Filter(q, s), Filter(p, s))
    decreases |s|
  {
    if s != [] {
      var x := s[0];
      var a, b := Filter(q, s[1..]), Filter(p, s[1..]);
      FilterWeaker(p, q, s[1..]);
      if q(x) {
        assert ([x] + a)[1..] == a;
        assert ([x] + b)[1..] == b;
      } else if p(x) {
        assert Filter(q, s) == a;
        assert Filter(p, s) == [x] + b;
        assert ([x] + b)[1..] == b;
        SubseqOfSuffix(a, [x] + b);
      } else {
        assert Filter(q, s) == a && Filter(p, s) == b;
      }
    }
  }

  lemma {:induction false} MapSubseq<T, U>(f: T -> U, a: seq<T>, b: seq<T>)
    requires IsSubseq(a, b)
    ensures IsSubseq(Map(f, a), Map(f, b))
    decreases |b|
  {
    if a != [] {
      assert Map(f, b)[1..] == Map(f, b[1..]);
      if a[0] == b[0] && IsSubseq(a[1..], b[1..]) {
        MapSubseq(f, a[1..], b[1..]);
        assert Map(f, a)[1..] == Map(f, a[1..]);
      } else {
        MapSubseq(f, a, b[1..]);
      }
    }
  }

  lemma {:induction false} SubseqLength<T>(a: seq<T>, b: seq<T>)
    requires IsSubseq(a, b)
    ensures |a| <= |b|
    decreases |b|
  {
    if a != [] {
      if a[0] == b[0] && IsSubseq(a[1..], b[1..]) {
        SubseqLength(a[1..], b[1..]);
      } else {
        SubseqLength(a, b[1..]);
      }
    }
  }

  lemma {:induction false} SubseqElements<T>(a: seq<T>, b: seq<T>)
    requires IsSubseq(a, b)
    ensures forall x :: x in a ==> x in b
    decreases |b|
  {
    if a != [] {
      if a[0] == b[0] && IsSubseq(a[1..], b[1..]) {
        SubseqElements(a[1..], b[1..]);
        assert a == [a[0]] + a[1..];
        assert b == [b[0]] + b[1..];
      } else {
        SubseqElements(a, b[1..]);
        assert b == [b[0]] + b[1..];
      }
    }
  }

  /** Deleting elements cannot introduce a repetition. */
  lemma {:induction false} SubseqNoDup<T>(a: seq<T>, b: seq<T>)
    requires IsSubseq(a, b) && NoDup(b)
    ensures NoDup(a)
    decreases |b|
  {
    if a != [] {
      assert NoDup(b[1..]);
      if a[0] == b[0] && IsSubseq(a[1..], b[1..]) {
        SubseqNoDup(a[1..], b[1..]);
        SubseqElements(a[1..], b[1..]);
        forall j | 0 < j < |a|
          ensures a[0] != a[j]
        {
          assert a[j] == a[1..][j - 1];
          assert a[j] in b[1..];
        }
      } else {
        SubseqNoDup(a, b[1..]);
      }
    }
  }

  /** Mapping twice is mapping once with the composed function. */
  lemma MapCompose<T, U, V>(g: U -> V, f: T -> U, h: T -> V, s: seq<T>)
    requires forall x :: h(x) == g(f(x))
    ensures Map(g, Map(f, s)) == Map(h, s)
  {
  }

  /** Filtering after a map is mapping after a filter on the composed predicate. */
  lemma {:induction false} FilterMap<T, U>(q: U -> bool, f: T -> U, r: T -> bool, s: seq<T>)
    requires forall x :: r(x) == q(f(x))
    ensures Filter(q, Map(f, s)) == Map(f, Filter(r, s))
    decreases |s|
  {
    if s != [] {
      FilterMap(q, f, r, s[1..]);
      assert Map(f, s)[1..] == Map(f, s[1..]);
      var kept := Filter(r, s[1..]);
      if r(s[0]) {
        assert Map(f, [s[0]] + kept) == [f(s[0])] + Map(f, kept) by {
          assert ([s[0]] + kept)[1..] == kept;
        }
      }
    }
  }

  /** Two successive filters are one filter on the conjunction. */
  lemma {:induction false} FilterFilter<T>(p: T -> bool, q: T -> bool, r: T -> bool, s: seq<T>)
    requires forall x :: r(x) == (p(x) && q(x))
    ensures Filter(q, Filter(p, s)) == Filter(r, s)
    decreases |s|
  {
    if s != [] {
      FilterFilter(p, q, r, s[1..]);
      var kept := Filter(p, s[1..]);
      if p(s[0]) {
        assert ([s[0]] + kept)[0] == s[0];
        assert ([s[0]] + kept)[1..] == kept;
        assert Filter(q, [s[0]] + kept) == (if q(s[0]) then [s[0]] else []) + Filter(q, kept);
      } else {
        assert Filter(p, s) == kept;
      }
    }
  }
}
