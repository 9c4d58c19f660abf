/**
 * Generic sequence operations used by the scorer: `Array.prototype.filter`
 * and the subsequence relation that states what a filter keeps.
 */
module Sequences {

  /** `a` is embedded in `b` in order: greedy leftmost matching, which
      finds an embedding whenever one exists. */
  predicate IsSubseq<T(==,!new)>(a: seq<T>, b: seq<T>)
    decreases |b|
  {
    if a == [] then true
    else if b == [] then false
    else if a[0] == b[0] then IsSubseq(a[1..], b[1..])
    else IsSubseq(a, b[1..])
  }

  /** The elements of `s` that satisfy `p`, in their original order and
      with their repetitions (the behaviour of `Array.prototype.filter`). */
  function Filter<T(==,!new)>(s: seq<T>, p: T -> bool): (r: seq<T>)
    ensures |r| <= |s|
    ensures forall i :: 0 <= i < |r| ==> p(r[i])
  {
    if s == [] then []
    else if p(s[0]) then [s[0]] + Filter(s[1..], p) else Filter(s[1..], p)
  }

  /** A filter keeps every occurrence of an element that satisfies `p` and
      no occurrence of one that does not. */
  lemma {:induction false} FilterCount<T(!new)>(s: seq<T>, p: T -> bool, x: T)
    ensures multiset(Filter(s, p))[x] == if p(x) then multiset(s)[x] else 0
  {
    if s != [] {
      assert s == [s[0]] + s[1..];
      FilterCount(s[1..], p, x);
    }
  }

  /** An element is kept exactly when it occurs in the input and satisfies `p`. */
  lemma {:induction false} FilterMember<T(!new)>(s: seq<T>, p: T -> bool, x: T)
    ensures x in Filter(s, p) <==> x in s && p(x)
  {
    FilterCount(s, p, x);
  }

  /** Everything a filter keeps comes from its input. */
  lemma {:induction false} FilterSubset<T(!new)>(s: seq<T>, p: T -> bool)
    ensures forall i :: 0 <= i < |Filter(s, p)| ==> Filter(s, p)[i] in s
  {
    forall i | 0 <= i < |Filter(s, p)| ensures Filter(s, p)[i] in s {
      FilterMember(s, p, Filter(s, p)[i]);
    }
  }

  /** A filter keeps nothing when nothing satisfies `p`. */
  lemma {:induction false} FilterNone<T(!new)>(s: seq<T>, p: T -> bool)
    requires forall i :: 0 <= i < |s| ==> !p(s[i])
    ensures Filter(s, p) == []
  {
    if s != [] {
      FilterNone(s[1..], p);
    }
  }

  /** A filter drops nothing exactly when every element satisfies `p`. */
  lemma {:induction false} FilterKeepsAll<T(!new)>(s: seq<T>, p: T -> bool)
    ensures |Filter(s, p)| == |s| <==> forall i :: 0 <= i < |s| ==> p(s[i])
    ensures (forall i :: 0 <= i < |s| ==> p(s[i])) ==> Filter(s, p) == s
  {
    if s != [] {
      FilterKeepsAll(s[1..], p);
      assert forall i :: 1 <= i < |s| ==> s[i] == s[1..][i - 1];
      assert s == [s[0]] + s[1..];
    }
  }

  /** What a filter keeps is a subsequence of its input. */
  lemma {:induction false} FilterIsSubseq<T(!new)>(s: seq<T>, p: T -> bool)
    ensures IsSubseq(Filter(s, p), s)
  {
    if s != [] {
      FilterIsSubseq(s[1..], p);
      var rest := Filter(s[1..], p);
      if p(s[0]) {
        assert Filter(s, p) == [s[0]] + rest;
        assert ([s[0]] + rest)[1..] == rest;
      } else {
        assert Filter(s, p) == rest;
        assert rest != [] ==> rest[0] != s[0] by {
          if rest != [] { assert p(rest[0]); }
        }
      }
    }
  }

  /** Filtering distributes over concatenation. */
  lemma {:induction false} FilterAppend<T(!new)>(u: seq<T>, v: seq<T>, p: T -> bool)
    ensures Filter(u + v, p) == Filter(u, p) + Filter(v, p)
  {
    if u == [] {
      assert u + v == v;
      assert Filter(u, p) == [];
    } else {
      var w := u + v;
      assert w[0] == u[0];
      assert w[1..] == u[1..] + v;
      FilterAppend(u[1..], v, p);
      if p(u[0]) {
        var a, b := Filter(u[1..], p), Filter(v, p);
        assert Filter(w, p) == [u[0]] + (a + b);
        assert Filter(u, p) == [u[0]] + a;
        assert [u[0]] + (a + b) == ([u[0]] + a) + b;
      } else {
        assert Filter(w, p) == Filter(w[1..], p);
        assert Filter(u, p) == Filter(u[1..], p);
      }
    }
  }

  /** Two filters with disjoint predicates together keep at most every
      element once. */
  lemma {:induction false} FilterDisjointBound<T(!new)>(s: seq<T>, p: T -> bool, q: T -> bool)
    requires forall x :: !(p(x) && q(x))
    ensures |Filter(s, p)| + |Filter(s, q)| <= |s|
  {
    if s != [] {
      FilterDisjointBound(s[1..], p, q);
      assert !(p(s[0]) && q(s[0]));
    }
  }
}
