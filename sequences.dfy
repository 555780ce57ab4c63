/** `Array.prototype.filter` and the order-preserving subsequence relation
    between the rendered view and the authoritative list. */
module Sequences {

  /** `s.filter(p)`: the elements satisfying `p`, in their original order,
      each as many times as it occurs in `s`. */
  function Filter<T(!new)>(s: seq<T>, p: T -> bool): (r: seq<T>)
    ensures |r| <= |s|
    ensures forall x :: multiset(r)[x] == if p(x) then multiset(s)[x] else 0
    ensures forall i :: 0 <= i < |r| ==> r[i] in s && p(r[i])
    ensures forall i :: 0 <= i < |s| && p(s[i]) ==> s[i] in r
  {
    if s == [] then []
    else
      assert s == [s[0]] + s[1..];
      (if p(s[0]) then [s[0]] else []) + Filter(s[1..], p)
  }

  /** `a` is obtained from `b` by deleting elements, keeping the order of the
      rest: each element of `b` is either matched by the next element of `a`
      or skipped. */
  ghost predicate IsSubseq<T>(a: seq<T>, b: seq<T>)
    decreases |b|
  {
    a == [] || (b != [] && ((a[0] == b[0] && IsSubseq(a[1..], b[1..])) || IsSubseq(a, b[1..])))
  }

  lemma {:induction false} SubseqRefl<T>(s: seq<T>)
    ensures IsSubseq(s, s)
  {
    if s != [] {
      SubseqRefl(s[1..]);
    }
  }

  /** Skipping one more element at the front keeps a subsequence. */
  lemma SubseqCons<T>(a: seq<T>, x: T, b: seq<T>)
    requires IsSubseq(a, b)
    ensures IsSubseq(a, [x] + b)
  {
    assert ([x] + b)[1..] == b;
  }

  /** Every element of a subsequence is an element of the sequence. */
  lemma {:induction false} SubseqMembers<T>(a: seq<T>, b: seq<T>)
    requires IsSubseq(a, b)
    ensures forall x :: x in a ==> x in b
    decreases |b|
  {
    if a != [] {
      if a[0] == b[0] && IsSubseq(a[1..], b[1..]) {
        SubseqMembers(a[1..], b[1..]);
        assert a == [a[0]] + a[1..];
        assert b == [b[0]] + b[1..];
      } else {
        SubseqMembers(a, b[1..]);
        assert b == [b[0]] + b[1..];
      }
    }
  }

  /** Appending the same element to both sides keeps a subsequence. */
  lemma {:induction false} SubseqAppend<T>(a: seq<T>, b: seq<T>, x: T)
    requires IsSubseq(a, b)
    ensures IsSubseq(a + [x], b + [x])
    decreases |b|
  {
    if b == [] {
      assert a == [];
      assert ([x] + [])[1..] == [];
    } else {
      assert (b + [x])[1..] == b[1..] + [x];
      if a == [] {
        SubseqAppend(a, b[1..], x);
      } else if a[0] == b[0] && IsSubseq(a[1..], b[1..]) {
        SubseqAppend(a[1..], b[1..], x);
        assert (a + [x])[1..] == a[1..] + [x];
      } else {
        SubseqAppend(a, b[1..], x);
      }
    }
  }

  /** A filter result is an order-preserving subsequence of its input. */
  lemma {:induction false} FilterSubseq<T(!new)>(s: seq<T>, p: T -> bool)
    ensures IsSubseq(Filter(s, p), s)
  {
    if s != [] {
      FilterSubseq(s[1..], p);
      if p(s[0]) {
        assert Filter(s, p) == [s[0]] + Filter(s[1..], p);
      } else {
        assert Filter(s, p) == Filter(s[1..], p);
      }
    }
  }

  /** Filtering both sides with the same predicate keeps a subsequence. */
  lemma {:induction false} FilterKeepsSubseq<T(!new)>(a: seq<T>, b: seq<T>, p: T -> bool)
    requires IsSubseq(a, b)
    ensures IsSubseq(Filter(a, p), Filter(b, p))
    decreases |b|
  {
    if a != [] {
      var fb' := Filter(b[1..], p);
      if a[0] == b[0] && IsSubseq(a[1..], b[1..]) {
        FilterKeepsSubseq(a[1..], b[1..], p);
        if p(b[0]) {
          assert Filter(a, p) == [a[0]] + Filter(a[1..], p);
          assert Filter(b, p) == [b[0]] + fb';
        } else {
          assert Filter(a, p) == Filter(a[1..], p);
          assert Filter(b, p) == fb';
        }
      } else {
        FilterKeepsSubseq(a, b[1..], p);
        if p(b[0]) {
          assert Filter(b, p) == [b[0]] + fb';
          SubseqCons(Filter(a, p), b[0], fb');
        } else {
          assert Filter(b, p) == fb';
        }
      }
    }
  }

  /** Filtering an already filtered sequence with the same predicate changes nothing. */
  lemma {:induction false} FilterIdempotent<T(!new)>(s: seq<T>, p: T -> bool)
    ensures Filter(Filter(s, p), p) == Filter(s, p)
  {
    if s != [] {
      FilterIdempotent(s[1..], p);
      var tail := Filter(s[1..], p);
      if p(s[0]) {
        var f := [s[0]] + tail;
        assert Filter(s, p) == f;
        assert f[0] == s[0] && f[1..] == tail;
        assert Filter(f, p) == [s[0]] + Filter(tail, p);
      } else {
        assert Filter(s, p) == tail;
      }
    }
  }

  /** A filter that every element passes returns its input unchanged. */
  lemma {:induction false} FilterKeepsAll<T(!new)>(s: seq<T>, p: T -> bool)
    requires forall x :: x in s ==> p(x)
    ensures Filter(s, p) == s
  {
    if s != [] {
      assert s == [s[0]] + s[1..];
      FilterKeepsAll(s[1..], p);
    }
  }
}
