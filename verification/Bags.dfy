/**
 Filtering and mapping of sequences, and what survives when only the multiset
 of elements is known.
 */
module Bags {

  function Filter<T>(s: seq<T>, p: T -> bool): seq<T> {
    if s == [] then []
    else
      var last := s[|s| - 1];
      Filter(s[..|s| - 1], p) + (if p(last) then [last] else [])
  }

  function Map<T, U>(s: seq<T>, f: T -> U): (r: seq<U>)
    ensures |r| == |s| && forall i :: 0 <= i < |s| ==> r[i] == f(s[i])
  {
    if s == [] then [] else Map(s[..|s| - 1], f) + [f(s[|s| - 1])]
  }

  lemma FilterAppend<T>(s: seq<T>, x: T, p: T -> bool)
    ensures Filter(s + [x], p) == Filter(s, p) + (if p(x) then [x] else [])
  {
    assert (s + [x])[..|s|] == s;
  }

  lemma {:induction false} FilterConcat<T>(a: seq<T>, b: seq<T>, p: T -> bool)
    ensures Filter(a + b, p) == Filter(a, p) + Filter(b, p)
  {
    if b == [] {
      assert a + b == a;
    } else {
      var init, last := b[..|b| - 1], b[|b| - 1];
      assert a + b == (a + init) + [last];
      FilterAppend(a + init, last, p);
      FilterConcat(a, init, p);
    }
  }

  /** Filtering keeps exactly the satisfying elements, each as often as it occurs. */
  lemma {:induction false} FilterCount<T>(s: seq<T>, p: T -> bool, x: T)
    ensures multiset(Filter(s, p))[x] == if p(x) then multiset(s)[x] else 0
  {
    if s == [] {
    } else {
      FilterCount(s[..|s| - 1], p, x);
      assert s == s[..|s| - 1] + [s[|s| - 1]];
    }
  }

  lemma MapConcat<T, U>(a: seq<T>, b: seq<T>, f: T -> U)
    ensures Map(a + b, f) == Map(a, f) + Map(b, f)
  {
  }

  lemma RemoveAt<T>(s: seq<T>, k: nat)
    requires k < |s|
    ensures s == s[..k] + [s[k]] + s[k + 1..]
    ensures multiset(s) == multiset(s[..k] + s[k + 1..]) + multiset{s[k]}
  {
    assert s == s[..k] + [s[k]] + s[k + 1..];
    assert multiset(s[..k] + s[k + 1..]) == multiset(s[..k]) + multiset(s[k + 1..]);
  }

  /** Of two sequences with the same elements the first one's last element can be taken out of both. */
  lemma TakeOut<T>(a: seq<T>, b: seq<T>) returns (k: nat)
    requires a != [] && multiset(a) == multiset(b)
    ensures k < |b| && b[k] == a[|a| - 1]
    ensures b == b[..k] + [b[k]] + b[k + 1..]
    ensures multiset(b[..k] + b[k + 1..]) == multiset(a[..|a| - 1])
  {
    var init, x := a[..|a| - 1], a[|a| - 1];
    assert a == init + [x];
    assert x in multiset(b);
    k :| 0 <= k < |b| && b[k] == x;
    RemoveAt(b, k);
    assert multiset(b[..k] + b[k + 1..]) == multiset(b) - multiset{x};
    assert multiset(init) == multiset(a) - multiset{x};
  }

  lemma {:induction false} MapPermutation<T, U>(a: seq<T>, b: seq<T>, f: T -> U)
    requires multiset(a) == multiset(b)
    ensures multiset(Map(a, f)) == multiset(Map(b, f))
  {
    if a == [] {
      assert |multiset(b)| == 0;
    } else {
      var k := TakeOut(a, b);
      MapPermutation(a[..|a| - 1], b[..k] + b[k + 1..], f);
      MapConcat(b[..k], b[k + 1..], f);
      MapConcat(b[..k] + [b[k]], b[k + 1..], f);
      MapConcat(b[..k], [b[k]], f);
    }
  }

  /** The kept elements do not depend on the order of the input. */
  lemma {:induction false} FilterPermutation<T>(a: seq<T>, b: seq<T>, p: T -> bool)
    requires multiset(a) == multiset(b)
    ensures multiset(Filter(a, p)) == multiset(Filter(b, p))
  {
    if a == [] {
      assert |multiset(b)| == 0;
    } else {
      var k := TakeOut(a, b);
      FilterPermutation(a[..|a| - 1], b[..k] + b[k + 1..], p);
      FilterConcat(b[..k], b[k + 1..], p);
      FilterConcat(b[..k] + [b[k]], b[k + 1..], p);
      FilterAppend(b[..k], b[k], p);
    }
  }
}
