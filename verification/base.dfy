/** Small generic building blocks shared by the rest of the model: an optional
    value, order-preserving filtering, subsequences and flattening. */
module Base {

  /** A value that may be absent. Used for the outcome of a network call that
      may raise, and for a file that may not be readable. */
  datatype Option<+T> = None | Some(value: T)

  /** `a` can be obtained from `b` by deleting elements, keeping the order. */
  predicate IsSubsequence<T(==)>(a: seq<T>, b: seq<T>)
    decreases |b|
  {
    || a == []
    || (&& b != []
        && ((a[0] == b[0] && IsSubsequence(a[1..], b[1..])) || IsSubsequence(a, b[1..])))
  }

  /** The elements of `s` that satisfy `p`, in their original order, duplicates
      included (a Python list comprehension with an `if`). */
  function Filter<T(==,!new)>(s: seq<T>, p: T -> bool): (r: seq<T>)
    ensures |r| <= |s|
    ensures forall x :: x in r <==> x in s && p(x)
    ensures IsSubsequence(r, s)
  {
    if s == [] then []
    else
      var rest := Filter(s[1..], p);
      assert s == [s[0]] + s[1..];
      if p(s[0]) then
        assert ([s[0]] + rest)[1..] == rest;
        [s[0]] + rest
      else
        rest
  }

  /** Every element that passes is kept as often as it occurs; every other
      element is gone. */
  lemma {:induction false} FilterCounts<T(!new)>(s: seq<T>, p: T -> bool)
    ensures forall x :: multiset(Filter(s, p))[x] == if p(x) then multiset(s)[x] else 0
    decreases |s|
  {
    if s != [] {
      FilterCounts(s[1..], p);
      assert s == [s[0]] + s[1..];
    }
  }

  lemma {:induction false} FilterConcat<T(!new)>(a: seq<T>, b: seq<T>, p: T -> bool)
    ensures Filter(a + b, p) == Filter(a, p) + Filter(b, p)
    decreases |a|
  {
    if a == [] {
      assert a + b == b;
    } else {
      assert (a + b)[1..] == a[1..] + b;
      FilterConcat(a[1..], b, p);
    }
  }

  /** Appending one element: the loop step of an accumulating filter. */
  lemma FilterSnoc<T(!new)>(a: seq<T>, x: T, p: T -> bool)
    ensures Filter(a + [x], p) == Filter(a, p) + (if p(x) then [x] else [])
  {
    FilterConcat(a, [x], p);
  }

  /** Filtering twice by the same predicate is filtering once. */
  lemma {:induction false} FilterIdempotent<T(!new)>(s: seq<T>, p: T -> bool)
    ensures Filter(Filter(s, p), p) == Filter(s, p)
    decreases |s|
  {
    if s != [] {
      FilterIdempotent(s[1..], p);
      if p(s[0]) {
        var f := Filter(s, p);
        assert f == [s[0]] + Filter(s[1..], p);
        assert f[1..] == Filter(s[1..], p);
      }
    }
  }

  /** Filtering keeps everything exactly when every element passes. */
  lemma {:induction false} FilterKeepsAll<T(!new)>(s: seq<T>, p: T -> bool)
    requires forall i :: 0 <= i < |s| ==> p(s[i])
    ensures Filter(s, p) == s
    decreases |s|
  {
    if s != [] {
      FilterKeepsAll(s[1..], p);
      assert s == [s[0]] + s[1..];
    }
  }

  /** The concatenation of a sequence of sequences. */
  function Flatten<T>(xss: seq<seq<T>>): seq<T>
  {
    if xss == [] then [] else xss[0] + Flatten(xss[1..])
  }

  lemma {:induction false} FlattenConcat<T>(a: seq<seq<T>>, b: seq<seq<T>>)
    ensures Flatten(a + b) == Flatten(a) + Flatten(b)
    decreases |a|
  {
    if a == [] {
      assert a + b == b;
    } else {
      assert (a + b)[1..] == a[1..] + b;
      FlattenConcat(a[1..], b);
    }
  }

  /** An element is in the concatenation exactly when it is in one of the parts. */
  lemma {:induction false} FlattenMembers<T>(xss: seq<seq<T>>, x: T)
    ensures x in Flatten(xss) <==> exists i :: 0 <= i < |xss| && x in xss[i]
    decreases |xss|
  {
    if xss != [] {
      FlattenMembers(xss[1..], x);
      if x in Flatten(xss[1..]) {
        var i :| 0 <= i < |xss[1..]| && x in xss[1..][i];
        assert xss[i + 1] == xss[1..][i];
      }
      if exists i :: 0 <= i < |xss| && x in xss[i] {
        var i :| 0 <= i < |xss| && x in xss[i];
        if i > 0 {
          assert xss[1..][i - 1] == xss[i];
        }
      }
    }
  }

  lemma FlattenSingle<T>(y: seq<T>)
    ensures Flatten([y]) == y
  {
    assert [y][1..] == [];
  }

  /** Taking one part out of the sequence takes its elements out of the
      concatenation, wherever the part sat. */
  lemma FlattenRemove<T>(xss: seq<seq<T>>, k: nat)
    requires k < |xss|
    ensures multiset(Flatten(xss)) == multiset(xss[k]) + multiset(Flatten(xss[..k] + xss[k + 1..]))
  {
    var a, y, b := xss[..k], xss[k], xss[k + 1..];
    FlattenAround(xss, k);
    FlattenConcat(a, b);
    MultisetOfThree(Flatten(a), y, Flatten(b));
  }

  lemma {:induction false} FlattenAround<T>(xss: seq<seq<T>>, k: nat)
    requires k < |xss|
    ensures Flatten(xss) == Flatten(xss[..k]) + xss[k] + Flatten(xss[k + 1..])
    decreases k
  {
    FlattenUnfold(xss);
    if k == 0 {
      assert xss[..0] == [] && xss[0 + 1..] == xss[1..];
    } else {
      var tail := xss[1..];
      FlattenAround(tail, k - 1);
      assert tail[..k - 1] == xss[..k][1..] && tail[k - 1] == xss[k] && tail[k..] == xss[k + 1..];
      FlattenUnfold(xss[..k]);
    }
  }

  lemma FlattenUnfold<T>(xss: seq<seq<T>>)
    requires xss != []
    ensures Flatten(xss) == xss[0] + Flatten(xss[1..])
  {
  }

  lemma MultisetOfThree<T>(a: seq<T>, b: seq<T>, c: seq<T>)
    ensures multiset(a + b + c) == multiset(b) + multiset(a + c)
  {
  }

  /** Reordering the parts does not change the multiset of their elements. */
  lemma {:induction false} FlattenPermutation<T>(xss: seq<seq<T>>, yss: seq<seq<T>>)
    requires multiset(xss) == multiset(yss)
    ensures multiset(Flatten(xss)) == multiset(Flatten(yss))
    decreases |xss|
  {
    if xss == [] {
      assert |yss| == |multiset(yss)| == 0;
    } else {
      var x := xss[0];
      assert x in multiset(yss);
      var k :| 0 <= k < |yss| && yss[k] == x;
      var rest := yss[..k] + yss[k + 1..];
      RemoveAt(yss, k);
      RemoveAt(xss, 0);
      assert xss[..0] + xss[1..] == xss[1..];
      calc {
        multiset(Flatten(xss));
        { FlattenUnfold(xss); }
        multiset(x) + multiset(Flatten(xss[1..]));
        { FlattenPermutation(xss[1..], rest); }
        multiset(x) + multiset(Flatten(rest));
        { FlattenRemove(yss, k); }
        multiset(Flatten(yss));
      }
    }
  }

  /** The lists `f` gives for the elements of `s`, concatenated in order. */
  function ConcatMap<A, B>(f: A -> seq<B>, s: seq<A>): seq<B>
  {
    if s == [] then [] else f(s[0]) + ConcatMap(f, s[1..])
  }

  lemma {:induction false} ConcatMapConcat<A, B>(f: A -> seq<B>, a: seq<A>, b: seq<A>)
    ensures ConcatMap(f, a + b) == ConcatMap(f, a) + ConcatMap(f, b)
    decreases |a|
  {
    if a == [] {
      assert a + b == b;
    } else {
      ConcatMapConcat(f, a[1..], b);
      assert (a + b)[1..] == a[1..] + b;
    }
  }

  lemma ConcatMapSnoc<A, B>(f: A -> seq<B>, s: seq<A>, x: A)
    ensures ConcatMap(f, s + [x]) == ConcatMap(f, s) + f(x)
  {
    ConcatMapConcat(f, s, [x]);
    assert [x][1..] == [];
  }

  /** An element is in the result exactly when `f` gives it for some element. */
  lemma {:induction false} ConcatMapMembers<A, B>(f: A -> seq<B>, s: seq<A>, y: B)
    ensures y in ConcatMap(f, s) <==> exists i :: 0 <= i < |s| && y in f(s[i])
    decreases |s|
  {
    if s != [] {
      var tail := s[1..];
      ConcatMapMembers(f, tail, y);
      if exists i :: 0 <= i < |tail| && y in f(tail[i]) {
        var i :| 0 <= i < |tail| && y in f(tail[i]);
        assert tail[i] == s[i + 1];
      }
      if exists i :: 0 <= i < |s| && y in f(s[i]) {
        var i :| 0 <= i < |s| && y in f(s[i]);
        if i > 0 {
          assert tail[i - 1] == s[i];
        }
      }
    }
  }

  /** `f` applied to every element, in order. */
  function Map<A, B>(f: A -> B, s: seq<A>): (r: seq<B>)
    ensures |r| == |s|
  {
    if s == [] then [] else [f(s[0])] + Map(f, s[1..])
  }

  /** Position `i` of the result is `f` of position `i` of the input. */
  lemma {:induction false} MapIndex<A, B>(f: A -> B, s: seq<A>)
    ensures forall i :: 0 <= i < |s| ==> Map(f, s)[i] == f(s[i])
    decreases |s|
  {
    if s != [] {
      MapIndex(f, s[1..]);
      forall i | 0 <= i < |s|
        ensures Map(f, s)[i] == f(s[i])
      {
        if i > 0 {
          assert Map(f, s)[i] == Map(f, s[1..])[i - 1];
        }
      }
    }
  }

  lemma {:induction false} MapConcat<A, B>(f: A -> B, a: seq<A>, b: seq<A>)
    ensures Map(f, a + b) == Map(f, a) + Map(f, b)
    decreases |a|
  {
    if a == [] {
      assert a + b == b;
    } else {
      MapConcat(f, a[1..], b);
      assert (a + b)[1..] == a[1..] + b;
    }
  }

  /** Mapping a reordered sequence gives a reordering of the mapped one. */
  lemma {:induction false} MapPermutation<A, B>(f: A -> B, s: seq<A>, t: seq<A>)
    requires multiset(s) == multiset(t)
    ensures multiset(Map(f, s)) == multiset(Map(f, t))
    decreases |s|
  {
    if s == [] {
      assert |t| == |multiset(t)| == 0;
    } else {
      var x := s[0];
      assert x in multiset(t);
      var k :| 0 <= k < |t| && t[k] == x;
      var rest := t[..k] + t[k + 1..];
      RemoveAt(t, k);
      RemoveAt(s, 0);
      assert s[..0] + s[1..] == s[1..];
      calc {
        multiset(Map(f, s));
        { MapUnfold(f, s); }
        multiset{f(x)} + multiset(Map(f, s[1..]));
        { MapPermutation(f, s[1..], rest); }
        multiset{f(x)} + multiset(Map(f, rest));
        { MapConcat(f, t[..k], t[k + 1..]); }
        multiset{f(x)} + multiset(Map(f, t[..k]) + Map(f, t[k + 1..]));
        { MultisetOfThree(Map(f, t[..k]), [f(x)], Map(f, t[k + 1..])); }
        multiset(Map(f, t[..k]) + [f(x)] + Map(f, t[k + 1..]));
        { MapAround(f, t, k); }
        multiset(Map(f, t));
      }
    }
  }

  /** Taking out the element at `k` takes one copy of it out of the multiset. */
  lemma RemoveAt<T>(t: seq<T>, k: nat)
    requires k < |t|
    ensures multiset(t[..k] + t[k + 1..]) == multiset(t) - multiset{t[k]}
  {
    assert t == t[..k] + [t[k]] + t[k + 1..];
    MultisetOfThree(t[..k], [t[k]], t[k + 1..]);
  }

  lemma MapAround<A, B>(f: A -> B, t: seq<A>, k: nat)
    requires k < |t|
    ensures Map(f, t) == Map(f, t[..k]) + [f(t[k])] + Map(f, t[k + 1..])
  {
    var front, tail := t[..k], t[k..];
    calc {
      Map(f, t);
      { assert front + tail == t; }
      Map(f, front + tail);
      { MapConcat(f, front, tail); }
      Map(f, front) + Map(f, tail);
      { MapUnfold(f, tail); assert tail[1..] == t[k + 1..]; }
      Map(f, front) + ([f(t[k])] + Map(f, t[k + 1..]));
    }
  }

  lemma MapUnfold<A, B>(f: A -> B, s: seq<A>)
    requires s != []
    ensures Map(f, s) == [f(s[0])] + Map(f, s[1..])
  {
  }
}
