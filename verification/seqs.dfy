/** Order-preserving sub-sequences and the filter that produces them. */
module Seqs {
  import opened Wrappers

  /** `a` can be obtained from `b` by deleting elements, keeping the order. */
  predicate IsSubsequence<T(==)>(a: seq<T>, b: seq<T>)
    decreases |b|
  {
    if a == [] then true
    else if b == [] then false
    else (a[0] == b[0] && IsSubsequence(a[1..], b[1..])) || IsSubsequence(a, b[1..])
  }

  /** The elements of `s` that satisfy `p`, in their original order
      (`Array.prototype.filter`). */
  function Filter<T>(p: T -> bool, s: seq<T>): (r: seq<T>)
    ensures |r| <= |s|
    ensures forall i :: 0 <= i < |r| ==> p(r[i])
    ensures forall x :: x in r ==> x in s
    ensures forall i :: 0 <= i < |s| && p(s[i]) ==> s[i] in r
    ensures (forall i :: 0 <= i < |s| ==> p(s[i])) ==> r == s
  {
    if s == [] then []
    else if p(s[0]) then [s[0]] + Filter(p, s[1..])
    else Filter(p, s[1..])
  }

  /** The filter keeps every accepted element as often as it occurs and
      drops every rejected one. */
  lemma {:induction false} FilterKeepsCounts<T>(p: T -> bool, s: seq<T>)
    ensures forall x :: multiset(Filter(p, s))[x] == if p(x) then multiset(s)[x] else 0
    decreases |s|
  {
    if s != [] {
      FilterKeepsCounts(p, s[1..]);
      assert s == [s[0]] + s[1..];
      assert multiset(s) == multiset([s[0]]) + multiset(s[1..]);
      if p(s[0]) {
        assert multiset(Filter(p, s)) == multiset([s[0]]) + multiset(Filter(p, s[1..]));
      }
    }
  }

  /** The filter keeps the original order: its result is a sub-sequence. */
  lemma {:induction false} FilterIsSubsequence<T>(p: T -> bool, s: seq<T>)
    ensures IsSubsequence(Filter(p, s), s)
    decreases |s|
  {
    if s != [] {
      FilterIsSubsequence(p, s[1..]);
      if p(s[0]) {
        assert Filter(p, s)[1..] == Filter(p, s[1..]);
      }
    }
  }

  /** Index of the first element satisfying `p`, or -1 (`findIndex`). */
  function FindIndex<T>(p: T -> bool, s: seq<T>): (i: int)
    ensures -1 <= i < |s|
    ensures i == -1 <==> forall j :: 0 <= j < |s| ==> !p(s[j])
    ensures i >= 0 ==> p(s[i]) && forall j :: 0 <= j < i ==> !p(s[j])
    decreases |s|
  {
    if s == [] then -1
    else if p(s[0]) then 0
    else
      var k := FindIndex(p, s[1..]);
      if k == -1 then -1 else k + 1
  }

  /** Index of the first occurrence of `x`, or -1 (`indexOf`). */
  function IndexOf<T(==)>(s: seq<T>, x: T): (i: int)
    ensures -1 <= i < |s|
    ensures i == -1 <==> x !in s
    ensures i >= 0 ==> s[i] == x && forall j :: 0 <= j < i ==> s[j] != x
  {
    FindIndex(y => y == x, s)
  }

  /** No element occurs twice. */
  predicate Distinct<T(==)>(s: seq<T>) {
    forall i, j :: 0 <= i < j < |s| ==> s[i] != s[j]
  }

  /** In a sequence without repeats every element is found at its own index. */
  lemma IndexOfDistinct<T>(s: seq<T>, k: int)
    requires Distinct(s) && 0 <= k < |s|
    ensures IndexOf(s, s[k]) == k
  {
  }

  lemma {:induction false} FilterConcat<T>(p: T -> bool, a: seq<T>, b: seq<T>)
    ensures Filter(p, a + b) == Filter(p, a) + Filter(p, b)
    decreases |a|
  {
    if a != [] {
      assert (a + b)[0] == a[0];
      assert (a + b)[1..] == a[1..] + b;
      FilterConcat(p, a[1..], b);
    } else {
      assert a + b == b;
    }
  }

  /** `f` applied to every element, keeping the values it produces and
      dropping the elements it rejects, in order. */
  function FilterMap<T, U>(f: T -> Option<U>, s: seq<T>): (r: seq<U>)
    ensures |r| <= |s|
    decreases |s|
  {
    if s == [] then []
    else (if f(s[0]).Some? then [f(s[0]).value] else []) + FilterMap(f, s[1..])
  }

  lemma {:induction false} FilterMapConcat<T, U>(f: T -> Option<U>, a: seq<T>, b: seq<T>)
    ensures FilterMap(f, a + b) == FilterMap(f, a) + FilterMap(f, b)
    decreases |a|
  {
    if a != [] {
      assert (a + b)[0] == a[0];
      assert (a + b)[1..] == a[1..] + b;
      FilterMapConcat(f, a[1..], b);
    } else {
      assert a + b == b;
    }
  }

  /** Every kept value comes from some element, and every accepted element
      contributes its value. */
  lemma {:induction false} FilterMapMembership<T, U>(f: T -> Option<U>, s: seq<T>)
    ensures forall y :: y in FilterMap(f, s) ==> exists k :: 0 <= k < |s| && f(s[k]) == Some(y)
    ensures forall k :: 0 <= k < |s| && f(s[k]).Some? ==> f(s[k]).value in FilterMap(f, s)
    decreases |s|
  {
    if s != [] {
      FilterMapMembership(f, s[1..]);
      var head := if f(s[0]).Some? then [f(s[0]).value] else [];
      assert FilterMap(f, s) == head + FilterMap(f, s[1..]);
      forall y | y in FilterMap(f, s)
        ensures exists k :: 0 <= k < |s| && f(s[k]) == Some(y)
      {
        if y in head {
          assert f(s[0]) == Some(y);
        } else {
          var k :| 0 <= k < |s[1..]| && f(s[1..][k]) == Some(y);
          assert s[k + 1] == s[1..][k];
        }
      }
      forall k | 0 <= k < |s| && f(s[k]).Some?
        ensures f(s[k]).value in FilterMap(f, s)
      {
        if k > 0 {
          assert s[k] == s[1..][k - 1];
        }
      }
    }
  }

  /** Filtering and mapping keep one value per element the predicate
      accepts. */
  lemma {:induction false} FilterMapLength<T, U>(f: T -> Option<U>, p: T -> bool, s: seq<T>)
    requires forall x :: p(x) == f(x).Some?
    ensures |FilterMap(f, s)| == |Filter(p, s)|
    decreases |s|
  {
    if s != [] {
      FilterMapLength(f, p, s[1..]);
      assert s == [s[0]] + s[1..];
      FilterConcat(p, [s[0]], s[1..]);
    }
  }

  /** Extending the prefix by one element extends the result by that
      element's value, if any. */
  lemma FilterMapStep<T, U>(f: T -> Option<U>, s: seq<T>, i: int)
    requires 0 <= i < |s|
    ensures FilterMap(f, s[..i + 1]) == FilterMap(f, s[..i]) + (if f(s[i]).Some? then [f(s[i]).value] else [])
  {
    assert s[..i + 1] == s[..i] + [s[i]];
    FilterMapConcat(f, s[..i], [s[i]]);
  }

  /** Two filter-maps that accept the same elements line up: their results
      have the same length, and the `i`-th values of both come from the same
      element. */
  lemma {:induction false} FilterMapAligned<T, U, V>(f: T -> Option<U>, g: T -> Option<V>, s: seq<T>)
    requires forall x :: f(x).Some? == g(x).Some?
    ensures |FilterMap(f, s)| == |FilterMap(g, s)|
    ensures forall i :: 0 <= i < |FilterMap(f, s)| ==>
      exists k :: 0 <= k < |s| && f(s[k]) == Some(FilterMap(f, s)[i]) && g(s[k]) == Some(FilterMap(g, s)[i])
    decreases |s|
  {
    if s != [] {
      FilterMapAligned(f, g, s[1..]);
      var rf := FilterMap(f, s);
      var rg := FilterMap(g, s);
      var tf := FilterMap(f, s[1..]);
      var tg := FilterMap(g, s[1..]);
      var d := if f(s[0]).Some? then 1 else 0;
      assert rf == (if f(s[0]).Some? then [f(s[0]).value] else []) + tf;
      assert rg == (if g(s[0]).Some? then [g(s[0]).value] else []) + tg;
      forall i | 0 <= i < |rf|
        ensures exists k :: 0 <= k < |s| && f(s[k]) == Some(rf[i]) && g(s[k]) == Some(rg[i])
      {
        if i < d {
          assert f(s[0]) == Some(rf[i]) && g(s[0]) == Some(rg[i]);
        } else {
          assert rf[i] == tf[i - d] && rg[i] == tg[i - d];
          var k :| 0 <= k < |s[1..]| && f(s[1..][k]) == Some(tf[i - d]) && g(s[1..][k]) == Some(tg[i - d]);
          assert s[k + 1] == s[1..][k];
        }
      }
    }
  }
}
