/** Python's ordering of `str` values: lexicographic by code point, a proper
    prefix first. */
module StringOrder {

  predicate Less(a: string, b: string)
    decreases |a|
  {
    if a == [] then b != []
    else if b == [] then false
    else if a[0] != b[0] then a[0] < b[0]
    else Less(a[1..], b[1..])
  }

  lemma {:induction false} LessIrreflexive(a: string)
    ensures !Less(a, a)
    decreases |a|
  {
    if a != [] {
      LessIrreflexive(a[1..]);
    }
  }

  lemma {:induction false} LessTransitive(a: string, b: string, c: string)
    requires Less(a, b) && Less(b, c)
    ensures Less(a, c)
    decreases |a|
  {
    if a != [] && a[0] == b[0] && b[0] == c[0] {
      LessTransitive(a[1..], b[1..], c[1..]);
    }
  }

  /** Two different strings are always ordered one way or the other. */
  lemma {:induction false} LessTotal(a: string, b: string)
    requires a != b
    ensures Less(a, b) || Less(b, a)
    decreases |a|
  {
    if a != [] && b != [] && a[0] == b[0] {
      assert a == [a[0]] + a[1..];
      assert b == [b[0]] + b[1..];
      LessTotal(a[1..], b[1..]);
    }
  }

  /** Strictly increasing, hence without repeats. */
  predicate Sorted(s: seq<string>) {
    forall i, j :: 0 <= i < j < |s| ==> Less(s[i], s[j])
  }

  /** `x` put into its place in a sorted list that lacks it. */
  function Insert(s: seq<string>, x: string): (r: seq<string>)
    requires Sorted(s) && x !in s
    ensures Sorted(r)
    ensures |r| == |s| + 1
    ensures forall y :: y in r <==> y in s || y == x
    decreases |s|
  {
    if s == [] then [x]
    else if Less(x, s[0]) then
      InsertFront(s, x);
      [x] + s
    else
      LessTotal(x, s[0]);
      var rest := Insert(s[1..], x);
      InsertAfter(s[0], rest);
      [s[0]] + rest
  }

  lemma InsertFront(s: seq<string>, x: string)
    requires Sorted(s) && s != [] && Less(x, s[0])
    ensures Sorted([x] + s)
  {
    forall j | 1 <= j < |s| + 1
      ensures Less(([x] + s)[0], ([x] + s)[j])
    {
      if j > 1 {
        LessTransitive(x, s[0], s[j - 1]);
      }
    }
  }

  lemma InsertAfter(h: string, rest: seq<string>)
    requires Sorted(rest) && forall y :: y in rest ==> Less(h, y)
    ensures Sorted([h] + rest)
  {
    forall i, j | 0 <= i < j < |rest| + 1
      ensures Less(([h] + rest)[i], ([h] + rest)[j])
    {
      if i == 0 {
        assert rest[j - 1] in rest;
      }
    }
  }

  /** A sorted list is fixed by its elements: sorting has one answer. */
  lemma {:induction false} SortedUnique(s: seq<string>, t: seq<string>)
    requires Sorted(s) && Sorted(t)
    requires forall y :: y in s <==> y in t
    ensures s == t
    decreases |s|
  {
    if s != [] {
      assert s[0] in t;
    }
    if t != [] {
      assert t[0] in s;
    }
    if s != [] && t != [] {
      if s[0] != t[0] {
        assert s[0] in t;
        assert t[0] in s;
        var i :| 0 <= i < |t| && t[i] == s[0];
        var j :| 0 <= j < |s| && s[j] == t[0];
        LessIrreflexive(s[0]);
        if i > 0 && j > 0 {
          LessTransitive(s[0], s[j], t[i]);
        }
        assert false;
      }
      forall y
        ensures y in s[1..] <==> y in t[1..]
      {
        if y in s[1..] {
          InTail(s, y);
          InTail(t, y);
        }
        if y in t[1..] {
          InTail(t, y);
          InTail(s, y);
        }
      }
      SortedUnique(s[1..], t[1..]);
    }
  }

  /** In a sorted list, an element other than the head is in the tail. */
  lemma InTail(s: seq<string>, y: string)
    requires Sorted(s) && s != []
    ensures y in s[1..] <==> y in s && y != s[0]
  {
    if y in s[1..] {
      var i :| 0 <= i < |s| - 1 && s[1..][i] == y;
      assert Less(s[0], s[i + 1]);
      LessIrreflexive(y);
    }
    if y in s && y != s[0] {
      var i :| 0 <= i < |s| && s[i] == y;
      assert s[1..][i - 1] == y;
    }
  }
}
