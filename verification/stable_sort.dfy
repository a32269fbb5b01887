/**
  A stable sort on a real-valued key, in non-increasing key order.

  Python's `list.sort(key=..., reverse=True)` is stable: elements with equal keys
  keep their input order. This module gives an insertion sort with that behaviour
  and proves that its output is ordered, is a permutation of its input, and keeps
  the relative order of every group of equal keys.
*/
module StableSort {

  /** Keys never increase from left to right. */
  ghost predicate SortedDesc<T>(key: T -> real, s: seq<T>) {
    forall i, j :: 0 <= i < j < |s| ==> key(s[i]) >= key(s[j])
  }

  /** The subsequence of `s` whose elements have key `k`, in their order in `s`. */
  function WithKey<T>(key: T -> real, k: real, s: seq<T>): seq<T> {
    if s == [] then []
    else (if key(s[0]) == k then [s[0]] else []) + WithKey(key, k, s[1..])
  }

  /** The number of elements of `s` satisfying `p`. */
  function CountWhere<T>(p: T -> bool, s: seq<T>): nat {
    if s == [] then 0
    else (if p(s[0]) then 1 else 0) + CountWhere(p, s[1..])
  }

  /**
    Places `x` in front of the first element of `s` whose key is not greater
    than its own. Since `x` precedes every element of `s` in the input, putting
    it before equal keys is what keeps the sort stable.
  */
  function Insert<T>(key: T -> real, x: T, s: seq<T>): (r: seq<T>)
    ensures |r| == |s| + 1
  {
    if s == [] then [x]
    else if key(x) >= key(s[0]) then [x] + s
    else
      assert s == [s[0]] + s[1..];
      [s[0]] + Insert(key, x, s[1..])
  }

  /** Insertion adds exactly `x` to the elements. */
  lemma {:induction false} InsertPermutes<T>(key: T -> real, x: T, s: seq<T>)
    ensures multiset(Insert(key, x, s)) == multiset{x} + multiset(s)
  {
    if s != [] && key(x) < key(s[0]) {
      assert s == [s[0]] + s[1..];
      InsertPermutes(key, x, s[1..]);
    }
  }

  /** Every element of `Insert(key, x, s)` is `x` or an element of `s`. */
  lemma InsertMembers<T>(key: T -> real, x: T, s: seq<T>)
    ensures forall y :: y in Insert(key, x, s) ==> y == x || y in s
  {
    var r := Insert(key, x, s);
    InsertPermutes(key, x, s);
    forall y | y in r
      ensures y == x || y in s
    {
      assert y in multiset(r);
    }
  }

  /** Insertion into an ordered sequence keeps it ordered. */
  lemma {:induction false} InsertSorted<T>(key: T -> real, x: T, s: seq<T>)
    requires SortedDesc(key, s)
    ensures SortedDesc(key, Insert(key, x, s))
  {
    if s != [] && key(x) < key(s[0]) {
      var rest := Insert(key, x, s[1..]);
      InsertSorted(key, x, s[1..]);
      InsertMembers(key, x, s[1..]);
      var r := [s[0]] + rest;
      forall i, j | 0 <= i < j < |r|
        ensures key(r[i]) >= key(r[j])
      {
        if i == 0 {
          assert r[j] in rest;
          assert r[j] == x || r[j] in s[1..];
        } else {
          assert r[i] == rest[i - 1] && r[j] == rest[j - 1];
        }
      }
    }
  }

  /** Stable sort of `s` by non-increasing key. */
  function SortDesc<T>(key: T -> real, s: seq<T>): (r: seq<T>)
    ensures |r| == |s|
    ensures multiset(r) == multiset(s)
    ensures SortedDesc(key, r)
  {
    if s == [] then []
    else
      assert s == [s[0]] + s[1..];
      InsertSorted(key, s[0], SortDesc(key, s[1..]));
      InsertPermutes(key, s[0], SortDesc(key, s[1..]));
      Insert(key, s[0], SortDesc(key, s[1..]))
  }

  /** Taking the key group of a sequence with one more element in front. */
  lemma WithKeyCons<T>(key: T -> real, k: real, x: T, s: seq<T>)
    ensures WithKey(key, k, [x] + s) == (if key(x) == k then [x] else []) + WithKey(key, k, s)
  {
    assert ([x] + s)[1..] == s;
  }

  /** Inserting `x` adds it at the front of its key group and moves no one else in it. */
  lemma {:induction false} InsertWithKey<T>(key: T -> real, k: real, x: T, s: seq<T>)
    ensures WithKey(key, k, Insert(key, x, s)) == (if key(x) == k then [x] else []) + WithKey(key, k, s)
  {
    if s == [] {
      WithKeyCons(key, k, x, s);
    } else if key(x) >= key(s[0]) {
      WithKeyCons(key, k, x, s);
    } else {
      var rest := Insert(key, x, s[1..]);
      assert Insert(key, x, s) == [s[0]] + rest;
      WithKeyCons(key, k, s[0], rest);
      assert s == [s[0]] + s[1..];
      WithKeyCons(key, k, s[0], s[1..]);
      InsertWithKey(key, k, x, s[1..]);
      if key(x) == k {
        assert key(s[0]) != k;
      } else {
        var a: seq<T> := if key(s[0]) == k then [s[0]] else [];
        assert a + ([] + WithKey(key, k, s[1..])) == [] + (a + WithKey(key, k, s[1..]));
      }
    }
  }

  /** Stability: for every key, the elements with that key appear in input order. */
  lemma {:induction false} SortDescStable<T>(key: T -> real, k: real, s: seq<T>)
    ensures WithKey(key, k, SortDesc(key, s)) == WithKey(key, k, s)
  {
    if s != [] {
      SortDescStable(key, k, s[1..]);
      InsertWithKey(key, k, s[0], SortDesc(key, s[1..]));
    }
  }

  /** Inserting `x` changes the number of elements satisfying `p` by exactly `p(x)`. */
  lemma {:induction false} InsertCount<T>(key: T -> real, p: T -> bool, x: T, s: seq<T>)
    ensures CountWhere(p, Insert(key, x, s)) == (if p(x) then 1 else 0) + CountWhere(p, s)
  {
    if s == [] {
    } else if key(x) >= key(s[0]) {
      assert ([x] + s)[1..] == s;
    } else {
      var rest := Insert(key, x, s[1..]);
      assert ([s[0]] + rest)[1..] == rest;
      InsertCount(key, p, x, s[1..]);
    }
  }

  /** Sorting keeps the number of elements satisfying any predicate. */
  lemma {:induction false} SortDescCount<T>(key: T -> real, p: T -> bool, s: seq<T>)
    ensures CountWhere(p, SortDesc(key, s)) == CountWhere(p, s)
  {
    if s != [] {
      SortDescCount(key, p, s[1..]);
      InsertCount(key, p, s[0], SortDesc(key, s[1..]));
    }
  }

  /** An element of the sorted output is an element of the input, and conversely. */
  lemma SortDescMembers<T>(key: T -> real, s: seq<T>, x: T)
    ensures x in SortDesc(key, s) <==> x in s
  {
    var r := SortDesc(key, s);
    assert x in r <==> x in multiset(r);
    assert x in s <==> x in multiset(s);
  }

  /** Counting over a concatenation adds the counts of the two parts. */
  lemma {:induction false} CountWhereConcat<T>(p: T -> bool, a: seq<T>, b: seq<T>)
    ensures CountWhere(p, a + b) == CountWhere(p, a) + CountWhere(p, b)
  {
    if a == [] {
      assert a + b == b;
    } else {
      assert (a + b)[1..] == a[1..] + b;
      CountWhereConcat(p, a[1..], b);
    }
  }

  /** An element that fails `p` makes the count fall short of the length. */
  lemma CountWhereMissing<T>(p: T -> bool, s: seq<T>, k: nat)
    requires k < |s| && !p(s[k])
    ensures CountWhere(p, s) < |s|
  {
    CountWhereBound(p, s);
  }

  /** A count never exceeds the length, and falls short of it when some element fails `p`. */
  lemma {:induction false} CountWhereBound<T>(p: T -> bool, s: seq<T>)
    ensures CountWhere(p, s) <= |s|
    ensures (exists k :: 0 <= k < |s| && !p(s[k])) ==> CountWhere(p, s) < |s|
    ensures (forall k :: 0 <= k < |s| ==> p(s[k])) ==> CountWhere(p, s) == |s|
  {
    if s != [] {
      CountWhereBound(p, s[1..]);
      assert forall k :: 1 <= k < |s| ==> s[k] == s[1..][k - 1];
    }
  }

  /** An element satisfying `p` adds one to the count of everything up to and including it. */
  lemma CountWhereUpTo<T>(p: T -> bool, s: seq<T>, k: nat)
    requires k < |s| && p(s[k])
    ensures CountWhere(p, s[..k]) < CountWhere(p, s)
  {
    assert s == s[..k] + ([s[k]] + s[k + 1..]);
    CountWhereConcat(p, s[..k], [s[k]] + s[k + 1..]);
    CountWhereConcat(p, [s[k]], s[k + 1..]);
  }
}
