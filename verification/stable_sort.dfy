/** A stable sort by key, the behaviour of Python's `list.sort(key=...)`:
    the result is ordered by key, is a permutation of the input, and keeps
    elements with equal keys in their original relative order. */
module StableSort {

  /** `le` orders keys: every two keys compare, and the order is transitive. */
  ghost predicate TotalPreorder<K(!new)>(le: (K, K) -> bool)
  {
    && (forall a, b :: le(a, b) || le(b, a))
    && (forall a, b, c :: le(a, b) && le(b, c) ==> le(a, c))
  }

  ghost predicate Sorted<T, K>(s: seq<T>, key: T -> K, le: (K, K) -> bool)
  {
    forall i, j :: 0 <= i < j < |s| ==> le(key(s[i]), key(s[j]))
  }

  /** The elements of `s` whose key is `k`, in their order in `s`. */
  function WithKey<T, K(==)>(s: seq<T>, key: T -> K, k: K): (r: seq<T>)
    ensures |r| <= |s|
  {
    if s == [] then []
    else (if key(s[0]) == k then [s[0]] else []) + WithKey(s[1..], key, k)
  }

  lemma {:induction false} WithKeyAppend<T, K>(a: seq<T>, b: seq<T>, key: T -> K, k: K)
    ensures WithKey(a + b, key, k) == WithKey(a, key, k) + WithKey(b, key, k)
    decreases |a|
  {
    if a == [] {
      assert a + b == b;
    } else {
      var h := if key(a[0]) == k then [a[0]] else [];
      assert (a + b)[0] == a[0];
      assert (a + b)[1..] == a[1..] + b;
      assert WithKey(a + b, key, k) == h + WithKey(a[1..] + b, key, k);
      WithKeyAppend(a[1..], b, key, k);
      assert h + (WithKey(a[1..], key, k) + WithKey(b, key, k))
          == (h + WithKey(a[1..], key, k)) + WithKey(b, key, k);
    }
  }

  /** Puts `x` after every element whose key is not above its own. */
  function Insert<T, K>(x: T, s: seq<T>, key: T -> K, le: (K, K) -> bool): (r: seq<T>)
    ensures |r| == |s| + 1
  {
    if s == [] then [x]
    else if le(key(s[0]), key(x)) then [s[0]] + Insert(x, s[1..], key, le)
    else [x] + s
  }

  lemma {:induction false} InsertSorted<T, K(!new)>(x: T, s: seq<T>, key: T -> K, le: (K, K) -> bool)
    requires TotalPreorder(le)
    requires Sorted(s, key, le)
    ensures Sorted(Insert(x, s, key, le), key, le)
    ensures multiset(Insert(x, s, key, le)) == multiset(s) + multiset{x}
    decreases |s|
  {
    InsertPermutes(x, s, key, le);
    if s != [] {
      if le(key(s[0]), key(x)) {
        var tail := Insert(x, s[1..], key, le);
        InsertSorted(x, s[1..], key, le);
        forall j | 0 <= j < |tail|
          ensures le(key(s[0]), key(tail[j]))
        {
          InsertedFrom(x, s, key, le, tail[j]);
        }
        assert Insert(x, s, key, le) == [s[0]] + tail;
      } else {
        assert le(key(x), key(s[0]));
      }
    }
  }

  lemma {:induction false} InsertPermutes<T, K>(x: T, s: seq<T>, key: T -> K, le: (K, K) -> bool)
    ensures multiset(Insert(x, s, key, le)) == multiset(s) + multiset{x}
    decreases |s|
  {
    if s != [] {
      assert s == [s[0]] + s[1..];
      if le(key(s[0]), key(x)) {
        InsertPermutes(x, s[1..], key, le);
      }
    }
  }

  /** An element of the tail insertion is `x` or one of the tail's, so
      it is not keyed below the head. */
  lemma InsertedFrom<T, K(!new)>(x: T, s: seq<T>, key: T -> K, le: (K, K) -> bool, y: T)
    requires TotalPreorder(le) && Sorted(s, key, le) && s != [] && le(key(s[0]), key(x))
    requires multiset(Insert(x, s[1..], key, le)) == multiset(s[1..]) + multiset{x}
    requires y in Insert(x, s[1..], key, le)
    ensures le(key(s[0]), key(y))
  {
    assert y in multiset(s[1..]) + multiset{x};
    if y != x {
      assert y in s[1..];
      var m :| 0 <= m < |s[1..]| && s[1..][m] == y;
      assert s[m + 1] == y;
    }
  }

  /** Inserting `x` appends it to the elements that share its key. */
  lemma {:induction false} InsertWithKey<T, K(!new)>(x: T, s: seq<T>, key: T -> K, le: (K, K) -> bool, k: K)
    requires TotalPreorder(le)
    requires Sorted(s, key, le)
    ensures WithKey(Insert(x, s, key, le), key, k)
         == WithKey(s, key, k) + (if key(x) == k then [x] else [])
    decreases |s|
  {
    if s == [] {
      assert WithKey([x], key, k) == (if key(x) == k then [x] else []) + WithKey([], key, k);
    } else if le(key(s[0]), key(x)) {
      InsertWithKey(x, s[1..], key, le, k);
      assert Insert(x, s, key, le)[1..] == Insert(x, s[1..], key, le);
    } else {
      var r := [x] + s;
      assert r[1..] == s;
      if key(x) == k {
        NoneWithKey(s, key, le, k);
      }
    }
  }

  /** In a sorted sequence whose first key is above `k`, no key equals `k`. */
  lemma NoneWithKey<T, K(!new)>(s: seq<T>, key: T -> K, le: (K, K) -> bool, k: K)
    requires TotalPreorder(le)
    requires Sorted(s, key, le)
    requires s != [] && !le(key(s[0]), k)
    ensures WithKey(s, key, k) == []
  {
    forall i | 0 <= i < |s|
      ensures key(s[i]) != k
    {
      if i > 0 {
        assert le(key(s[0]), key(s[i]));
      }
    }
    NoneWithKeyAll(s, key, k);
  }

  lemma {:induction false} NoneWithKeyAll<T, K>(s: seq<T>, key: T -> K, k: K)
    requires forall i :: 0 <= i < |s| ==> key(s[i]) != k
    ensures WithKey(s, key, k) == []
    decreases |s|
  {
    if s != [] {
      NoneWithKeyAll(s[1..], key, k);
    }
  }

  /** The stable sort: each element, taken in order, is inserted after the
      elements already placed with a key not above its own. */
  function Sort<T, K(==, !new)>(s: seq<T>, key: T -> K, le: (K, K) -> bool): (r: seq<T>)
    requires TotalPreorder(le)
    ensures Sorted(r, key, le)
    ensures multiset(r) == multiset(s)
    ensures forall k :: WithKey(r, key, k) == WithKey(s, key, k)
    decreases |s|
  {
    if s == [] then []
    else
      var init := s[..|s| - 1];
      var last := s[|s| - 1];
      var sorted := Sort(init, key, le);
      InsertSorted(last, sorted, key, le);
      assert s == init + [last];
      assert forall k :: WithKey(Insert(last, sorted, key, le), key, k) == WithKey(s, key, k) by {
        forall k
          ensures WithKey(Insert(last, sorted, key, le), key, k) == WithKey(s, key, k)
        {
          InsertWithKey(last, sorted, key, le, k);
          WithKeyAppend(init, [last], key, k);
        }
      }
      Insert(last, sorted, key, le)
  }
}
