/**
 * `Array.prototype.sort` with a numeric comparator `(a, b) => key(a) - key(b)`:
 * the language guarantees a stable sort, so it is modelled by insertion sort,
 * and its contract is sortedness, permutation and stability.
 */
module StableSort {

  predicate SortedBy<T>(s: seq<T>, key: T -> int)
  {
    forall i, j :: 0 <= i < j < |s| ==> key(s[i]) <= key(s[j])
  }

  /** The elements of `s` whose key is `v`, in their order in `s`. */
  function WithKey<T>(s: seq<T>, key: T -> int, v: int): seq<T>
  {
    if |s| == 0 then []
    else (if key(s[0]) == v then [s[0]] else []) + WithKey(s[1..], key, v)
  }

  /** Insert `x` into sorted `s` after every element whose key is not larger. */
  function Insert<T>(s: seq<T>, x: T, key: T -> int): seq<T>
  {
    if |s| == 0 || key(x) < key(s[0]) then [x] + s
    else [s[0]] + Insert(s[1..], x, key)
  }

  /** The stable sort of `s` by `key`. */
  function Sort<T>(s: seq<T>, key: T -> int): (r: seq<T>)
    ensures |r| == |s|
    ensures SortedBy(r, key)
    ensures multiset(r) == multiset(s)
    ensures forall v :: WithKey(r, key, v) == WithKey(s, key, v)
  {
    if |s| == 0 then []
    else
      var prefix := s[..|s| - 1];
      var last := s[|s| - 1];
      var sortedPrefix := Sort(prefix, key);
      assert s == prefix + [last];
      InsertLast(prefix, last, sortedPrefix, key);
      Insert(sortedPrefix, last, key)
  }

  /** Inserting the last element into the sorted rest sorts the whole. */
  lemma InsertLast<T>(prefix: seq<T>, last: T, sortedPrefix: seq<T>, key: T -> int)
    requires SortedBy(sortedPrefix, key) && multiset(sortedPrefix) == multiset(prefix)
    requires forall v :: WithKey(sortedPrefix, key, v) == WithKey(prefix, key, v)
    ensures var r := Insert(sortedPrefix, last, key);
      |r| == |prefix| + 1 && SortedBy(r, key) && multiset(r) == multiset(prefix + [last])
      && forall v :: WithKey(r, key, v) == WithKey(prefix + [last], key, v)
  {
    InsertSorted(sortedPrefix, last, key);
    InsertPermutes(sortedPrefix, last, key);
    assert |sortedPrefix| == |multiset(sortedPrefix)| == |prefix|;
    forall v ensures WithKey(Insert(sortedPrefix, last, key), key, v) == WithKey(prefix + [last], key, v) {
      InsertLastWithKey(prefix, last, sortedPrefix, key, v);
    }
  }

  /** ... one key at a time. */
  lemma InsertLastWithKey<T>(prefix: seq<T>, last: T, sortedPrefix: seq<T>, key: T -> int, v: int)
    requires SortedBy(sortedPrefix, key)
    requires WithKey(sortedPrefix, key, v) == WithKey(prefix, key, v)
    ensures WithKey(Insert(sortedPrefix, last, key), key, v) == WithKey(prefix + [last], key, v)
  {
    InsertWithKey(sortedPrefix, last, key, v);
    WithKeyAppend(prefix, [last], key, v);
    assert WithKey([last], key, v) == (if key(last) == v then [last] else []) + WithKey([last][1..], key, v);
  }

  lemma {:induction false} WithKeyAppend<T>(a: seq<T>, b: seq<T>, key: T -> int, v: int)
    ensures WithKey(a + b, key, v) == WithKey(a, key, v) + WithKey(b, key, v)
  {
    if |a| == 0 {
      assert a + b == b;
    } else {
      var head := if key(a[0]) == v then [a[0]] else [];
      assert (a + b)[0] == a[0] && (a + b)[1..] == a[1..] + b;
      WithKeyAppend(a[1..], b, key, v);
      assert WithKey(a + b, key, v) == head + WithKey(a[1..] + b, key, v);
      assert WithKey(a, key, v) == head + WithKey(a[1..], key, v);
      assert head + (WithKey(a[1..], key, v) + WithKey(b, key, v))
          == (head + WithKey(a[1..], key, v)) + WithKey(b, key, v);
    }
  }

  lemma {:induction false} WithKeyNone<T>(s: seq<T>, key: T -> int, v: int)
    requires forall i :: 0 <= i < |s| ==> key(s[i]) != v
    ensures WithKey(s, key, v) == []
  {
    if |s| > 0 {
      WithKeyNone(s[1..], key, v);
    }
  }

  lemma {:induction false} InsertSorted<T>(s: seq<T>, x: T, key: T -> int)
    requires SortedBy(s, key)
    ensures SortedBy(Insert(s, x, key), key)
    ensures |Insert(s, x, key)| == |s| + 1
    ensures |s| > 0 ==> Insert(s, x, key)[0] == (if key(x) < key(s[0]) then x else s[0])
  {
    if |s| > 0 && key(x) >= key(s[0]) {
      InsertSorted(s[1..], x, key);
      var r := Insert(s[1..], x, key);
      assert key(s[0]) <= key(r[0]);
      forall i, j | 0 <= i < j < |r| + 1
        ensures key(([s[0]] + r)[i]) <= key(([s[0]] + r)[j])
      {
        if i > 0 {
          assert ([s[0]] + r)[i] == r[i - 1];
        }
        assert ([s[0]] + r)[j] == r[j - 1];
      }
    }
  }

  lemma {:induction false} InsertPermutes<T>(s: seq<T>, x: T, key: T -> int)
    ensures multiset(Insert(s, x, key)) == multiset(s) + multiset{x}
  {
    if |s| > 0 && key(x) >= key(s[0]) {
      InsertPermutes(s[1..], x, key);
      assert s == [s[0]] + s[1..];
    }
  }

  lemma WithKeyCons<T>(x: T, s: seq<T>, key: T -> int, v: int)
    ensures WithKey([x] + s, key, v) == (if key(x) == v then [x] else []) + WithKey(s, key, v)
  {
    assert ([x] + s)[1..] == s;
  }

  lemma {:induction false} InsertWithKey<T>(s: seq<T>, x: T, key: T -> int, v: int)
    requires SortedBy(s, key)
    ensures WithKey(Insert(s, x, key), key, v) == WithKey(s, key, v) + (if key(x) == v then [x] else [])
  {
    if |s| == 0 || key(x) < key(s[0]) {
      WithKeyCons(x, s, key, v);
      if key(x) == v {
        WithKeyNone(s, key, v);
      }
    } else {
      InsertWithKey(s[1..], x, key, v);
      WithKeyCons(s[0], Insert(s[1..], x, key), key, v);
      WithKeyCons(s[0], s[1..], key, v);
      assert [s[0]] + s[1..] == s;
    }
  }

  /** An input that is already sorted comes back unchanged. */
  lemma {:induction false} SortOfSorted<T>(s: seq<T>, key: T -> int)
    requires SortedBy(s, key)
    ensures Sort(s, key) == s
  {
    if |s| > 0 {
      var prefix := s[..|s| - 1];
      var last := s[|s| - 1];
      SortOfSorted(prefix, key);
      InsertAtEnd(prefix, last, key);
      assert s == prefix + [last];
    }
  }

  lemma {:induction false} InsertAtEnd<T>(s: seq<T>, x: T, key: T -> int)
    requires forall i :: 0 <= i < |s| ==> key(s[i]) <= key(x)
    ensures Insert(s, x, key) == s + [x]
  {
    if |s| > 0 {
      InsertAtEnd(s[1..], x, key);
      assert s == [s[0]] + s[1..];
    }
  }

  /** Stability pins the result down: a sorted sequence that keeps every key's
    * elements in their original order is the stable sort. */
  lemma {:induction false} SortUnique<T>(s: seq<T>, r: seq<T>, key: T -> int)
    requires SortedBy(r, key)
    requires forall v :: WithKey(r, key, v) == WithKey(s, key, v)
    ensures r == Sort(s, key)
  {
    SortedDeterminedByKeys(r, Sort(s, key), key);
  }

  lemma WithKeyOfHead<T>(s: seq<T>, key: T -> int)
    requires |s| > 0
    ensures WithKey(s, key, key(s[0])) != []
  {
  }

  lemma {:induction false} SortedDeterminedByKeys<T>(a: seq<T>, b: seq<T>, key: T -> int)
    requires SortedBy(a, key) && SortedBy(b, key)
    requires forall v :: WithKey(a, key, v) == WithKey(b, key, v)
    ensures a == b
    decreases |a| + |b|
  {
    if |a| == 0 {
      if |b| > 0 {
        assert false;
      }
    } else if |b| == 0 {
      WithKeyOfHead(a, key);
      assert false;
    } else {
      var ka, kb := key(a[0]), key(b[0]);
      if ka < kb {
        WithKeyNone(b, key, ka);
        WithKeyOfHead(a, key);
        assert false;
      } else if kb < ka {
        WithKeyNone(a, key, kb);
        assert false;
      } else {
        assert a[0] == WithKey(a, key, ka)[0] == WithKey(b, key, ka)[0] == b[0];
        forall v ensures WithKey(a[1..], key, v) == WithKey(b[1..], key, v) {
          var head: seq<T> := if ka == v then [a[0]] else [];
          assert WithKey(a, key, v) == head + WithKey(a[1..], key, v);
          assert WithKey(b, key, v) == head + WithKey(b[1..], key, v);
          assert (head + WithKey(a[1..], key, v))[|head|..] == WithKey(a[1..], key, v);
          assert (head + WithKey(b[1..], key, v))[|head|..] == WithKey(b[1..], key, v);
        }
        assert SortedBy(a[1..], key);
        assert SortedBy(b[1..], key);
        SortedDeterminedByKeys(a[1..], b[1..], key);
        assert a == [a[0]] + a[1..];
        assert b == [b[0]] + b[1..];
      }
    }
  }
}
