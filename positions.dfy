/** Lists of positions into a sequence, and what picking the elements at them gives. */
module Positions {

  predicate Distinct(s: seq<nat>)
  {
    forall i, j :: 0 <= i < j < |s| ==> s[i] != s[j]
  }

  function Range(n: nat): (r: seq<nat>)
    ensures |r| == n && forall i :: 0 <= i < n ==> r[i] == i
  {
    seq(n, i requires 0 <= i < n => i)
  }

  /** The elements of `s` at the positions `ps`, in that order. */
  function Pick<T>(s: seq<T>, ps: seq<nat>): (r: seq<T>)
    requires forall i :: 0 <= i < |ps| ==> ps[i] < |s|
    ensures |r| == |ps| && forall i :: 0 <= i < |ps| ==> r[i] == s[ps[i]]
  {
    seq(|ps|, i requires 0 <= i < |ps| => s[ps[i]])
  }

  lemma PickAppend<T>(s: seq<T>, a: seq<nat>, b: seq<nat>)
    requires forall i :: 0 <= i < |a| ==> a[i] < |s|
    requires forall i :: 0 <= i < |b| ==> b[i] < |s|
    ensures Pick(s, a + b) == Pick(s, a) + Pick(s, b)
  {
  }

  lemma PickRange<T>(s: seq<T>)
    ensures Pick(s, Range(|s|)) == s
  {
  }

  /** In a sequence without repetitions an element occurs at most once. */
  lemma {:induction false} DistinctCount(s: seq<nat>, x: nat)
    requires Distinct(s)
    ensures multiset(s)[x] == if x in s then 1 else 0
  {
    if |s| > 0 {
      var init := s[..|s| - 1];
      assert s == init + [s[|s| - 1]];
      assert Distinct(init);
      DistinctCount(init, x);
      if x == s[|s| - 1] {
        assert x !in init;
      }
    }
  }

  /** Two sequences without repetitions and with the same elements are permutations. */
  lemma SameElementsPermute(a: seq<nat>, b: seq<nat>)
    requires Distinct(a) && Distinct(b)
    requires forall x :: x in a <==> x in b
    ensures multiset(a) == multiset(b)
  {
    forall x ensures multiset(a)[x] == multiset(b)[x] {
      DistinctCount(a, x);
      DistinctCount(b, x);
    }
  }

  /** Taking one position out of the list takes its element out of the picked ones. */
  lemma RemoveAt<T>(s: seq<T>, b: seq<nat>, j: nat) returns (b': seq<nat>)
    requires forall i :: 0 <= i < |b| ==> b[i] < |s|
    requires j < |b|
    ensures b' == b[..j] + b[j + 1..]
    ensures forall i :: 0 <= i < |b'| ==> b'[i] < |s|
    ensures multiset(b) == multiset(b') + multiset{b[j]}
    ensures multiset(Pick(s, b)) == multiset(Pick(s, b')) + multiset{s[b[j]]}
  {
    var front, back := b[..j], b[j + 1..];
    b' := front + back;
    assert b == front + [b[j]] + back;
    var pf, pb := Pick(s, front), Pick(s, back);
    assert Pick(s, b) == pf + [s[b[j]]] + pb;
    assert Pick(s, b') == pf + pb;
  }

  /** Permuting the positions permutes the picked elements. */
  lemma {:induction false} PickPermutation<T>(s: seq<T>, a: seq<nat>, b: seq<nat>)
    requires forall i :: 0 <= i < |a| ==> a[i] < |s|
    requires forall i :: 0 <= i < |b| ==> b[i] < |s|
    requires multiset(a) == multiset(b)
    ensures multiset(Pick(s, a)) == multiset(Pick(s, b))
    decreases |a|
  {
    if |a| > 0 {
      var x := a[|a| - 1];
      assert x in multiset(b);
      var j :| 0 <= j < |b| && b[j] == x;
      var a' := a[..|a| - 1];
      assert a == a' + [x];
      assert Pick(s, a) == Pick(s, a') + [s[x]];
      var b' := RemoveAt(s, b, j);
      assert multiset(a) == multiset(a') + multiset{x};
      assert multiset(a') == multiset(a) - multiset{x};
      assert multiset(b') == multiset(b) - multiset{x};
      PickPermutation(s, a', b');
    }
  }

  /** Picking every position exactly once, in any order, is a permutation. */
  lemma PickAllPermutes<T>(s: seq<T>, ps: seq<nat>)
    requires Distinct(ps)
    requires forall i :: 0 <= i < |ps| ==> ps[i] < |s|
    requires forall x :: 0 <= x < |s| ==> x in ps
    ensures |ps| == |s|
    ensures multiset(Pick(s, ps)) == multiset(s)
  {
    var r := Range(|s|);
    forall x: nat ensures x in ps <==> x in r {
      if x < |s| {
        assert r[x] == x;
      }
    }
    SameElementsPermute(ps, r);
    assert |ps| == |multiset(ps)| == |multiset(r)| == |s|;
    assert forall i :: 0 <= i < |r| ==> r[i] < |s|;
    PickPermutation(s, ps, r);
    PickRange(s);
  }
}
