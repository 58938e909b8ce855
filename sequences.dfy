/** Mapping a function over a sequence, and what that does to permutations. */
module Sequences {

  function Map<A, B>(s: seq<A>, f: A -> B): (r: seq<B>)
    ensures |r| == |s| && forall i :: 0 <= i < |s| ==> r[i] == f(s[i])
  {
    seq(|s|, i requires 0 <= i < |s| => f(s[i]))
  }

  lemma MapAppend<A, B>(a: seq<A>, b: seq<A>, f: A -> B)
    ensures Map(a + b, f) == Map(a, f) + Map(b, f)
  {
  }

  /** Reordering the inputs reorders the images. */
  lemma {:induction false} MapPermutation<A, B>(a: seq<A>, b: seq<A>, f: A -> B)
    requires multiset(a) == multiset(b)
    ensures multiset(Map(a, f)) == multiset(Map(b, f))
    decreases |a|
  {
    if |a| > 0 {
      var x := a[|a| - 1];
      assert x in multiset(b);
      var j :| 0 <= j < |b| && b[j] == x;
      var a', front, back := a[..|a| - 1], b[..j], b[j + 1..];
      assert a == a' + [x];
      assert b == front + [x] + back;
      assert multiset(a') == multiset(a) - multiset{x};
      assert multiset(front + back) == multiset(b) - multiset{x};
      MapPermutation(a', front + back, f);
      MapAppend(a', [x], f);
      MapAppend(front, [x], f);
      MapAppend(front + [x], back, f);
      MapAppend(front, back, f);
    }
  }
}
