/**
 * First-match overlap grouping, shared by both `detectOverlaps` variants.
 * The classes are already sorted by start; a group is the list of the
 * positions (in that sorted order) of its members, in the order they joined.
 */
module OverlapGroups {
  import opened Intervals

  predicate SortedByStart(slots: seq<TimeSlot>)
  {
    forall i, j :: 0 <= i < j < |slots| ==> slots[i].start <= slots[j].start
  }

  /** Every member of every group is a position below `n`. */
  predicate InRange(groups: seq<seq<nat>>, n: nat)
  {
    forall g, k :: 0 <= g < |groups| && 0 <= k < |groups[g]| ==> groups[g][k] < n
  }

  /** `group.some(...)`: the class at position `q` strictly overlaps a member of `group`. */
  predicate OverlapsSome(slots: seq<TimeSlot>, group: seq<nat>, q: nat)
  {
    exists k :: 0 <= k < |group| && group[k] < |slots| && q < |slots| && Overlaps(slots[q], slots[group[k]])
  }

  /** The index of the first group from `i` on that the class at `q` overlaps, or `|groups|`. */
  function FirstOverlapping(slots: seq<TimeSlot>, groups: seq<seq<nat>>, q: nat, i: nat): (r: nat)
    requires i <= |groups|
    ensures i <= r <= |groups|
    ensures forall g :: i <= g < r ==> !OverlapsSome(slots, groups[g], q)
    ensures r < |groups| ==> OverlapsSome(slots, groups[r], q)
    decreases |groups| - i
  {
    if i == |groups| then i
    else if OverlapsSome(slots, groups[i], q) then i
    else FirstOverlapping(slots, groups, q, i + 1)
  }

  /** One step of the grouping loop: push `q` onto the first overlapping group,
    * or open a new group holding only `q`. */
  function Place(slots: seq<TimeSlot>, groups: seq<seq<nat>>, q: nat): seq<seq<nat>>
  {
    var g := FirstOverlapping(slots, groups, q, 0);
    if g < |groups| then groups[g := groups[g] + [q]] else groups + [[q]]
  }

  /** The groups after the first `n` sorted classes have been placed. */
  function GroupsOf(slots: seq<TimeSlot>, n: nat): seq<seq<nat>>
    requires n <= |slots|
  {
    if n == 0 then [] else Place(slots, GroupsOf(slots, n - 1), n - 1)
  }

  // ---------------------------------------------------------------------------
  // Invariants of the grouping

  predicate NonEmpty(groups: seq<seq<nat>>)
  {
    forall g :: 0 <= g < |groups| ==> |groups[g]| > 0
  }

  /** Members join in sorted order, so each group lists increasing positions. */
  predicate Increasing(groups: seq<seq<nat>>)
  {
    forall g, i, j :: 0 <= g < |groups| && 0 <= i < j < |groups[g]| ==> groups[g][i] < groups[g][j]
  }

  /** No position is in two groups. */
  predicate Disjoint(groups: seq<seq<nat>>)
  {
    forall g1, i, g2, j ::
      (0 <= g1 < |groups| && 0 <= i < |groups[g1]| && 0 <= g2 < |groups| && 0 <= j < |groups[g2]| &&
       groups[g1][i] == groups[g2][j]) ==> g1 == g2
  }

  predicate InSomeGroup(groups: seq<seq<nat>>, q: nat)
  {
    exists g, k :: 0 <= g < |groups| && 0 <= k < |groups[g]| && groups[g][k] == q
  }

  /** Every position below `n` is in a group. */
  predicate Covers(groups: seq<seq<nat>>, n: nat)
  {
    forall q :: 0 <= q < n ==> InSomeGroup(groups, q)
  }

  /** Every member after the first overlaps a member that joined before it. */
  predicate JoinedByOverlap(slots: seq<TimeSlot>, groups: seq<seq<nat>>)
  {
    forall g, k :: 0 <= g < |groups| && 0 < k < |groups[g]| ==> OverlapsSome(slots, groups[g][..k], groups[g][k])
  }

  /** A member overlaps no member of an earlier group that was placed before it. */
  predicate FirstMatch(slots: seq<TimeSlot>, groups: seq<seq<nat>>)
  {
    forall g, k, g2, j ::
      (0 <= g < |groups| && 0 <= k < |groups[g]| && 0 <= g2 < g && 0 <= j < |groups[g2]| &&
       groups[g2][j] < groups[g][k] && groups[g][k] < |slots| && groups[g2][j] < |slots|) ==>
      !Overlaps(slots[groups[g][k]], slots[groups[g2][j]])
  }

  /** Groups are listed in the order they were created. */
  predicate CreationOrder(groups: seq<seq<nat>>)
  {
    forall g1, g2 :: 0 <= g1 < g2 < |groups| && |groups[g1]| > 0 && |groups[g2]| > 0 ==> groups[g1][0] < groups[g2][0]
  }

  predicate WellFormed(slots: seq<TimeSlot>, groups: seq<seq<nat>>, n: nat)
  {
    InRange(groups, n) && NonEmpty(groups) && Increasing(groups) && Disjoint(groups) && Covers(groups, n) &&
    JoinedByOverlap(slots, groups) && FirstMatch(slots, groups) && CreationOrder(groups)
  }

  // ---------------------------------------------------------------------------
  // Place keeps every invariant

  lemma PlaceShape(slots: seq<TimeSlot>, groups: seq<seq<nat>>, q: nat)
    ensures var g := FirstOverlapping(slots, groups, q, 0);
      var r := Place(slots, groups, q);
      (g < |groups| ==> |r| == |groups| && r[g] == groups[g] + [q] && forall h :: 0 <= h < |groups| && h != g ==> r[h] == groups[h]) &&
      (g == |groups| ==> |r| == |groups| + 1 && r[|groups|] == [q] && forall h :: 0 <= h < |groups| ==> r[h] == groups[h])
  {
  }

  lemma PlaceStructure(slots: seq<TimeSlot>, groups: seq<seq<nat>>, n: nat)
    requires InRange(groups, n) && NonEmpty(groups) && Increasing(groups) && Disjoint(groups) && Covers(groups, n)
    ensures var r := Place(slots, groups, n);
      InRange(r, n + 1) && NonEmpty(r) && Increasing(r) && Disjoint(r) && Covers(r, n + 1)
  {
    PlaceShape(slots, groups, n);
    PlaceIncreasing(slots, groups, n);
    PlaceDisjoint(slots, groups, n);
    PlaceCovers(slots, groups, n);
  }

  lemma PlaceIncreasing(slots: seq<TimeSlot>, groups: seq<seq<nat>>, n: nat)
    requires InRange(groups, n) && Increasing(groups)
    ensures Increasing(Place(slots, groups, n))
  {
    var g0 := FirstOverlapping(slots, groups, n, 0);
    var r := Place(slots, groups, n);
    PlaceShape(slots, groups, n);
    forall g, i, j | 0 <= g < |r| && 0 <= i < j < |r[g]| ensures r[g][i] < r[g][j] {
      if g < |groups| && g == g0 && j == |groups[g]| {
        assert r[g][i] == groups[g][i];
      }
    }
  }

  lemma PlaceDisjoint(slots: seq<TimeSlot>, groups: seq<seq<nat>>, n: nat)
    requires InRange(groups, n) && Disjoint(groups)
    ensures Disjoint(Place(slots, groups, n))
  {
    var r := Place(slots, groups, n);
    forall g1, i, g2, j | 0 <= g1 < |r| && 0 <= i < |r[g1]| && 0 <= g2 < |r| && 0 <= j < |r[g2]| && r[g1][i] == r[g2][j]
      ensures g1 == g2
    {
      if r[g1][i] == n {
        MemberIsNew(slots, groups, n, g1, i);
        MemberIsNew(slots, groups, n, g2, j);
      } else {
        OldMember(slots, groups, n, g1, i);
        OldMember(slots, groups, n, g2, j);
      }
    }
  }

  lemma PlaceCovers(slots: seq<TimeSlot>, groups: seq<seq<nat>>, n: nat)
    requires Covers(groups, n)
    ensures Covers(Place(slots, groups, n), n + 1)
  {
    var g0 := FirstOverlapping(slots, groups, n, 0);
    var r := Place(slots, groups, n);
    PlaceShape(slots, groups, n);
    forall q | 0 <= q < n + 1 ensures InSomeGroup(r, q) {
      if q == n {
        if g0 < |groups| {
          assert r[g0][|groups[g0]|] == n;
        } else {
          assert r[|groups|][0] == n;
        }
      } else {
        assert InSomeGroup(groups, q);
        var g, k :| 0 <= g < |groups| && 0 <= k < |groups[g]| && groups[g][k] == q;
        assert r[g][k] == q;
      }
    }
  }

  /** Outside the group that received it, `n` is nowhere; inside, it is the last member. */
  lemma MemberIsNew(slots: seq<TimeSlot>, groups: seq<seq<nat>>, n: nat, g: nat, i: nat)
    requires InRange(groups, n)
    requires var r := Place(slots, groups, n); g < |r| && i < |r[g]| && r[g][i] == n
    ensures var g0 := FirstOverlapping(slots, groups, n, 0); g == g0
  {
    PlaceShape(slots, groups, n);
  }

  /** A member other than `n` sits where it sat before. */
  lemma OldMember(slots: seq<TimeSlot>, groups: seq<seq<nat>>, n: nat, g: nat, i: nat)
    requires InRange(groups, n)
    requires var r := Place(slots, groups, n); g < |r| && i < |r[g]| && r[g][i] != n
    ensures g < |groups| && i < |groups[g]| && Place(slots, groups, n)[g][i] == groups[g][i]
  {
    PlaceShape(slots, groups, n);
  }

  lemma PlaceJoined(slots: seq<TimeSlot>, groups: seq<seq<nat>>, n: nat)
    requires JoinedByOverlap(slots, groups)
    ensures JoinedByOverlap(slots, Place(slots, groups, n))
  {
    var g0 := FirstOverlapping(slots, groups, n, 0);
    var r := Place(slots, groups, n);
    PlaceShape(slots, groups, n);
    forall g, k | 0 <= g < |r| && 0 < k < |r[g]| ensures OverlapsSome(slots, r[g][..k], r[g][k]) {
      if g < |groups| && g == g0 {
        assert r[g][..|groups[g]|] == groups[g];
        if k < |groups[g]| {
          assert r[g][..k] == groups[g][..k];
        }
      }
    }
  }

  lemma PlaceFirstMatch(slots: seq<TimeSlot>, groups: seq<seq<nat>>, n: nat)
    requires InRange(groups, n) && FirstMatch(slots, groups)
    ensures FirstMatch(slots, Place(slots, groups, n))
  {
    var g0 := FirstOverlapping(slots, groups, n, 0);
    var r := Place(slots, groups, n);
    PlaceShape(slots, groups, n);
    forall g, k, g2, j | 0 <= g < |r| && 0 <= k < |r[g]| && 0 <= g2 < g && 0 <= j < |r[g2]| &&
      r[g2][j] < r[g][k] && r[g][k] < |slots| && r[g2][j] < |slots|
      ensures !Overlaps(slots[r[g][k]], slots[r[g2][j]])
    {
      if r[g][k] == n {
        MemberIsNew(slots, groups, n, g, k);
        OldMember(slots, groups, n, g2, j);
        assert !OverlapsSome(slots, groups[g2], n);
      } else {
        OldMember(slots, groups, n, g, k);
        OldMember(slots, groups, n, g2, j);
      }
    }
  }

  lemma PlaceCreationOrder(slots: seq<TimeSlot>, groups: seq<seq<nat>>, n: nat)
    requires InRange(groups, n) && NonEmpty(groups) && CreationOrder(groups)
    ensures CreationOrder(Place(slots, groups, n))
  {
    PlaceShape(slots, groups, n);
  }

  /** The grouping of `n` classes meets every invariant. */
  lemma GroupsWellFormed(slots: seq<TimeSlot>, n: nat)
    requires n <= |slots|
    ensures WellFormed(slots, GroupsOf(slots, n), n)
  {
    GroupsStructure(slots, n);
    GroupsJoined(slots, n);
    GroupsFirstMatch(slots, n);
    GroupsCreationOrder(slots, n);
  }

  lemma {:induction false} GroupsBasic(slots: seq<TimeSlot>, n: nat)
    requires n <= |slots|
    ensures InRange(GroupsOf(slots, n), n) && NonEmpty(GroupsOf(slots, n))
  {
    if n > 0 {
      GroupsBasic(slots, n - 1);
      PlaceShape(slots, GroupsOf(slots, n - 1), n - 1);
    }
  }

  lemma {:induction false} GroupsStructure(slots: seq<TimeSlot>, n: nat)
    requires n <= |slots|
    ensures var groups := GroupsOf(slots, n);
      InRange(groups, n) && NonEmpty(groups) && Increasing(groups) && Disjoint(groups) && Covers(groups, n)
  {
    if n > 0 {
      GroupsStructure(slots, n - 1);
      StepStructure(slots, n);
    }
  }

  lemma StepStructure(slots: seq<TimeSlot>, n: nat)
    requires 0 < n <= |slots|
    requires var groups := GroupsOf(slots, n - 1);
      InRange(groups, n - 1) && NonEmpty(groups) && Increasing(groups) && Disjoint(groups) && Covers(groups, n - 1)
    ensures var groups := GroupsOf(slots, n);
      InRange(groups, n) && NonEmpty(groups) && Increasing(groups) && Disjoint(groups) && Covers(groups, n)
  {
    PlaceStructure(slots, GroupsOf(slots, n - 1), n - 1);
  }

  lemma {:induction false} GroupsJoined(slots: seq<TimeSlot>, n: nat)
    requires n <= |slots|
    ensures JoinedByOverlap(slots, GroupsOf(slots, n))
  {
    if n > 0 {
      GroupsJoined(slots, n - 1);
      StepJoined(slots, n);
    }
  }

  lemma StepJoined(slots: seq<TimeSlot>, n: nat)
    requires 0 < n <= |slots|
    requires JoinedByOverlap(slots, GroupsOf(slots, n - 1))
    ensures JoinedByOverlap(slots, GroupsOf(slots, n))
  {
    PlaceJoined(slots, GroupsOf(slots, n - 1), n - 1);
  }

  lemma {:induction false} GroupsFirstMatch(slots: seq<TimeSlot>, n: nat)
    requires n <= |slots|
    ensures FirstMatch(slots, GroupsOf(slots, n))
  {
    if n > 0 {
      GroupsFirstMatch(slots, n - 1);
      GroupsBasic(slots, n - 1);
      StepFirstMatch(slots, n);
    }
  }

  lemma StepFirstMatch(slots: seq<TimeSlot>, n: nat)
    requires 0 < n <= |slots|
    requires InRange(GroupsOf(slots, n - 1), n - 1) && FirstMatch(slots, GroupsOf(slots, n - 1))
    ensures FirstMatch(slots, GroupsOf(slots, n))
  {
    PlaceFirstMatch(slots, GroupsOf(slots, n - 1), n - 1);
  }

  lemma {:induction false} GroupsCreationOrder(slots: seq<TimeSlot>, n: nat)
    requires n <= |slots|
    ensures CreationOrder(GroupsOf(slots, n))
  {
    if n > 0 {
      GroupsCreationOrder(slots, n - 1);
      GroupsBasic(slots, n - 1);
      StepCreationOrder(slots, n);
    }
  }

  lemma StepCreationOrder(slots: seq<TimeSlot>, n: nat)
    requires 0 < n <= |slots|
    requires InRange(GroupsOf(slots, n - 1), n - 1) && NonEmpty(GroupsOf(slots, n - 1))
    requires CreationOrder(GroupsOf(slots, n - 1))
    ensures CreationOrder(GroupsOf(slots, n))
  {
    PlaceCreationOrder(slots, GroupsOf(slots, n - 1), n - 1);
  }

  // ---------------------------------------------------------------------------
  // Overlapping classes share a group

  /** In an increasing sequence that skips `p` but has a member above `p` and
    * starts below it, some member above `p` is preceded only by members below `p`. */
  lemma FirstAbove(s: seq<nat>, p: nat, j: nat) returns (k: nat)
    requires forall a, b :: 0 <= a < b < |s| ==> s[a] < s[b]
    requires forall a :: 0 <= a < |s| ==> s[a] != p
    requires j < |s| && s[j] > p
    requires |s| > 0 && s[0] < p
    ensures 0 < k < |s| && s[k] > p && forall a :: 0 <= a < k ==> s[a] < p
  {
    k := j;
    while s[k - 1] > p
      invariant 0 < k <= j && s[k] > p
      decreases k
    {
      k := k - 1;
    }
  }

  /** The class each class joins, with sorted input: when the classes at positions
    * `p` and `q` strictly overlap, they are in the same group. */
  lemma OverlappingShareGroup(slots: seq<TimeSlot>, groups: seq<seq<nat>>, gp: nat, kp: nat, gq: nat, kq: nat)
    requires SortedByStart(slots)
    requires WellFormed(slots, groups, |slots|)
    requires gp < |groups| && kp < |groups[gp]| && gq < |groups| && kq < |groups[gq]|
    requires groups[gp][kp] < groups[gq][kq]
    requires Overlaps(slots[groups[gp][kp]], slots[groups[gq][kq]])
    ensures gp == gq
  {
    var p, q := groups[gp][kp], groups[gq][kq];
    if gp < gq {
      assert false;
    } else if gq < gp {
      var s := groups[gq];
      assert s[0] < groups[gp][0] <= p;
      assert forall a :: 0 <= a < |s| ==> s[a] != p;
      var k := FirstAbove(s, p, kq);
      assert false;
    }
  }

  // ---------------------------------------------------------------------------
  // The loop

  /** The grouping loop of `detectOverlaps` over the sorted classes' slots. */
  method BuildGroups(slots: seq<TimeSlot>) returns (groups: seq<seq<nat>>)
    ensures groups == GroupsOf(slots, |slots|)
  {
    groups := [];
    var q := 0;
    while q < |slots|
      invariant 0 <= q <= |slots|
      invariant groups == GroupsOf(slots, q)
    {
      var added := false;
      var g := 0;
      while g < |groups| && !added
        invariant 0 <= g <= |groups|
        invariant !added ==> FirstOverlapping(slots, groups, q, 0) == FirstOverlapping(slots, groups, q, g)
        invariant !added ==> groups == GroupsOf(slots, q)
        invariant added ==> groups == Place(slots, GroupsOf(slots, q), q)
        decreases |groups| - g, if added then 0 else 1
      {
        if OverlapsSome(slots, groups[g], q) {
          groups := groups[g := groups[g] + [q]];
          added := true;
        } else {
          g := g + 1;
        }
      }
      if !added {
        groups := groups + [[q]];
      }
      q := q + 1;
    }
  }

  /** Which group and member a sorted position is. */
  lemma Locate(slots: seq<TimeSlot>, groups: seq<seq<nat>>, p: nat) returns (g: nat, k: nat)
    requires WellFormed(slots, groups, |slots|) && p < |slots|
    ensures g < |groups| && k < |groups[g]| && groups[g][k] == p
  {
    assert InSomeGroup(groups, p);
    g, k :| 0 <= g < |groups| && 0 <= k < |groups[g]| && groups[g][k] == p;
  }
}
