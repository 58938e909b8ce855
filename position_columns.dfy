/**
 * `detectOverlaps` of StudentsManagement, ParentDashboard and StudentDashboard.
 * The grouping is the same first-match grouping as in ClassesManagement, but the
 * columns are simply the members' indices within their group, every member of a
 * group gets the group's size as its column count, and the result lists the groups
 * one after another instead of the sorted classes.
 */
module PositionColumns {
  import opened Intervals
  import opened Timetable
  import opened OverlapGroups
  import opened Positions
  import Geometry

  // ---------------------------------------------------------------------------
  // The specification

  /** `group.forEach((classItem, index) => result.push({...classItem, offsetIndex: index,
    * totalOverlaps: group.length}))` for one group of positions into `sorted`. */
  function Row(sorted: seq<ClassWithPosition>, group: seq<nat>): (r: seq<ClassWithPosition>)
    requires forall k :: 0 <= k < |group| ==> group[k] < |sorted|
    ensures |r| == |group|
  {
    seq(|group|, k requires 0 <= k < |group| => Positioned(sorted[group[k]], k, |group|))
  }

  /** The rows of the first `g` groups, one after another. */
  function Rows(sorted: seq<ClassWithPosition>, groups: seq<seq<nat>>, g: nat): (r: seq<ClassWithPosition>)
    requires InRange(groups, |sorted|) && g <= |groups|
    ensures |r| == Start(groups, g)
  {
    if g == 0 then [] else Rows(sorted, groups, g - 1) + Row(sorted, groups[g - 1])
  }

  /** Where the row of group `g` begins in the result: the sizes of the groups before it. */
  function Start(groups: seq<seq<nat>>, g: nat): nat
    requires g <= |groups|
  {
    if g == 0 then 0 else Start(groups, g - 1) + |groups[g - 1]|
  }

  /** The members of the first `g` groups, one group after another. */
  function Flatten(groups: seq<seq<nat>>, g: nat): (r: seq<nat>)
    requires g <= |groups|
    ensures |r| == Start(groups, g)
  {
    if g == 0 then [] else Flatten(groups, g - 1) + groups[g - 1]
  }

  /** What the function returns for the classes of one day. */
  function PositionLayout(xs: seq<ClassWithPosition>): seq<ClassWithPosition>
  {
    var sorted := SortByStart(xs);
    var groups := DayGroups(xs);
    Rows(sorted, groups, |groups|)
  }

  // ---------------------------------------------------------------------------
  // The loops

  /** The grouping loop followed by the `result.push` loops. */
  method DetectOverlapsByPosition(dayClasses: seq<ClassWithPosition>) returns (result: seq<ClassWithPosition>)
    ensures result == PositionLayout(dayClasses)
  {
    var sorted := SortByStart(dayClasses);
    var slots := SlotsOf(sorted);
    var groups := BuildGroups(slots);
    GroupsInRange(slots);
    result := [];
    var g := 0;
    while g < |groups|
      invariant 0 <= g <= |groups|
      invariant result == Rows(sorted, groups, g)
    {
      var group := groups[g];
      var totalOverlaps := |group|;
      var index := 0;
      while index < |group|
        invariant 0 <= index <= |group|
        invariant result == Rows(sorted, groups, g) + Row(sorted, group)[..index]
      {
        result := result + [Positioned(sorted[group[index]], index, totalOverlaps)];
        assert Row(sorted, group)[..index + 1] == Row(sorted, group)[..index] + [Row(sorted, group)[index]];
        index := index + 1;
      }
      assert Row(sorted, group)[..index] == Row(sorted, group);
      g := g + 1;
    }
  }

  lemma GroupsInRange(slots: seq<TimeSlot>)
    ensures InRange(GroupsOf(slots, |slots|), |slots|)
  {
    GroupsWellFormed(slots, |slots|);
  }

  // ---------------------------------------------------------------------------
  // Finding a member in the concatenation

  /** Member `k` of group `g` sits at `Start(groups, g) + k`. */
  lemma {:induction false} FlattenAt(groups: seq<seq<nat>>, g: nat, k: nat, h: nat)
    requires g < h <= |groups| && k < |groups[g]|
    ensures Start(groups, g) + k < Start(groups, h)
    ensures Flatten(groups, h)[Start(groups, g) + k] == groups[g][k]
  {
    if g < h - 1 {
      FlattenAt(groups, g, k, h - 1);
    }
  }

  /** ... and so does its card, with its column and count. */
  lemma {:induction false} RowsAt(sorted: seq<ClassWithPosition>, groups: seq<seq<nat>>, g: nat, k: nat, h: nat)
    requires InRange(groups, |sorted|) && g < h <= |groups| && k < |groups[g]|
    ensures Start(groups, g) + k < Start(groups, h)
    ensures Rows(sorted, groups, h)[Start(groups, g) + k] == Positioned(sorted[groups[g][k]], k, |groups[g]|)
  {
    if g < h - 1 {
      RowsAt(sorted, groups, g, k, h - 1);
    }
  }

  /** Every index of the concatenation is some member of some group. */
  lemma {:induction false} RowsLocate(groups: seq<seq<nat>>, h: nat, i: nat) returns (g: nat, k: nat)
    requires h <= |groups| && i < Start(groups, h)
    ensures g < h && k < |groups[g]| && i == Start(groups, g) + k
  {
    if i < Start(groups, h - 1) {
      g, k := RowsLocate(groups, h - 1, i);
    } else {
      g, k := h - 1, i - Start(groups, h - 1);
    }
  }

  // ---------------------------------------------------------------------------
  // The cards are kept

  /** The cards of the rows are those of the flattened positions. */
  lemma {:induction false} RowsCards(sorted: seq<ClassWithPosition>, groups: seq<seq<nat>>, h: nat)
    requires InRange(groups, |sorted|) && h <= |groups|
    ensures forall i :: 0 <= i < |Flatten(groups, h)| ==> Flatten(groups, h)[i] < |sorted|
    ensures Cards(Rows(sorted, groups, h)) == Cards(Pick(sorted, Flatten(groups, h)))
  {
    var f := Flatten(groups, h);
    forall i | 0 <= i < |f| ensures f[i] < |sorted| {
      var g, k := RowsLocate(groups, h, i);
      FlattenAt(groups, g, k, h);
    }
    var rows, picked := Cards(Rows(sorted, groups, h)), Cards(Pick(sorted, f));
    forall i | 0 <= i < |f| ensures rows[i] == picked[i] {
      var g, k := RowsLocate(groups, h, i);
      FlattenAt(groups, g, k, h);
      RowsAt(sorted, groups, g, k, h);
    }
  }

  /** The flattened groups list no position twice ... */
  lemma {:induction false} FlattenDistinct(groups: seq<seq<nat>>, h: nat)
    requires Increasing(groups) && Disjoint(groups) && h <= |groups|
    ensures Distinct(Flatten(groups, h))
  {
    if h > 0 {
      FlattenDistinct(groups, h - 1);
      var f := Flatten(groups, h);
      forall i, j | 0 <= i < j < |f| ensures f[i] != f[j] {
        var gi, ki := RowsLocate(groups, h, i);
        var gj, kj := RowsLocate(groups, h, j);
        FlattenAt(groups, gi, ki, h);
        FlattenAt(groups, gj, kj, h);
        if gi != gj {
          // Disjoint
        } else if ki == kj {
          assert false;
        }
      }
    }
  }

  /** ... and every one of them appears. */
  lemma FlattenCovers(groups: seq<seq<nat>>, n: nat)
    requires InRange(groups, n) && Covers(groups, n)
    ensures forall i :: 0 <= i < |Flatten(groups, |groups|)| ==> Flatten(groups, |groups|)[i] < n
    ensures forall x :: 0 <= x < n ==> x in Flatten(groups, |groups|)
  {
    var f := Flatten(groups, |groups|);
    forall i | 0 <= i < |f| ensures f[i] < n {
      var g, k := RowsLocate(groups, |groups|, i);
      FlattenAt(groups, g, k, |groups|);
    }
    forall x | 0 <= x < n ensures x in f {
      assert InSomeGroup(groups, x);
      var g, k :| 0 <= g < |groups| && 0 <= k < |groups[g]| && groups[g][k] == x;
      FlattenAt(groups, g, k, |groups|);
    }
  }

  /** Groups that list every position once show every card once. */
  lemma RowsKeepCards(sorted: seq<ClassWithPosition>, groups: seq<seq<nat>>)
    requires InRange(groups, |sorted|) && Increasing(groups) && Disjoint(groups) && Covers(groups, |sorted|)
    ensures |Rows(sorted, groups, |groups|)| == |sorted|
    ensures multiset(Cards(Rows(sorted, groups, |groups|))) == multiset(Cards(sorted))
  {
    var f := Flatten(groups, |groups|);
    RowsCards(sorted, groups, |groups|);
    FlattenDistinct(groups, |groups|);
    FlattenCovers(groups, |sorted|);
    PickAllPermutes(sorted, f);
    CardsPermutation(Pick(sorted, f), sorted);
  }

  /** The result shows every input class once, unchanged apart from its column. */
  lemma PositionKeepsCards(xs: seq<ClassWithPosition>)
    ensures |PositionLayout(xs)| == |xs|
    ensures multiset(Cards(PositionLayout(xs))) == multiset(Cards(xs))
  {
    DayGroupsWellFormed(xs);
    RowsKeepCards(SortByStart(xs), DayGroups(xs));
    CardsPermutation(SortByStart(xs), xs);
  }

  // ---------------------------------------------------------------------------
  // Columns

  /** Every card's column is its index in its group and its count is the group's size. */
  lemma PositionColumnsAt(xs: seq<ClassWithPosition>, i: nat) returns (g: nat, k: nat)
    requires i < |PositionLayout(xs)|
    ensures g < |DayGroups(xs)| && k < |DayGroups(xs)[g]|
    ensures i == Start(DayGroups(xs), g) + k
    ensures PositionLayout(xs)[i] == Positioned(SortByStart(xs)[DayGroups(xs)[g][k]], k, |DayGroups(xs)[g]|)
    ensures 0 <= PositionLayout(xs)[i].offsetIndex < PositionLayout(xs)[i].totalOverlaps
  {
    var groups := DayGroups(xs);
    g, k := RowsLocate(groups, |groups|, i);
    RowsAt(SortByStart(xs), groups, g, k, |groups|);
  }

  /** Classes whose times strictly overlap are drawn side by side. Unlike the greedy
    * columns, two members of one group never share a column even when they do not overlap. */
  lemma PositionNoCollision(xs: seq<ClassWithPosition>, i: nat, j: nat)
    requires i < j < |PositionLayout(xs)|
    requires Overlaps(PositionLayout(xs)[i].timeSlot, PositionLayout(xs)[j].timeSlot)
    ensures Geometry.SideBySide(PositionLayout(xs)[i], PositionLayout(xs)[j])
  {
    var sorted := SortByStart(xs);
    var slots := SlotsOf(sorted);
    var groups := DayGroups(xs);
    var r := PositionLayout(xs);
    var gi, ki := PositionColumnsAt(xs, i);
    var gj, kj := PositionColumnsAt(xs, j);
    DayGroupsWellFormed(xs);
    FlattenDistinct(groups, |groups|);
    FlattenAt(groups, gi, ki, |groups|);
    FlattenAt(groups, gj, kj, |groups|);
    var p, q := groups[gi][ki], groups[gj][kj];
    assert p != q;
    if p < q {
      OverlappingShareGroup(slots, groups, gi, ki, gj, kj);
    } else {
      OverlappingShareGroup(slots, groups, gj, kj, gi, ki);
    }
    Geometry.DistinctColumnsSideBySide(r[i], r[j]);
  }
}
