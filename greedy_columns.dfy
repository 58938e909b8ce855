/**
 * `detectOverlaps` of ClassesManagement: first-match groups, then inside each
 * group greedy interval colouring. A class takes the lowest column not held by
 * an earlier member of its group that is still running when it starts, and
 * every member of a group gets `totalOverlaps = 1 + max column`.
 */
module GreedyColumns {
  import opened Intervals
  import opened Timetable
  import opened OverlapGroups
  import StableSort
  import Geometry

  // ---------------------------------------------------------------------------
  // The lowest free column

  /** The set of columns from `c` on that `used` holds; it shrinks as `c` passes one. */
  function UsedFrom(used: set<int>, c: int): set<int>
  {
    set x | x in used && x >= c
  }

  lemma UsedFromShrinks(used: set<int>, c: int)
    requires c in used
    ensures |UsedFrom(used, c + 1)| < |UsedFrom(used, c)|
  {
    assert UsedFrom(used, c) == UsedFrom(used, c + 1) + {c};
  }

  /** The loop `while (usedOffsets.includes(offsetIndex)) offsetIndex++` started at `c`. */
  function MexFrom(used: set<int>, c: nat): (r: nat)
    ensures c <= r && r !in used
    ensures forall d :: c <= d < r ==> d in used
    decreases |UsedFrom(used, c)|
  {
    if c in used then
      UsedFromShrinks(used, c);
      MexFrom(used, c + 1)
    else c
  }

  /** The smallest non-negative column not in `used`. */
  function Mex(used: set<int>): (r: nat)
    ensures r !in used
    ensures forall d :: 0 <= d < r ==> d in used
  {
    MexFrom(used, 0)
  }

  /** The columns 0 .. m-1. */
  function Below(m: nat): (r: set<int>)
    ensures forall d :: d in r <==> 0 <= d < m
    ensures |r| == m
  {
    if m == 0 then {} else Below(m - 1) + {m - 1}
  }

  /** Below the lowest free column every column is taken, so there are at least that many. */
  lemma MexAtMostSize(used: set<int>)
    ensures Mex(used) <= |used|
  {
    var m := Mex(used);
    assert Below(m) <= used;
    SubsetCard(Below(m), used);
  }

  lemma SubsetCard(a: set<int>, b: set<int>)
    requires a <= b
    ensures |a| <= |b|
  {
    assert b == a + (b - a);
    assert a * (b - a) == {};
  }

  // ---------------------------------------------------------------------------
  // Columns inside one group

  predicate MembersIn(slots: seq<TimeSlot>, gs: seq<nat>)
  {
    forall i :: 0 <= i < |gs| ==> gs[i] < |slots|
  }

  /** The columns of the earlier members whose class is still running when member `k` starts:
    * `prevClass.timeSlot.end > classItem.timeSlot.start`. */
  function UsedColumns(slots: seq<TimeSlot>, gs: seq<nat>, cols: seq<nat>, k: nat): set<int>
    requires MembersIn(slots, gs) && k < |gs| && k <= |cols|
  {
    set i | 0 <= i < k && slots[gs[i]].end > slots[gs[k]].start :: cols[i]
  }

  /** The columns `groupSorted.forEach` assigns, member by member. */
  function ColumnsOf(slots: seq<TimeSlot>, gs: seq<nat>): (r: seq<nat>)
    requires MembersIn(slots, gs)
    ensures |r| == |gs|
  {
    if |gs| == 0 then []
    else
      var prev := ColumnsOf(slots, gs[..|gs| - 1]);
      prev + [Mex(UsedColumns(slots, gs, prev, |gs| - 1))]
  }

  lemma UsedColumnsAgree(slots: seq<TimeSlot>, gs: seq<nat>, gs': seq<nat>, cols: seq<nat>, cols': seq<nat>, k: nat)
    requires MembersIn(slots, gs) && MembersIn(slots, gs')
    requires k < |gs| && k < |gs'| && k <= |cols| && k <= |cols'|
    requires gs[..k + 1] == gs'[..k + 1] && cols[..k] == cols'[..k]
    ensures UsedColumns(slots, gs, cols, k) == UsedColumns(slots, gs', cols', k)
  {
    assert forall i :: 0 <= i <= k ==> gs[i] == gs'[..k + 1][i];
    assert forall i :: 0 <= i < k ==> cols[i] == cols'[..k][i];
  }

  lemma {:induction false} ColumnsPrefix(slots: seq<TimeSlot>, gs: seq<nat>, k: nat)
    requires MembersIn(slots, gs) && k <= |gs|
    ensures ColumnsOf(slots, gs[..k]) == ColumnsOf(slots, gs)[..k]
    decreases |gs|
  {
    if k < |gs| {
      var gs' := gs[..|gs| - 1];
      assert gs[..k] == gs'[..k];
      ColumnsPrefix(slots, gs', k);
    } else {
      assert gs[..k] == gs;
    }
  }

  /** The column rule: member `k` takes the lowest column that no earlier, still-running
    * member holds. */
  lemma ColumnRule(slots: seq<TimeSlot>, gs: seq<nat>, k: nat)
    requires MembersIn(slots, gs) && k < |gs|
    ensures ColumnsOf(slots, gs)[k] == Mex(UsedColumns(slots, gs, ColumnsOf(slots, gs), k))
    ensures ColumnsOf(slots, gs)[k] !in UsedColumns(slots, gs, ColumnsOf(slots, gs), k)
    ensures forall c :: 0 <= c < ColumnsOf(slots, gs)[k] ==> c in UsedColumns(slots, gs, ColumnsOf(slots, gs), k)
  {
    var cols := ColumnsOf(slots, gs);
    var pre := gs[..k + 1];
    ColumnsPrefix(slots, gs, k + 1);
    ColumnsPrefix(slots, gs, k);
    assert pre[..k] == gs[..k];
    assert ColumnsOf(slots, pre) == ColumnsOf(slots, gs[..k]) + [Mex(UsedColumns(slots, pre, ColumnsOf(slots, gs[..k]), k))];
    UsedColumnsAgree(slots, pre, gs, ColumnsOf(slots, gs[..k]), cols, k);
  }

  /** No column is higher than the number of members before it. */
  lemma ColumnAtMostIndex(slots: seq<TimeSlot>, gs: seq<nat>, k: nat)
    requires MembersIn(slots, gs) && k < |gs|
    ensures ColumnsOf(slots, gs)[k] <= k
  {
    var cols := ColumnsOf(slots, gs);
    var used := UsedColumns(slots, gs, cols, k);
    ColumnRule(slots, gs, k);
    MexAtMostSize(used);
    ImageCard(cols, k, used);
  }

  /** The columns of at most `k` earlier members are at most `k` columns. */
  lemma ImageCard(cols: seq<nat>, k: nat, used: set<int>)
    requires k <= |cols|
    requires forall c :: c in used ==> exists i :: 0 <= i < k && cols[i] == c
    ensures |used| <= k
  {
    var all := set i | 0 <= i < k :: cols[i];
    forall c | c in used ensures c in all {
      var i :| 0 <= i < k && cols[i] == c;
    }
    SubsetCard(used, all);
    PrefixImageCard(cols, k);
  }

  lemma {:induction false} PrefixImageCard(cols: seq<nat>, k: nat)
    requires k <= |cols|
    ensures |set i | 0 <= i < k :: cols[i]| <= k
  {
    if k > 0 {
      PrefixImageCard(cols, k - 1);
      assert (set i | 0 <= i < k :: cols[i]) == (set i | 0 <= i < k - 1 :: cols[i]) + {cols[k - 1]};
    }
  }

  /** Two members of a group in the same column never strictly overlap, whatever their
    * slots (intervals with `end <= start` included) and in whatever order they come. */
  lemma SameColumnNoOverlap(slots: seq<TimeSlot>, gs: seq<nat>, i: nat, k: nat)
    requires MembersIn(slots, gs) && i < k < |gs|
    requires ColumnsOf(slots, gs)[i] == ColumnsOf(slots, gs)[k]
    ensures !Overlaps(slots[gs[i]], slots[gs[k]])
    ensures !Overlaps(slots[gs[k]], slots[gs[i]])
  {
    ColumnRule(slots, gs, k);
  }

  // ---------------------------------------------------------------------------
  // Column counts

  /** `Math.max(...values, 0)`. */
  function MaxOf(values: seq<int>): (r: int)
    ensures r >= 0
    ensures forall i :: 0 <= i < |values| ==> values[i] <= r
    ensures r == 0 || exists i :: 0 <= i < |values| && values[i] == r
  {
    if |values| == 0 then 0
    else
      var m := MaxOf(values[..|values| - 1]);
      assert forall i :: 0 <= i < |values| - 1 ==> values[..|values| - 1][i] == values[i];
      if values[|values| - 1] > m then values[|values| - 1] else m
  }

  /** `totalOverlaps` of a group: one more than its highest column. */
  function TotalOf(slots: seq<TimeSlot>, gs: seq<nat>): int
    requires MembersIn(slots, gs)
  {
    MaxOf(ColumnsOf(slots, gs)) + 1
  }

  /** Every column is below the group's total, and the total is at most the group size. */
  lemma TotalBounds(slots: seq<TimeSlot>, gs: seq<nat>)
    requires MembersIn(slots, gs) && |gs| > 0
    ensures forall k :: 0 <= k < |gs| ==> ColumnsOf(slots, gs)[k] < TotalOf(slots, gs)
    ensures 1 <= TotalOf(slots, gs) <= |gs|
  {
    var cols := ColumnsOf(slots, gs);
    forall k | 0 <= k < |gs| ensures cols[k] <= |gs| - 1 {
      ColumnAtMostIndex(slots, gs, k);
    }
  }

  // ---------------------------------------------------------------------------
  // Writing the columns back onto the cards

  /** `values[k]` stored at `positions[k]`, for each k in turn. */
  function Write(cells: seq<int>, positions: seq<nat>, values: seq<int>): (r: seq<int>)
    requires |positions| == |values|
    requires forall k :: 0 <= k < |positions| ==> positions[k] < |cells|
    ensures |r| == |cells|
  {
    if |positions| == 0 then cells
    else
      var n := |positions| - 1;
      Write(cells, positions[..n], values[..n])[positions[n] := values[n]]
  }

  lemma {:induction false} WriteAt(cells: seq<int>, positions: seq<nat>, values: seq<int>, k: nat)
    requires |positions| == |values|
    requires forall k :: 0 <= k < |positions| ==> positions[k] < |cells|
    requires forall a, b :: 0 <= a < b < |positions| ==> positions[a] < positions[b]
    requires k < |positions|
    ensures Write(cells, positions, values)[positions[k]] == values[k]
  {
    var n := |positions| - 1;
    if k < n {
      WriteAt(cells, positions[..n], values[..n], k);
    }
  }

  lemma {:induction false} WriteElsewhere(cells: seq<int>, positions: seq<nat>, values: seq<int>, p: nat)
    requires |positions| == |values|
    requires forall k :: 0 <= k < |positions| ==> positions[k] < |cells|
    requires forall k :: 0 <= k < |positions| ==> positions[k] != p
    requires p < |cells|
    ensures Write(cells, positions, values)[p] == cells[p]
  {
    if |positions| > 0 {
      var n := |positions| - 1;
      WriteElsewhere(cells, positions[..n], values[..n], p);
    }
  }

  function Repeat(v: int, n: nat): (r: seq<int>)
    ensures |r| == n && forall i :: 0 <= i < n ==> r[i] == v
  {
    seq(n, i => v)
  }

  /** One row of values per group, one value per member. */
  predicate TableFits(groups: seq<seq<nat>>, table: seq<seq<int>>)
  {
    |table| == |groups| && forall g :: 0 <= g < |groups| ==> |table[g]| == |groups[g]|
  }

  /** The cells after the rows of the first `g` groups have been stored at their members. */
  function WriteGroups(cells: seq<int>, groups: seq<seq<nat>>, table: seq<seq<int>>, g: nat): (r: seq<int>)
    requires InRange(groups, |cells|) && TableFits(groups, table) && g <= |groups|
    ensures |r| == |cells|
  {
    if g == 0 then cells
    else Write(WriteGroups(cells, groups, table, g - 1), groups[g - 1], table[g - 1])
  }

  lemma WriteGroupsNext(cells: seq<int>, groups: seq<seq<nat>>, table: seq<seq<int>>, g: nat, before: seq<int>, after: seq<int>)
    requires InRange(groups, |cells|) && TableFits(groups, table) && g < |groups|
    requires before == WriteGroups(cells, groups, table, g)
    requires after == Write(before, groups[g], table[g])
    ensures after == WriteGroups(cells, groups, table, g + 1)
  {
  }

  /** The columns of every group. */
  function ColumnTable(slots: seq<TimeSlot>, groups: seq<seq<nat>>): (r: seq<seq<int>>)
    requires InRange(groups, |slots|)
    ensures TableFits(groups, r)
  {
    seq(|groups|, g requires 0 <= g < |groups| => assert MembersIn(slots, groups[g]); ColumnsOf(slots, groups[g]))
  }

  /** The count of every group, repeated for each member. */
  function TotalTable(slots: seq<TimeSlot>, groups: seq<seq<nat>>): (r: seq<seq<int>>)
    requires InRange(groups, |slots|)
    ensures TableFits(groups, r)
  {
    seq(|groups|, g requires 0 <= g < |groups| => assert MembersIn(slots, groups[g]); Repeat(TotalOf(slots, groups[g]), |groups[g]|))
  }

  /** The rows of group `g`. */
  lemma TableRows(slots: seq<TimeSlot>, groups: seq<seq<nat>>, g: nat)
    requires InRange(groups, |slots|) && g < |groups|
    ensures MembersIn(slots, groups[g])
    ensures ColumnTable(slots, groups)[g] == ColumnsOf(slots, groups[g])
    ensures TotalTable(slots, groups)[g] == Repeat(TotalOf(slots, groups[g]), |groups[g]|)
  {
  }

  function OffsetCells(xs: seq<ClassWithPosition>): (r: seq<int>)
    ensures |r| == |xs| && forall i :: 0 <= i < |xs| ==> r[i] == xs[i].offsetIndex
  {
    seq(|xs|, i requires 0 <= i < |xs| => xs[i].offsetIndex)
  }

  function TotalCells(xs: seq<ClassWithPosition>): (r: seq<int>)
    ensures |r| == |xs| && forall i :: 0 <= i < |xs| ==> r[i] == xs[i].totalOverlaps
  {
    seq(|xs|, i requires 0 <= i < |xs| => xs[i].totalOverlaps)
  }

  /** What `detectOverlaps` returns: the sorted cards, with the columns and counts that
    * the loops store into the shared card objects. */
  function GreedyLayout(xs: seq<ClassWithPosition>): (r: seq<ClassWithPosition>)
    ensures |r| == |xs|
  {
    var sorted := SortByStart(xs);
    var slots := SlotsOf(sorted);
    var groups := DayGroups(xs);
    var offsets := WriteGroups(OffsetCells(sorted), groups, ColumnTable(slots, groups), |groups|);
    var totals := WriteGroups(TotalCells(sorted), groups, TotalTable(slots, groups), |groups|);
    seq(|sorted|, p requires 0 <= p < |sorted| => Positioned(sorted[p], offsets[p], totals[p]))
  }

  // ---------------------------------------------------------------------------
  // What the layout promises

  /** Each member's cell ends up holding its own entry of its group's row. */
  lemma {:induction false} WriteGroupsAt(cells: seq<int>, groups: seq<seq<nat>>, table: seq<seq<int>>, g: nat, k: nat, h: nat)
    requires InRange(groups, |cells|) && Increasing(groups) && Disjoint(groups) && TableFits(groups, table)
    requires g < h <= |groups| && k < |groups[g]|
    ensures WriteGroups(cells, groups, table, h)[groups[g][k]] == table[g][k]
  {
    var gs := groups[h - 1];
    var before := WriteGroups(cells, groups, table, h - 1);
    if h - 1 == g {
      WriteAt(before, gs, table[h - 1], k);
    } else {
      WriteGroupsAt(cells, groups, table, g, k, h - 1);
      assert forall j :: 0 <= j < |gs| ==> gs[j] != groups[g][k];
      WriteElsewhere(before, gs, table[h - 1], groups[g][k]);
    }
  }

  /** The card at sorted position `groups[g][k]` gets member `k`'s column and its group's total. */
  lemma LayoutAt(xs: seq<ClassWithPosition>, g: nat, k: nat)
    requires g < |DayGroups(xs)| && k < |DayGroups(xs)[g]|
    ensures var groups := DayGroups(xs);
      var slots := SlotsOf(SortByStart(xs));
      var p := groups[g][k];
      p < |xs| && MembersIn(slots, groups[g]) &&
      GreedyLayout(xs)[p] == Positioned(SortByStart(xs)[p], ColumnsOf(slots, groups[g])[k], TotalOf(slots, groups[g]))
  {
    var sorted := SortByStart(xs);
    var slots := SlotsOf(sorted);
    var groups := DayGroups(xs);
    DayGroupsWellFormed(xs);
    WriteGroupsAt(OffsetCells(sorted), groups, ColumnTable(slots, groups), g, k, |groups|);
    WriteGroupsAt(TotalCells(sorted), groups, TotalTable(slots, groups), g, k, |groups|);
    TableRows(slots, groups, g);
  }

  /** The result lists the same cards as the stable sort by start time, so it is a
    * permutation of the input, sorted by start, with equal starts in input order. */
  lemma GreedyKeepsCards(xs: seq<ClassWithPosition>)
    ensures Cards(GreedyLayout(xs)) == Cards(SortByStart(xs))
    ensures multiset(Cards(GreedyLayout(xs))) == multiset(Cards(xs))
    ensures SortedByStart(SlotsOf(GreedyLayout(xs)))
  {
    GreedySameCards(xs);
    CardsPermutation(SortByStart(xs), xs);
  }

  lemma GreedySameCards(xs: seq<ClassWithPosition>)
    ensures Cards(GreedyLayout(xs)) == Cards(SortByStart(xs))
    ensures SlotsOf(GreedyLayout(xs)) == SlotsOf(SortByStart(xs))
  {
    var r, sorted := GreedyLayout(xs), SortByStart(xs);
    assert forall i :: 0 <= i < |r| ==> CardOf(r[i]) == CardOf(sorted[i]);
  }

  /** Every card's column is below its count, and the count is at most the size of its group. */
  lemma GreedyBounds(xs: seq<ClassWithPosition>, g: nat, k: nat)
    requires g < |DayGroups(xs)| && k < |DayGroups(xs)[g]|
    ensures var r := GreedyLayout(xs)[DayGroups(xs)[g][k]];
      0 <= r.offsetIndex < r.totalOverlaps <= |DayGroups(xs)[g]|
  {
    LayoutAt(xs, g, k);
    TotalBounds(SlotsOf(SortByStart(xs)), DayGroups(xs)[g]);
  }

  /** Classes whose times strictly overlap are drawn side by side: their horizontal bands
    * do not meet. */
  lemma GreedyNoCollision(xs: seq<ClassWithPosition>, p: nat, q: nat)
    requires p < q < |xs|
    requires Overlaps(GreedyLayout(xs)[p].timeSlot, GreedyLayout(xs)[q].timeSlot)
    ensures Geometry.SideBySide(GreedyLayout(xs)[p], GreedyLayout(xs)[q])
  {
    var sorted := SortByStart(xs);
    var slots := SlotsOf(sorted);
    var groups := DayGroups(xs);
    DayGroupsWellFormed(xs);
    var r := GreedyLayout(xs);
    var gp, kp := Locate(slots, groups, p);
    var gq, kq := Locate(slots, groups, q);
    LayoutAt(xs, gp, kp);
    LayoutAt(xs, gq, kq);
    OverlappingShareGroup(slots, groups, gp, kp, gq, kq);
    var gs := groups[gp];
    if ColumnsOf(slots, gs)[kp] == ColumnsOf(slots, gs)[kq] {
      SameColumnNoOverlap(slots, gs, kp, kq);
      assert false;
    }
    TotalBounds(slots, gs);
    Geometry.DistinctColumnsSideBySide(r[p], r[q]);
  }

  // ---------------------------------------------------------------------------
  // The loops

  /** The comparator key of `groupSorted`: a member's start time. */
  function StartKey(slots: seq<TimeSlot>): nat -> int
  {
    (p: nat) => if p < |slots| then slots[p].start else 0
  }

  /** A group is already in start order, so sorting it again changes nothing. */
  lemma GroupAlreadySorted(slots: seq<TimeSlot>, groups: seq<seq<nat>>, g: nat)
    requires SortedByStart(slots) && InRange(groups, |slots|) && Increasing(groups) && g < |groups|
    ensures StableSort.Sort<nat>(groups[g], StartKey(slots)) == groups[g]
  {
    var gs, key := groups[g], StartKey(slots);
    forall i, j | 0 <= i < j < |gs| ensures key(gs[i]) <= key(gs[j]) {
      assert gs[i] < gs[j] < |slots|;
    }
    StableSort.SortOfSorted<nat>(gs, key);
  }

  lemma WriteStep(cells: seq<int>, positions: seq<nat>, values: seq<int>, k: nat)
    requires |positions| == |values| && k < |positions|
    requires forall j :: 0 <= j < |positions| ==> positions[j] < |cells|
    ensures Write(cells, positions[..k + 1], values[..k + 1]) == Write(cells, positions[..k], values[..k])[positions[k] := values[k]]
  {
    var ps, vs := positions[..k + 1], values[..k + 1];
    assert ps[..k] == positions[..k] && ps[k] == positions[k];
    assert vs[..k] == values[..k] && vs[k] == values[k];
    assert forall j :: 0 <= j < |ps| ==> ps[j] < |cells|;
    assert Write(cells, ps, vs) == Write(cells, ps[..k], vs[..k])[ps[k] := vs[k]];
  }

  /** `groupSorted.forEach((classItem, index) => ...)`: each member in turn collects the
    * columns of the earlier members still running at its start and takes the first free one. */
  method AssignColumns(slots: seq<TimeSlot>, gs: seq<nat>, offsets: array<int>)
    requires offsets.Length == |slots| && MembersIn(slots, gs)
    requires forall a, b :: 0 <= a < b < |gs| ==> gs[a] < gs[b]
    modifies offsets
    ensures offsets[..] == Write(old(offsets[..]), gs, ColumnsOf(slots, gs))
  {
    ghost var cols := ColumnsOf(slots, gs);
    var index := 0;
    while index < |gs|
      invariant 0 <= index <= |gs|
      invariant offsets[..] == Write(old(offsets[..]), gs[..index], cols[..index])
      invariant forall j :: 0 <= j < index ==> offsets[gs[j]] == cols[j]
    {
      var usedOffsets := UsedOffsets(slots, gs, index, offsets);
      var offsetIndex := FirstFree(usedOffsets);
      ColumnRule(slots, gs, index);
      FirstFreeUnique(usedOffsets, UsedColumns(slots, gs, cols, index), offsetIndex, cols[index]);
      WriteStep(old(offsets[..]), gs, cols, index);
      offsets[gs[index]] := offsetIndex;
      index := index + 1;
    }
    assert gs[..index] == gs && cols[..index] == cols;
  }

  /** `const overlapping = groupSorted.slice(0, index).filter(prev => prev.timeSlot.end >
    * classItem.timeSlot.start)` and `const usedOffsets = overlapping.map(c => c.offsetIndex)`. */
  method UsedOffsets(slots: seq<TimeSlot>, gs: seq<nat>, index: nat, offsets: array<int>) returns (usedOffsets: seq<int>)
    requires offsets.Length == |slots| && MembersIn(slots, gs) && index < |gs|
    requires forall j :: 0 <= j < index ==> offsets[gs[j]] == ColumnsOf(slots, gs)[j]
    ensures forall c :: c in usedOffsets <==> c in UsedColumns(slots, gs, ColumnsOf(slots, gs), index)
  {
    var cur := gs[index];
    var overlapping: seq<nat> := [];
    // which earlier member each entry of `overlapping` is
    ghost var earlier: seq<nat> := [];
    var i := 0;
    while i < index
      invariant 0 <= i <= index
      invariant |earlier| == |overlapping|
      invariant forall t :: 0 <= t < |earlier| ==>
        earlier[t] < i && slots[gs[earlier[t]]].end > slots[cur].start && overlapping[t] == gs[earlier[t]]
      invariant forall j :: 0 <= j < i && slots[gs[j]].end > slots[cur].start ==> j in earlier
    {
      var prev := gs[i];
      if slots[prev].end > slots[cur].start {
        overlapping := overlapping + [prev];
        earlier := earlier + [i];
      }
      i := i + 1;
    }
    usedOffsets := seq(|overlapping|, t requires 0 <= t < |overlapping| reads offsets => offsets[overlapping[t]]);
    UsedOffsetsAreUsedColumns(slots, gs, ColumnsOf(slots, gs), index, earlier, usedOffsets);
  }

  /** `let offsetIndex = 0; while (usedOffsets.includes(offsetIndex)) offsetIndex++`. */
  method FirstFree(usedOffsets: seq<int>) returns (offsetIndex: nat)
    ensures offsetIndex !in usedOffsets
    ensures forall d :: 0 <= d < offsetIndex ==> d in usedOffsets
  {
    ghost var used := set c | c in usedOffsets;
    offsetIndex := 0;
    while offsetIndex in usedOffsets
      invariant forall d :: 0 <= d < offsetIndex ==> d in usedOffsets
      decreases |UsedFrom(used, offsetIndex)|
    {
      UsedFromShrinks(used, offsetIndex);
      offsetIndex := offsetIndex + 1;
    }
  }

  /** The first free column is determined by the set of used ones. */
  lemma FirstFreeUnique(usedOffsets: seq<int>, used: set<int>, a: nat, b: nat)
    requires forall c :: c in usedOffsets <==> c in used
    requires a !in usedOffsets && forall d :: 0 <= d < a ==> d in usedOffsets
    requires b !in used && forall d :: 0 <= d < b ==> d in used
    ensures a == b
  {
  }

  /** The columns gathered from the earlier overlapping members are the used columns. */
  lemma UsedOffsetsAreUsedColumns(slots: seq<TimeSlot>, gs: seq<nat>, cols: seq<nat>, k: nat, earlier: seq<nat>, usedOffsets: seq<int>)
    requires MembersIn(slots, gs) && k < |gs| && |cols| == |gs|
    requires |earlier| == |usedOffsets|
    requires forall t :: 0 <= t < |earlier| ==>
      earlier[t] < k && slots[gs[earlier[t]]].end > slots[gs[k]].start && usedOffsets[t] == cols[earlier[t]]
    requires forall j :: 0 <= j < k && slots[gs[j]].end > slots[gs[k]].start ==> j in earlier
    ensures forall c :: c in usedOffsets <==> c in UsedColumns(slots, gs, cols, k)
  {
    var used := UsedColumns(slots, gs, cols, k);
    forall c | c in usedOffsets ensures c in used {
      var t :| 0 <= t < |usedOffsets| && usedOffsets[t] == c;
      var j := earlier[t];
      assert 0 <= j < k && slots[gs[j]].end > slots[gs[k]].start && cols[j] == c;
    }
    forall c | c in used ensures c in usedOffsets {
      var j :| 0 <= j < k && slots[gs[j]].end > slots[gs[k]].start && cols[j] == c;
      var t :| 0 <= t < |earlier| && earlier[t] == j;
      assert usedOffsets[t] == c;
    }
  }

  /** The first half of one group's turn: sort it by start and assign its columns. */
  method GroupColumns(slots: seq<TimeSlot>, group: seq<nat>, offsets: array<int>)
    requires offsets.Length == |slots| && MembersIn(slots, group) && SortedByStart(slots)
    requires forall a, b :: 0 <= a < b < |group| ==> group[a] < group[b]
    modifies offsets
    ensures offsets[..] == Write(old(offsets[..]), group, ColumnsOf(slots, group))
    ensures forall k :: 0 <= k < |group| ==> offsets[group[k]] == ColumnsOf(slots, group)[k]
  {
    var groupSorted := StableSort.Sort<nat>(group, StartKey(slots));
    GroupAlreadySorted(slots, [group], 0);
    AssignColumns(slots, groupSorted, offsets);
    forall k | 0 <= k < |group| ensures offsets[group[k]] == ColumnsOf(slots, group)[k] {
      WriteAt(old(offsets[..]), group, ColumnsOf(slots, group), k);
    }
  }

  /** The second half: `Math.max(...group.map(c => c.offsetIndex)) + 1` stored at every member. */
  method GroupTotal(slots: seq<TimeSlot>, group: seq<nat>, offsets: array<int>, totals: array<int>)
    requires offsets.Length == |slots| && totals.Length == |slots| && MembersIn(slots, group)
    requires forall k :: 0 <= k < |group| ==> offsets[group[k]] == ColumnsOf(slots, group)[k]
    modifies totals
    ensures totals[..] == Write(old(totals[..]), group, Repeat(TotalOf(slots, group), |group|))
  {
    var groupOffsets := seq(|group|, k requires 0 <= k < |group| reads offsets => offsets[group[k]]);
    assert groupOffsets == ColumnsOf(slots, group);
    var totalOverlaps := MaxOf(groupOffsets) + 1;
    AssignTotal(group, totalOverlaps, totals);
  }

  /** `group.forEach(classItem => classItem.totalOverlaps = totalOverlaps)`. */
  method AssignTotal(gs: seq<nat>, total: int, totals: array<int>)
    requires forall k :: 0 <= k < |gs| ==> gs[k] < totals.Length
    modifies totals
    ensures totals[..] == Write(old(totals[..]), gs, Repeat(total, |gs|))
  {
    ghost var values := Repeat(total, |gs|);
    var k := 0;
    while k < |gs|
      invariant 0 <= k <= |gs|
      invariant totals[..] == Write(old(totals[..]), gs[..k], values[..k])
    {
      WriteStep(old(totals[..]), gs, values, k);
      totals[gs[k]] := total;
      k := k + 1;
    }
    assert gs[..k] == gs && values[..k] == values;
  }

  /** `overlapGroups.forEach(group => ...)`. */
  method PlaceGroups(slots: seq<TimeSlot>, groups: seq<seq<nat>>, offsets: array<int>, totals: array<int>)
    requires offsets != totals && offsets.Length == |slots| && totals.Length == |slots|
    requires InRange(groups, |slots|) && Increasing(groups) && SortedByStart(slots)
    modifies offsets, totals
    ensures offsets[..] == WriteGroups(old(offsets[..]), groups, ColumnTable(slots, groups), |groups|)
    ensures totals[..] == WriteGroups(old(totals[..]), groups, TotalTable(slots, groups), |groups|)
  {
    ghost var offsets0, totals0 := offsets[..], totals[..];
    ghost var columnTable, totalTable := ColumnTable(slots, groups), TotalTable(slots, groups);
    var g := 0;
    while g < |groups|
      invariant 0 <= g <= |groups|
      invariant offsets[..] == WriteGroups(offsets0, groups, columnTable, g)
      invariant totals[..] == WriteGroups(totals0, groups, totalTable, g)
    {
      TableRows(slots, groups, g);
      ghost var o, t := offsets[..], totals[..];
      GroupColumns(slots, groups[g], offsets);
      GroupTotal(slots, groups[g], offsets, totals);
      WriteGroupsNext(offsets0, groups, columnTable, g, o, offsets[..]);
      WriteGroupsNext(totals0, groups, totalTable, g, t, totals[..]);
      g := g + 1;
    }
  }

  /** `detectOverlaps` of ClassesManagement. The card objects are shared between `sorted`
    * and the groups; a card is its position in `sorted`, and its two mutable fields are
    * its cells of `offsets` and `totals`. */
  method DetectOverlapsGreedy(dayClasses: seq<ClassWithPosition>) returns (r: seq<ClassWithPosition>)
    ensures r == GreedyLayout(dayClasses)
  {
    var sorted := SortByStart(dayClasses);
    var slots := SlotsOf(sorted);
    var overlapGroups := BuildGroups(slots);
    GroupsFit(slots);
    var offsets := new int[|sorted|](p requires 0 <= p < |sorted| => sorted[p].offsetIndex);
    var totals := new int[|sorted|](p requires 0 <= p < |sorted| => sorted[p].totalOverlaps);
    ghost var offsets0, totals0 := offsets[..], totals[..];
    PlaceGroups(slots, overlapGroups, offsets, totals);
    r := seq(|sorted|, p requires 0 <= p < |sorted| reads offsets, totals => Positioned(sorted[p], offsets[p], totals[p]));
    LayoutFromCells(dayClasses, offsets0, totals0, offsets[..], totals[..], r);
  }

  /** What the loops need of the groups. */
  lemma GroupsFit(slots: seq<TimeSlot>)
    ensures InRange(GroupsOf(slots, |slots|), |slots|) && Increasing(GroupsOf(slots, |slots|))
  {
    GroupsWellFormed(slots, |slots|);
  }

  /** The result assembled from the final cells is the layout. */
  lemma LayoutFromCells(xs: seq<ClassWithPosition>, offsets0: seq<int>, totals0: seq<int>, offsets: seq<int>, totals: seq<int>, r: seq<ClassWithPosition>)
    requires var slots := SlotsOf(SortByStart(xs));
      var groups := GroupsOf(slots, |slots|);
      InRange(groups, |slots|) && |offsets0| == |totals0| == |xs| &&
      offsets == WriteGroups(offsets0, groups, ColumnTable(slots, groups), |groups|) &&
      totals == WriteGroups(totals0, groups, TotalTable(slots, groups), |groups|)
    requires offsets0 == OffsetCells(SortByStart(xs)) && totals0 == TotalCells(SortByStart(xs))
    requires |r| == |xs| && forall p :: 0 <= p < |r| ==> r[p] == Positioned(SortByStart(xs)[p], offsets[p], totals[p])
    ensures r == GreedyLayout(xs)
  {
  }
}
