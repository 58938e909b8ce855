/** The records the timetable works on: a class as the API returns it, and the
  * `ClassWithPosition` card the layout computes from it. */
module Timetable {
  import opened Common
  import opened Intervals
  import opened SubjectColor
  import StableSort
  import OverlapGroups
  import Sequences

  /** The frontend `Class`; every optional column may be missing. */
  datatype ClassRecord = ClassRecord(
    id: int,
    name: string,
    subject: Option<string>,
    dayOfWeek: Option<string>,
    timeSlot: Option<string>,
    teacherName: Option<string>,
    maxStudents: Option<int>)

  /** `ClassWithPosition`: the class, its parsed slot and colour, its column and the
    * number of columns of its overlap group. */
  datatype ClassWithPosition = ClassWithPosition(
    cls: ClassRecord,
    timeSlot: TimeSlot,
    color: Color,
    offsetIndex: int,
    totalOverlaps: int)

  /** What a card shows apart from its column: the part the layout must not change. */
  datatype Card = Card(cls: ClassRecord, timeSlot: TimeSlot, color: Color)

  function CardOf(c: ClassWithPosition): Card
  {
    Card(c.cls, c.timeSlot, c.color)
  }

  function Cards(xs: seq<ClassWithPosition>): (r: seq<Card>)
    ensures |r| == |xs|
    ensures forall i :: 0 <= i < |xs| ==> r[i] == CardOf(xs[i])
  {
    if |xs| == 0 then [] else Cards(xs[..|xs| - 1]) + [CardOf(xs[|xs| - 1])]
  }

  function SlotsOf(xs: seq<ClassWithPosition>): (r: seq<TimeSlot>)
    ensures |r| == |xs|
    ensures forall i :: 0 <= i < |xs| ==> r[i] == xs[i].timeSlot
  {
    if |xs| == 0 then [] else SlotsOf(xs[..|xs| - 1]) + [xs[|xs| - 1].timeSlot]
  }

  function StartOf(c: ClassWithPosition): int
  {
    c.timeSlot.start
  }

  /** `[...dayClasses].sort((a, b) => a.timeSlot.start - b.timeSlot.start)`. */
  function SortByStart(xs: seq<ClassWithPosition>): (r: seq<ClassWithPosition>)
    ensures |r| == |xs|
    ensures multiset(r) == multiset(xs)
    ensures OverlapGroups.SortedByStart(SlotsOf(r))
    ensures forall v :: StableSort.WithKey(r, StartOf, v) == StableSort.WithKey(xs, StartOf, v)
  {
    StableSort.Sort(xs, StartOf)
  }

  /** The same card with a column assigned. */
  function Positioned(c: ClassWithPosition, offset: int, total: int): (r: ClassWithPosition)
    ensures CardOf(r) == CardOf(c) && r.offsetIndex == offset && r.totalOverlaps == total
  {
    c.(offsetIndex := offset, totalOverlaps := total)
  }

  lemma CardsAppend(a: seq<ClassWithPosition>, b: seq<ClassWithPosition>)
    ensures Cards(a + b) == Cards(a) + Cards(b)
  {
  }

  /** Reordering the cards reorders what they show. */
  lemma CardsPermutation(a: seq<ClassWithPosition>, b: seq<ClassWithPosition>)
    requires multiset(a) == multiset(b)
    ensures multiset(Cards(a)) == multiset(Cards(b))
  {
    assert Cards(a) == Sequences.Map(a, CardOf);
    assert Cards(b) == Sequences.Map(b, CardOf);
    Sequences.MapPermutation(a, b, CardOf);
  }

  /** The overlap groups of a day: positions into its sorted cards. */
  function DayGroups(xs: seq<ClassWithPosition>): (groups: seq<seq<nat>>)
    ensures OverlapGroups.InRange(groups, |xs|)
  {
    var slots := SlotsOf(SortByStart(xs));
    OverlapGroups.GroupsWellFormed(slots, |slots|);
    OverlapGroups.GroupsOf(slots, |slots|)
  }

  lemma DayGroupsWellFormed(xs: seq<ClassWithPosition>)
    ensures OverlapGroups.WellFormed(SlotsOf(SortByStart(xs)), DayGroups(xs), |xs|)
  {
    var slots := SlotsOf(SortByStart(xs));
    OverlapGroups.GroupsWellFormed(slots, |slots|);
  }
}
