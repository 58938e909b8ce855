/**
 * `getClassesByDay`: the classes of one weekday, with parsed slots and colours, laid out by
 * `detectOverlaps`. ClassesManagement keeps a class when its day matches and its `time_slot` is
 * a non-empty string that parses; the other three copies parse `time_slot || ''` and drop what
 * does not parse. The two filters keep the same classes.
 */
module DayView {
  import opened Common
  import opened Intervals
  import opened SubjectColor
  import opened TimeSlotParser
  import opened Timetable
  import opened Sequences
  import GreedyColumns
  import PositionColumns

  /** `c.subject || ''`. */
  function SubjectText(c: ClassRecord): string
  {
    if c.subject.Some? then c.subject.value else ""
  }

  /** `c.time_slot || ''`. */
  function SlotText(c: ClassRecord): string
  {
    if c.timeSlot.Some? then c.timeSlot.value else ""
  }

  /** The card built for a kept class, before any column is assigned. */
  function Initial(c: ClassRecord, slot: TimeSlot): (r: ClassWithPosition)
    ensures r.cls == c && r.timeSlot == slot && r.color == ColorOf(SubjectText(c))
    ensures r.offsetIndex == 0 && r.totalOverlaps == 1
  {
    ClassWithPosition(c, slot, ColorOf(SubjectText(c)), 0, 1)
  }

  /** The classes a day view shows: those of that day whose slot parses. */
  predicate Kept(c: ClassRecord, day: string)
  {
    c.dayOfWeek == Some(day) && ParseTimeSlot(SlotText(c)).Some?
  }

  /** ClassesManagement: `.filter(c => c.day_of_week === day && c.time_slot)`, then
    * `parseTimeSlot(c.time_slot!)` and the `null`s dropped. */
  function DayClassesChecked(classes: seq<ClassRecord>, day: string): seq<ClassWithPosition>
  {
    if |classes| == 0 then []
    else
      var c := classes[|classes| - 1];
      var rest := DayClassesChecked(classes[..|classes| - 1], day);
      if c.dayOfWeek == Some(day) && c.timeSlot.Some? && c.timeSlot.value != "" then
        var slot := ParseTimeSlot(c.timeSlot.value);
        if slot.Some? then rest + [Initial(c, slot.value)] else rest
      else rest
  }

  /** The other three copies: `.filter(c => c.day_of_week === day)`, then
    * `parseTimeSlot(c.time_slot || '')` and the `null`s dropped. */
  function DayClasses(classes: seq<ClassRecord>, day: string): seq<ClassWithPosition>
  {
    if |classes| == 0 then []
    else
      var c := classes[|classes| - 1];
      var rest := DayClasses(classes[..|classes| - 1], day);
      if c.dayOfWeek == Some(day) then
        var slot := ParseTimeSlot(SlotText(c));
        if slot.Some? then rest + [Initial(c, slot.value)] else rest
      else rest
  }

  /** The class records on the cards, in order. */
  function Shown(xs: seq<ClassWithPosition>): (r: seq<ClassRecord>)
    ensures |r| == |xs| && forall i :: 0 <= i < |xs| ==> r[i] == xs[i].cls
  {
    Map(Cards(xs), (k: Card) => k.cls)
  }

  // ---------------------------------------------------------------------------
  // The filters

  /** Skipping a missing or empty slot up front drops the same classes as parsing `''`. */
  lemma {:induction false} FiltersAgree(classes: seq<ClassRecord>, day: string)
    ensures DayClassesChecked(classes, day) == DayClasses(classes, day)
  {
    if |classes| > 0 {
      FiltersAgree(classes[..|classes| - 1], day);
      EmptyDoesNotParse();
    }
  }

  lemma ShownAppend(xs: seq<ClassWithPosition>, x: ClassWithPosition)
    ensures Shown(xs + [x]) == Shown(xs) + [x.cls]
  {
  }

  /** Every kept class appears as often as in the input, every other class not at all. */
  lemma {:induction false} DayClassesCount(classes: seq<ClassRecord>, day: string, c: ClassRecord)
    ensures multiset(Shown(DayClasses(classes, day)))[c] == if Kept(c, day) then multiset(classes)[c] else 0
  {
    if |classes| > 0 {
      var init, last := classes[..|classes| - 1], classes[|classes| - 1];
      assert classes == init + [last];
      DayClassesCount(init, day, c);
      var rest := DayClasses(init, day);
      var slot := ParseTimeSlot(SlotText(last));
      if last.dayOfWeek == Some(day) && slot.Some? {
        ShownAppend(rest, Initial(last, slot.value));
      }
    }
  }

  /** Each card of the day is a kept input class, with its parsed slot and its subject's colour. */
  lemma {:induction false} DayClassesAt(classes: seq<ClassRecord>, day: string, j: nat)
    requires j < |DayClasses(classes, day)|
    ensures var x := DayClasses(classes, day)[j];
      x.cls in classes && Kept(x.cls, day) && ParseTimeSlot(SlotText(x.cls)) == Some(x.timeSlot)
      && x == Initial(x.cls, x.timeSlot)
  {
    var init := classes[..|classes| - 1];
    var rest := DayClasses(init, day);
    if j < |rest| {
      DayClassesAt(init, day, j);
      assert rest[j] == DayClasses(classes, day)[j];
    }
  }

  // ---------------------------------------------------------------------------
  // The day column

  /** ClassesManagement's `getClassesByDay(day)`. */
  method GetClassesByDayGreedy(classes: seq<ClassRecord>, day: string) returns (r: seq<ClassWithPosition>)
    ensures r == GreedyColumns.GreedyLayout(DayClasses(classes, day))
  {
    FiltersAgree(classes, day);
    var dayClasses := DayClassesChecked(classes, day);
    r := GreedyColumns.DetectOverlapsGreedy(dayClasses);
  }

  /** `getClassesByDay(day, classes)` of StudentsManagement and ParentDashboard, and
    * StudentDashboard's `getClassesByDay(day)`. */
  method GetClassesByDay(classes: seq<ClassRecord>, day: string) returns (r: seq<ClassWithPosition>)
    ensures r == PositionColumns.PositionLayout(DayClasses(classes, day))
  {
    var dayClasses := DayClasses(classes, day);
    r := PositionColumns.DetectOverlapsByPosition(dayClasses);
  }

  /** A card whose shown fields occur among the day's cards is one of them. */
  lemma CardFromDay(layout: seq<ClassWithPosition>, dayClasses: seq<ClassWithPosition>, i: nat) returns (j: nat)
    requires multiset(Cards(layout)) == multiset(Cards(dayClasses)) && i < |layout|
    ensures j < |dayClasses| && CardOf(layout[i]) == CardOf(dayClasses[j])
  {
    assert Cards(layout)[i] in multiset(Cards(dayClasses));
    j :| 0 <= j < |dayClasses| && Cards(dayClasses)[j] == CardOf(layout[i]);
  }

  /** The greedy day column shows each kept class of that day exactly as often as the input
    * lists it and nothing else, each card with its parsed slot and its subject's colour. */
  lemma GreedyDayCount(classes: seq<ClassRecord>, day: string, c: ClassRecord)
    ensures multiset(Shown(GreedyColumns.GreedyLayout(DayClasses(classes, day))))[c]
         == if Kept(c, day) then multiset(classes)[c] else 0
  {
    var dayClasses := DayClasses(classes, day);
    var layout := GreedyColumns.GreedyLayout(dayClasses);
    GreedyColumns.GreedyKeepsCards(dayClasses);
    MapPermutation(Cards(layout), Cards(dayClasses), (k: Card) => k.cls);
    DayClassesCount(classes, day, c);
  }

  lemma GreedyDayCard(classes: seq<ClassRecord>, day: string, i: nat)
    requires i < |GreedyColumns.GreedyLayout(DayClasses(classes, day))|
    ensures var x := GreedyColumns.GreedyLayout(DayClasses(classes, day))[i];
      x.cls in classes && Kept(x.cls, day) && ParseTimeSlot(SlotText(x.cls)) == Some(x.timeSlot)
      && x.color == ColorOf(SubjectText(x.cls))
  {
    var dayClasses := DayClasses(classes, day);
    GreedyColumns.GreedyKeepsCards(dayClasses);
    var j := CardFromDay(GreedyColumns.GreedyLayout(dayClasses), dayClasses, i);
    DayClassesAt(classes, day, j);
  }

  /** The same for the index-in-group day column. */
  lemma PositionDayCount(classes: seq<ClassRecord>, day: string, c: ClassRecord)
    ensures multiset(Shown(PositionColumns.PositionLayout(DayClasses(classes, day))))[c]
         == if Kept(c, day) then multiset(classes)[c] else 0
  {
    var dayClasses := DayClasses(classes, day);
    var layout := PositionColumns.PositionLayout(dayClasses);
    PositionColumns.PositionKeepsCards(dayClasses);
    MapPermutation(Cards(layout), Cards(dayClasses), (k: Card) => k.cls);
    DayClassesCount(classes, day, c);
  }

  lemma PositionDayCard(classes: seq<ClassRecord>, day: string, i: nat)
    requires i < |PositionColumns.PositionLayout(DayClasses(classes, day))|
    ensures var x := PositionColumns.PositionLayout(DayClasses(classes, day))[i];
      x.cls in classes && Kept(x.cls, day) && ParseTimeSlot(SlotText(x.cls)) == Some(x.timeSlot)
      && x.color == ColorOf(SubjectText(x.cls))
  {
    var dayClasses := DayClasses(classes, day);
    PositionColumns.PositionKeepsCards(dayClasses);
    var j := CardFromDay(PositionColumns.PositionLayout(dayClasses), dayClasses, i);
    DayClassesAt(classes, day, j);
  }

  // ---------------------------------------------------------------------------
  // ParentDashboard

  /** `studentClasses[student.id] || []`. */
  function ClassesOfStudent(studentClasses: map<int, seq<ClassRecord>>, studentId: int): seq<ClassRecord>
  {
    if studentId in studentClasses then studentClasses[studentId] else []
  }

  /** A child whose classes have not been loaded gets an empty timetable. */
  lemma UnloadedChildShowsNothing(studentClasses: map<int, seq<ClassRecord>>, studentId: int, day: string)
    requires studentId !in studentClasses
    ensures PositionColumns.PositionLayout(DayClasses(ClassesOfStudent(studentClasses, studentId), day)) == []
  {
    assert DayClasses([], day) == [];
    PositionColumns.PositionKeepsCards([]);
  }
}
