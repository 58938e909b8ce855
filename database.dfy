/**
 * The tables the backend services read and write, as one object. Rows are kept in insertion
 * order, which is the order the queries return them in this model; `first()` is the first
 * matching row in that order.
 */
module Db {
  import opened Common
  import opened Timetable
  import opened SubscriptionModel

  /** A `class_registrations` row: one student in one class. */
  datatype Registration = Registration(studentId: int, classId: int)

  /** `db.query(ClassModel).filter(ClassModel.id == id).first()`. */
  function ClassIndex(classes: seq<ClassRecord>, id: int): (r: Option<nat>)
    ensures r.Some? ==> (r.value < |classes| && classes[r.value].id == id
      && forall j :: 0 <= j < r.value ==> classes[j].id != id)
    ensures r.None? <==> forall j :: 0 <= j < |classes| ==> classes[j].id != id
  {
    if |classes| == 0 then None
    else if classes[0].id == id then Some(0)
    else
      match ClassIndex(classes[1..], id)
      case None => None
      case Some(k) => Some(k + 1)
  }

  /** `db.query(Subscription).filter(Subscription.id == id).first()`. */
  function SubscriptionIndex(subs: seq<Subscription>, id: int): (r: Option<nat>)
    ensures r.Some? ==> (r.value < |subs| && subs[r.value].id == id
      && forall j :: 0 <= j < r.value ==> subs[j].id != id)
    ensures r.None? <==> forall j :: 0 <= j < |subs| ==> subs[j].id != id
  {
    if |subs| == 0 then None
    else if subs[0].id == id then Some(0)
    else
      match SubscriptionIndex(subs[1..], id)
      case None => None
      case Some(k) => Some(k + 1)
  }

  /** `db.query(ClassRegistration).filter(ClassRegistration.class_id == id).count()`. */
  function Enrolled(regs: seq<Registration>, classId: int): (r: nat)
    ensures r <= |regs|
  {
    if |regs| == 0 then 0
    else Enrolled(regs[..|regs| - 1], classId) + (if regs[|regs| - 1].classId == classId then 1 else 0)
  }

  /** The head count is the number of rows that name the class. */
  lemma {:induction false} EnrolledCounts(regs: seq<Registration>, classId: int)
    ensures Enrolled(regs, classId) == |set i | 0 <= i < |regs| && regs[i].classId == classId|
  {
    if |regs| > 0 {
      var n := |regs| - 1;
      var init := regs[..n];
      EnrolledCounts(init, classId);
      var before := set i | 0 <= i < n && init[i].classId == classId;
      var after := set i | 0 <= i < |regs| && regs[i].classId == classId;
      if regs[n].classId == classId {
        assert after == before + {n};
      } else {
        assert after == before;
      }
    }
  }

  /** One more registration adds one to the class it names and leaves every other count alone. */
  lemma EnrolledAppend(regs: seq<Registration>, r: Registration, classId: int)
    ensures Enrolled(regs + [r], classId) == Enrolled(regs, classId) + (if r.classId == classId then 1 else 0)
  {
    assert (regs + [r])[..|regs|] == regs;
  }

  /** The unique constraint on `(student_id, class_id)`. */
  predicate UniquePairs(regs: seq<Registration>)
  {
    forall i, j :: 0 <= i < j < |regs| ==> regs[i] != regs[j]
  }

  /** Primary keys: distinct, and below the next one to be handed out. */
  predicate ClassKeys(classes: seq<ClassRecord>, next: int)
  {
    (forall i :: 0 <= i < |classes| ==> classes[i].id < next)
    && forall i, j :: 0 <= i < j < |classes| ==> classes[i].id != classes[j].id
  }

  predicate SubscriptionKeys(subs: seq<Subscription>, next: int)
  {
    (forall i :: 0 <= i < |subs| ==> subs[i].id < next)
    && forall i, j :: 0 <= i < j < |subs| ==> subs[i].id != subs[j].id
  }

  /** Never more sessions used than bought. The schema does not enforce this: `used_sessions` and
    * `total_sessions` are two unrelated integer columns. It is an invariant of the subscription
    * operations, which keep it whenever it held before. */
  predicate SessionsWithinPackage(subs: seq<Subscription>)
  {
    forall i :: 0 <= i < |subs| ==> 0 <= subs[i].usedSessions <= subs[i].totalSessions
  }

  /** Appending a pair that is not stored yet keeps the pairs unique. */
  lemma AddPairKeepsUnique(regs: seq<Registration>, r: Registration)
    requires UniquePairs(regs) && r !in regs
    ensures UniquePairs(regs + [r])
  {
    var s := regs + [r];
    forall i, j | 0 <= i < j < |s|
      ensures s[i] != s[j]
    {
      if j == |regs| {
        assert s[i] == regs[i];
      }
    }
  }

  /** A row with the next key keeps the keys distinct. */
  lemma AddClassKeepsKeys(classes: seq<ClassRecord>, next: int, c: ClassRecord)
    requires ClassKeys(classes, next) && c.id == next
    ensures ClassKeys(classes + [c], next + 1)
  {
  }

  lemma AddSubscriptionKeepsKeys(subs: seq<Subscription>, next: int, s: Subscription)
    requires SubscriptionKeys(subs, next) && s.id == next
    ensures SubscriptionKeys(subs + [s], next + 1)
  {
  }

  /** The database: classes, the ids of the students, registrations and subscriptions. */
  class Database {
    var classes: seq<ClassRecord>
    var students: set<int>
    var registrations: seq<Registration>
    var subscriptions: seq<Subscription>
    var nextClassId: int
    var nextSubscriptionId: int

    /** What the schema's primary keys and unique constraint guarantee. */
    ghost predicate Valid()
      reads this
    {
      ClassKeys(classes, nextClassId)
      && UniquePairs(registrations)
      && SubscriptionKeys(subscriptions, nextSubscriptionId)
    }

    /** The invariant the subscription operations keep, beyond the schema's. */
    ghost predicate SessionsKept()
      reads this
    {
      SessionsWithinPackage(subscriptions)
    }

    /** Empty tables but for the given students; keys start at 1. */
    constructor (students: set<int>)
      ensures Valid() && SessionsKept()
      ensures this.students == students
      ensures classes == [] && registrations == [] && subscriptions == []
      ensures nextClassId == 1 && nextSubscriptionId == 1
    {
      this.students := students;
      classes := [];
      registrations := [];
      subscriptions := [];
      nextClassId := 1;
      nextSubscriptionId := 1;
    }
  }
}
