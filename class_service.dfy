/**
 * `class_service.py`: creating a class, listing the classes of a weekday, and registering a
 * student for a class after the admission checks.
 */
module ClassService {
  import opened Common
  import opened Intervals
  import opened PyText
  import opened Timetable
  import opened SlotValidation
  import opened SubscriptionModel
  import opened Db
  import DayView

  // ---------------------------------------------------------------------------
  // create_class

  /** Every stored slot passed the check `create_class` applies. */
  predicate SlotsValidated(classes: seq<ClassRecord>)
  {
    forall i :: 0 <= i < |classes| ==> ValidateTimeSlot(classes[i].timeSlot).None?
  }

  /** `create_class`: the slot check, then a new row with the next id. */
  method CreateClass(db: Database, name: string, subject: Option<string>, dayOfWeek: Option<string>,
                     timeSlot: Option<string>, teacherName: Option<string>, maxStudents: Option<int>)
    returns (r: Result<ClassRecord>)
    requires db.Valid()
    modifies db
    ensures db.Valid()
    ensures ValidateTimeSlot(timeSlot).Some? ==>
      r == Err(ValidateTimeSlot(timeSlot).value)
      && db.classes == old(db.classes) && db.nextClassId == old(db.nextClassId)
    ensures ValidateTimeSlot(timeSlot).None? ==>
      r == Ok(ClassRecord(old(db.nextClassId), name, subject, dayOfWeek, timeSlot, teacherName, maxStudents))
      && db.classes == old(db.classes) + [r.value] && db.nextClassId == old(db.nextClassId) + 1
    ensures db.students == old(db.students) && db.registrations == old(db.registrations)
    ensures db.subscriptions == old(db.subscriptions) && db.nextSubscriptionId == old(db.nextSubscriptionId)
    ensures SlotsValidated(old(db.classes)) ==> SlotsValidated(db.classes)
  {
    var invalid := ValidateTimeSlot(timeSlot);
    if invalid.Some? {
      return Err(invalid.value);
    }
    var c := ClassRecord(db.nextClassId, name, subject, dayOfWeek, timeSlot, teacherName, maxStudents);
    AddClassKeepsKeys(db.classes, db.nextClassId, c);
    db.classes := db.classes + [c];
    db.nextClassId := db.nextClassId + 1;
    return Ok(c);
  }

  // ---------------------------------------------------------------------------
  // get_classes_by_day

  const ValidDays: seq<string> := ["monday", "tuesday", "wednesday", "thursday", "friday", "saturday", "sunday"]

  /** The days as the rows store them. */
  const StoredDays: seq<string> := ["Monday", "Tuesday", "Wednesday", "Thursday", "Friday", "Saturday", "Sunday"]

  const InvalidDayDetail: string := "Invalid day. Must be one of: " + JoinWith(ValidDays, ", ")

  /** `query.filter(ClassModel.day_of_week == day)`: the rows of that day, in stored order. */
  function OnDay(classes: seq<ClassRecord>, day: string): (r: seq<ClassRecord>)
    ensures |r| <= |classes|
    ensures forall k :: 0 <= k < |r| ==> r[k] in classes && r[k].dayOfWeek == Some(day)
  {
    if |classes| == 0 then []
    else
      var c := classes[|classes| - 1];
      var rest := OnDay(classes[..|classes| - 1], day);
      if c.dayOfWeek == Some(day) then rest + [c] else rest
  }

  /** `get_classes_by_day`: no day (or an empty one) lists every class; otherwise the day,
    * lower-cased, must be a weekday name, and the rows are filtered on its capitalised form. */
  function ClassesByDay(classes: seq<ClassRecord>, day: Option<string>): (r: Result<seq<ClassRecord>>)
    ensures day.None? || day.value == "" ==> r == Ok(classes)
    ensures day.Some? && day.value != "" ==> (r.Ok? <==> Lower(day.value) in ValidDays)
    ensures r.Err? ==> r.error == HttpError(BadRequest, InvalidDayDetail)
  {
    if day.None? || day.value == "" then Ok(classes)
    else
      var lower := Lower(day.value);
      if lower !in ValidDays then Err(HttpError(BadRequest, InvalidDayDetail))
      else Ok(OnDay(classes, Capitalize(lower)))
  }

  /** The filter keeps each class of that day as often as it is stored, and no other class. */
  lemma {:induction false} OnDayCount(classes: seq<ClassRecord>, day: string, c: ClassRecord)
    ensures multiset(OnDay(classes, day))[c] == if c.dayOfWeek == Some(day) then multiset(classes)[c] else 0
  {
    if |classes| > 0 {
      var init := classes[..|classes| - 1];
      assert classes == init + [classes[|classes| - 1]];
      OnDayCount(init, day, c);
    }
  }

  /** `capitalize` of a lower-case word only raises its first letter. */
  lemma CapitalizeWord(w: string)
    requires |w| > 0 && forall i :: 0 <= i < |w| ==> 'a' <= w[i] <= 'z'
    ensures Capitalize(w) == [UpperChar(w[0])] + w[1..]
  {
    assert Lower(w[1..]) == w[1..];
  }

  /** The seven names are lower-case words ... */
  lemma DayNameLower(k: nat)
    requires k < 7
    ensures |ValidDays[k]| > 0 && forall i :: 0 <= i < |ValidDays[k]| ==> 'a' <= ValidDays[k][i] <= 'z'
  {
  }

  /** ... whose stored forms differ only in the first letter. */
  lemma StoredDayName(k: nat)
    requires k < 7
    ensures |ValidDays[k]| > 0 && StoredDays[k] == [UpperChar(ValidDays[k][0])] + ValidDays[k][1..]
  {
  }

  /** An accepted day is one of the seven names in any letter case, and the rows are looked up
    * under that name capitalised. */
  lemma AcceptedDay(day: string) returns (k: nat)
    requires Lower(day) in ValidDays
    ensures k < 7 && Lower(day) == ValidDays[k] && Capitalize(Lower(day)) == StoredDays[k]
  {
    k :| 0 <= k < 7 && ValidDays[k] == Lower(day);
    DayNameLower(k);
    StoredDayName(k);
    CapitalizeWord(ValidDays[k]);
  }

  /** Letter case does not matter: two spellings of a day that agree in lower case list the same
    * classes, or are refused alike. */
  lemma DayCaseInsensitive(classes: seq<ClassRecord>, d1: string, d2: string)
    requires Lower(d1) == Lower(d2)
    ensures ClassesByDay(classes, Some(d1)) == ClassesByDay(classes, Some(d2))
  {
    assert |d1| == |Lower(d1)| == |d2|;
  }

  /** `"MONDAY"` lists the rows stored as `"Monday"`. */
  lemma UpperCaseDay(classes: seq<ClassRecord>, day: string)
    requires day == "MONDAY"
    ensures ClassesByDay(classes, Some(day)) == Ok(OnDay(classes, "Monday"))
  {
    assert Lower(day) == "monday";
    var k := AcceptedDay(day);
  }

  /** Filtering on the server first changes nothing in a frontend day column of the same day. */
  lemma {:induction false} FrontendOnFiltered(classes: seq<ClassRecord>, day: string)
    ensures DayView.DayClasses(OnDay(classes, day), day) == DayView.DayClasses(classes, day)
  {
    if |classes| > 0 {
      var init, c := classes[..|classes| - 1], classes[|classes| - 1];
      FrontendOnFiltered(init, day);
      var rest := OnDay(init, day);
      if c.dayOfWeek == Some(day) {
        assert (rest + [c])[..|rest|] == rest;
      }
    }
  }

  // ---------------------------------------------------------------------------
  // Reading a stored slot in register_student_to_class

  /** `time_slot or "00:00"`. */
  function SlotOrMidnight(timeSlot: Option<string>): (r: string)
    ensures r != ""
  {
    if timeSlot.None? || timeSlot.value == "" then "00:00" else timeSlot.value
  }

  /** `h, m = map(int, part.split(":"))` and `h * 60 + m`. */
  function ReadClock(part: string): Option<int>
  {
    match UnpackTwoInts(part)
    case Raised(_) => None
    case Pair(h, m) => Some(h * 60 + m)
  }

  /** The two sides of a dash, each stripped and read. */
  function ReadRange(startText: string, endText: string): Option<TimeSlot>
  {
    var start := ReadClock(Strip(startText));
    var end := ReadClock(Strip(endText));
    if start.Some? && end.Some? then Some(TimeSlot(start.value, end.value)) else None
  }

  /** The minutes of `H:M-H:M`, or of a single `H:M` taken to last 90 minutes; `None` where a
    * `ValueError` escapes. No range is checked here. */
  function ReadSlot(timeSlot: Option<string>): Option<TimeSlot>
  {
    var s := SlotOrMidnight(timeSlot);
    if '-' in s then
      var parts := Split(s, '-');
      if |parts| != 2 then None else ReadRange(parts[0], parts[1])
    else
      var start := ReadClock(s);
      if start.Some? then Some(TimeSlot(start.value, start.value + 90)) else None
  }

  lemma ReadSplit(s: string, a: string, b: string)
    requires s == a + "-" + b && '-' !in a && '-' !in b
    ensures ReadSlot(Some(s)) == ReadRange(a, b)
  {
    assert s[|a|] == '-';
    SplitTwo(a, b, '-');
  }

  /** An endpoint the check accepted reads as the same minutes. */
  lemma ClockRead(part: string, v: int)
    requires CheckClock(part) == Minutes(v)
    ensures ReadClock(part) == Some(v)
  {
  }

  lemma RangeOfClocks(a: string, b: string, start: int, end: int)
    requires CheckClock(Strip(a)) == Minutes(start) && CheckClock(Strip(b)) == Minutes(end)
    ensures ReadRange(a, b) == Some(TimeSlot(start, end))
  {
    ClockRead(Strip(a), start);
    ClockRead(Strip(b), end);
  }

  /** A slot `create_class` accepted is read back as the same interval. */
  lemma ReadAccepted(s: string)
    requires CheckTimeSlot(s).Accepted?
    ensures ReadSlot(Some(s)) == Some(CheckTimeSlot(s).slot)
  {
    var a, b := SlotAccepted(s);
    ReadSplit(s, a, b);
    RangeOfClocks(a, b, CheckTimeSlot(s).slot.start, CheckTimeSlot(s).slot.end);
  }

  /** A missing slot is read as midnight to half past one. */
  lemma ReadMissing(timeSlot: Option<string>)
    requires timeSlot.None? || timeSlot.value == ""
    ensures ReadSlot(timeSlot) == Some(TimeSlot(0, 90))
  {
    MidnightClock(SlotOrMidnight(timeSlot), "00");
  }

  lemma MidnightClock(s: string, z: string)
    requires s == "00:00" && z == "00"
    ensures '-' !in s && ReadClock(s) == Some(0)
  {
    assert s == z + [':'] + z;
    SplitTwo(z, z, ':');
    PyIntDigits(z);
    assert DigitsValue(z[..1]) == 0;
    assert '-' !in s by {
      assert forall i :: 0 <= i < |s| ==> s[i] != '-';
    }
  }

  /** Every slot that passed `create_class` can be read. */
  lemma ReadValidated(timeSlot: Option<string>)
    requires ValidateTimeSlot(timeSlot).None?
    ensures ReadSlot(timeSlot).Some?
  {
    if timeSlot.None? || timeSlot.value == "" {
      ReadMissing(timeSlot);
    } else {
      ReadAccepted(timeSlot.value);
    }
  }

  /** A single clock time stands for a class of 90 minutes. */
  lemma SingleTimeLasts90(timeSlot: Option<string>)
    requires '-' !in SlotOrMidnight(timeSlot) && ReadSlot(timeSlot).Some?
    ensures ReadSlot(timeSlot).value.end == ReadSlot(timeSlot).value.start + 90
  {
  }

  // ---------------------------------------------------------------------------
  // The schedule conflict loop

  /** The overlap test of the loop, target first: `t_start < e_end and e_start < t_end`. */
  predicate Clash(target: TimeSlot, existing: TimeSlot)
  {
    target.start < existing.end && existing.start < target.end
  }

  /** It is the strict overlap the frontend groups classes by, in either order. */
  lemma ClashIsOverlap(target: TimeSlot, existing: TimeSlot)
    ensures Clash(target, existing) <==> Overlaps(target, existing)
    ensures Clash(target, existing) <==> Overlaps(existing, target)
  {
  }

  /** Back-to-back classes do not clash. */
  lemma BackToBackAllowed(target: TimeSlot, existing: TimeSlot)
    requires target.end == existing.start || existing.end == target.start
    ensures !Clash(target, existing)
  {
  }

  /** The join of the student's registrations with their classes, on the target's day
    * (`day_of_week == None` is `IS NULL`), in registration order. A registration whose class
    * row is missing drops out of the inner join. */
  function SameDayClasses(classes: seq<ClassRecord>, regs: seq<Registration>, studentId: int,
                          day: Option<string>): (r: seq<ClassRecord>)
    ensures forall k :: 0 <= k < |r| ==>
      r[k] in classes && r[k].dayOfWeek == day && Registration(studentId, r[k].id) in regs
  {
    if |regs| == 0 then []
    else
      var reg := regs[|regs| - 1];
      var rest := SameDayClasses(classes, regs[..|regs| - 1], studentId, day);
      var ci := ClassIndex(classes, reg.classId);
      if reg.studentId == studentId && ci.Some? && classes[ci.value].dayOfWeek == day
      then rest + [classes[ci.value]] else rest
  }

  /** ... and every class of that day the student is registered for is among them. */
  lemma {:induction false} SameDayComplete(classes: seq<ClassRecord>, regs: seq<Registration>,
                                           studentId: int, day: Option<string>, i: nat, k: nat)
    requires i < |regs| && regs[i].studentId == studentId
    requires ClassIndex(classes, regs[i].classId) == Some(k) && classes[k].dayOfWeek == day
    ensures classes[k] in SameDayClasses(classes, regs, studentId, day)
  {
    var init := regs[..|regs| - 1];
    if i < |regs| - 1 {
      SameDayComplete(classes, init, studentId, day, i, k);
    }
  }

  /** How the loop ends: no clash, a clash with this class, or a slot it cannot read. */
  datatype Scan = Clear | Conflict(existing: ClassRecord) | Unreadable

  /** The loop: the existing classes in order, each read and then tested. */
  function FirstConflict(target: TimeSlot, existing: seq<ClassRecord>): (r: Scan)
    ensures r.Conflict? ==> (r.existing in existing
      && ReadSlot(r.existing.timeSlot).Some? && Clash(target, ReadSlot(r.existing.timeSlot).value))
  {
    if |existing| == 0 then Clear
    else
      match ReadSlot(existing[0].timeSlot)
      case None => Unreadable
      case Some(e) => if Clash(target, e) then Conflict(existing[0]) else FirstConflict(target, existing[1..])
  }

  /** The slots the loop reads: all of them, and none clashes with the target. */
  predicate AllClear(target: TimeSlot, existing: seq<ClassRecord>)
  {
    forall k :: 0 <= k < |existing| ==>
      ReadSlot(existing[k].timeSlot).Some? && !Clash(target, ReadSlot(existing[k].timeSlot).value)
  }

  /** The loop runs to the end exactly when every slot reads and none clashes. */
  lemma {:induction false} ClearIff(target: TimeSlot, existing: seq<ClassRecord>)
    ensures FirstConflict(target, existing) == Clear <==> AllClear(target, existing)
  {
    if |existing| > 0 {
      ClearIff(target, existing[1..]);
      AllClearCons(target, existing);
    }
  }

  /** A sequence is clear exactly when its head is and its tail is. */
  lemma AllClearCons(target: TimeSlot, existing: seq<ClassRecord>)
    requires |existing| > 0
    ensures AllClear(target, existing) <==> AllClear(target, [existing[0]]) && AllClear(target, existing[1..])
  {
    assert existing == [existing[0]] + existing[1..];
  }

  /** With every slot readable, the loop never fails on a slot. */
  lemma {:induction false} ReadableScan(target: TimeSlot, existing: seq<ClassRecord>)
    requires forall k :: 0 <= k < |existing| ==> ReadSlot(existing[k].timeSlot).Some?
    ensures FirstConflict(target, existing) != Unreadable
  {
    if |existing| > 0 {
      assert forall k :: 0 <= k < |existing| - 1 ==> existing[1..][k] == existing[k + 1];
      ReadableScan(target, existing[1..]);
    }
  }

  /** Python's `str()` of an optional string. */
  function PyStr(o: Option<string>): string
  {
    if o.None? then "None" else o.value
  }

  function ConflictDetail(existing: ClassRecord, day: Option<string>): string
  {
    "Schedule conflict: Student already has '" + existing.name + "' on " + PyStr(day) + " at "
    + PyStr(existing.timeSlot)
  }

  // ---------------------------------------------------------------------------
  // The admission checks

  const ClassNotFound: HttpError := HttpError(NotFound, "Class not found")
  const AlreadyRegistered: HttpError := HttpError(BadRequest, "Student already registered for this class")
  const ClassFull: HttpError := HttpError(BadRequest, "Class is full")
  const NoSubscription: HttpError :=
    HttpError(BadRequest, "Student has no active subscription with available sessions")

  /** `class_obj.max_students or 999`: a missing or zero limit means 999. */
  function Capacity(maxStudents: Option<int>): (r: int)
    ensures maxStudents.None? ==> r == 999
    ensures maxStudents.Some? ==> r == if maxStudents.value == 0 then 999 else maxStudents.value
  {
    if maxStudents.None? || maxStudents.value == 0 then 999 else maxStudents.value
  }

  /** The intended subscription filter: one of the student's packages has a session left. */
  predicate HasUsableSubscription(subs: seq<Subscription>, studentId: int)
  {
    exists i :: 0 <= i < |subs| && subs[i].studentId == studentId && IsActive(subs[i])
  }

  /** The checks in order, with the outcome of the subscription query given. */
  function AdmissionWith(classes: seq<ClassRecord>, students: set<int>, regs: seq<Registration>,
                         classId: int, studentId: int, hasSubscription: bool): (r: Result<Registration>)
    ensures r.Ok? ==> r.value == Registration(studentId, classId)
  {
    var ci := ClassIndex(classes, classId);
    if ci.None? then Err(ClassNotFound)
    else if studentId !in students then Err(StudentNotFound)
    else if Registration(studentId, classId) in regs then Err(AlreadyRegistered)
    else
      var c := classes[ci.value];
      if Enrolled(regs, classId) >= Capacity(c.maxStudents) then Err(ClassFull)
      else if !hasSubscription then Err(NoSubscription)
      else
        match ReadSlot(c.timeSlot)
        case None => Err(Uncaught)
        case Some(target) =>
          match FirstConflict(target, SameDayClasses(classes, regs, studentId, c.dayOfWeek))
          case Unreadable => Err(Uncaught)
          case Conflict(e) => Err(HttpError(BadRequest, ConflictDetail(e, c.dayOfWeek)))
          case Clear => Ok(Registration(studentId, classId))
  }

  /** `register_student_to_class`'s decision, with the intended subscription filter. */
  function Admission(classes: seq<ClassRecord>, students: set<int>, regs: seq<Registration>,
                     subs: seq<Subscription>, classId: int, studentId: int): (r: Result<Registration>)
    ensures r.Ok? ==> r.value == Registration(studentId, classId)
  {
    AdmissionWith(classes, students, regs, classId, studentId, HasUsableSubscription(subs, studentId))
  }

  /** Everything admission asks of a student and a class that exists. */
  predicate Admissible(classes: seq<ClassRecord>, students: set<int>, regs: seq<Registration>,
                       subs: seq<Subscription>, c: ClassRecord, studentId: int)
  {
    && studentId in students
    && Registration(studentId, c.id) !in regs
    && Enrolled(regs, c.id) < Capacity(c.maxStudents)
    && HasUsableSubscription(subs, studentId)
    && ReadSlot(c.timeSlot).Some?
    && AllClear(ReadSlot(c.timeSlot).value, SameDayClasses(classes, regs, studentId, c.dayOfWeek))
  }

  /** A student is admitted exactly when the class exists and every check passes. */
  lemma AdmittedIff(classes: seq<ClassRecord>, students: set<int>, regs: seq<Registration>,
                    subs: seq<Subscription>, classId: int, studentId: int)
    ensures Admission(classes, students, regs, subs, classId, studentId).Ok? <==>
      ClassIndex(classes, classId).Some?
      && Admissible(classes, students, regs, subs, classes[ClassIndex(classes, classId).value], studentId)
  {
    var ci := ClassIndex(classes, classId);
    if ci.Some? {
      var c := classes[ci.value];
      if ReadSlot(c.timeSlot).Some? {
        ClearIff(ReadSlot(c.timeSlot).value, SameDayClasses(classes, regs, studentId, c.dayOfWeek));
      }
    }
  }

  /** The two 404s are for a missing class or student, the class checked first. */
  lemma NotFoundCases(classes: seq<ClassRecord>, students: set<int>, regs: seq<Registration>,
                      subs: seq<Subscription>, classId: int, studentId: int)
    ensures var r := Admission(classes, students, regs, subs, classId, studentId);
      (r.Err? && r.error.status == NotFound <==>
        ClassIndex(classes, classId).None? || studentId !in students)
      && (ClassIndex(classes, classId).None? ==> r == Err(ClassNotFound))
  {
  }

  /** A conflict names a class of the same day the student is registered for, whose slot
    * strictly overlaps the target's. */
  lemma ConflictNamesClash(classes: seq<ClassRecord>, students: set<int>, regs: seq<Registration>,
                           subs: seq<Subscription>, classId: int, studentId: int)
    requires ClassIndex(classes, classId).Some?
    requires var c := classes[ClassIndex(classes, classId).value];
      ReadSlot(c.timeSlot).Some?
      && FirstConflict(ReadSlot(c.timeSlot).value, SameDayClasses(classes, regs, studentId, c.dayOfWeek)).Conflict?
    ensures var c := classes[ClassIndex(classes, classId).value];
      var e := FirstConflict(ReadSlot(c.timeSlot).value, SameDayClasses(classes, regs, studentId, c.dayOfWeek)).existing;
      e in classes && e.dayOfWeek == c.dayOfWeek && Registration(studentId, e.id) in regs
      && Overlaps(ReadSlot(c.timeSlot).value, ReadSlot(e.timeSlot).value)
  {
  }

  /** A full class is refused before the subscription is looked at: with no limit, 999 places. */
  lemma FullClassRefused(classes: seq<ClassRecord>, students: set<int>, regs: seq<Registration>,
                         subs: seq<Subscription>, classId: int, studentId: int)
    requires ClassIndex(classes, classId).Some? && studentId in students
    requires Registration(studentId, classId) !in regs
    requires Enrolled(regs, classId) >= Capacity(classes[ClassIndex(classes, classId).value].maxStudents)
    ensures Admission(classes, students, regs, subs, classId, studentId) == Err(ClassFull)
  {
  }

  /** An admission never stores a pair twice. */
  lemma AdmissionKeepsPairsUnique(classes: seq<ClassRecord>, students: set<int>, regs: seq<Registration>,
                                  subs: seq<Subscription>, classId: int, studentId: int)
    requires UniquePairs(regs)
    requires Admission(classes, students, regs, subs, classId, studentId).Ok?
    ensures UniquePairs(regs + [Admission(classes, students, regs, subs, classId, studentId).value])
  {
    AddPairKeepsUnique(regs, Registration(studentId, classId));
  }

  /** When every stored slot passed `create_class`, no registration ends in a server error. */
  lemma NoServerErrorOnValidatedSlots(classes: seq<ClassRecord>, students: set<int>, regs: seq<Registration>,
                                      subs: seq<Subscription>, classId: int, studentId: int)
    requires SlotsValidated(classes)
    ensures Admission(classes, students, regs, subs, classId, studentId) != Err(Uncaught)
  {
    var ci := ClassIndex(classes, classId);
    if ci.Some? {
      var c := classes[ci.value];
      ReadValidated(c.timeSlot);
      var existing := SameDayClasses(classes, regs, studentId, c.dayOfWeek);
      forall k | 0 <= k < |existing|
        ensures ReadSlot(existing[k].timeSlot).Some?
      {
        var j :| 0 <= j < |classes| && classes[j] == existing[k];
        ReadValidated(classes[j].timeSlot);
      }
      ReadableScan(ReadSlot(c.timeSlot).value, existing);
    }
  }

  /** `register_student_to_class`: the checks in order, the conflict loop with its early exits,
    * then the new row. */
  method RegisterStudentToClass(db: Database, classId: int, studentId: int) returns (r: Result<Registration>)
    requires db.Valid()
    modifies db
    ensures r == Admission(old(db.classes), old(db.students), old(db.registrations), old(db.subscriptions),
                           classId, studentId)
    ensures r.Ok? ==> db.registrations == old(db.registrations) + [r.value]
    ensures r.Err? ==> db.registrations == old(db.registrations)
    ensures db.classes == old(db.classes) && db.students == old(db.students)
    ensures db.subscriptions == old(db.subscriptions)
    ensures db.nextClassId == old(db.nextClassId) && db.nextSubscriptionId == old(db.nextSubscriptionId)
    ensures db.Valid()
  {
    var ci := ClassIndex(db.classes, classId);
    if ci.None? {
      return Err(ClassNotFound);
    }
    var c := db.classes[ci.value];
    if studentId !in db.students {
      return Err(StudentNotFound);
    }
    if Registration(studentId, classId) in db.registrations {
      return Err(AlreadyRegistered);
    }
    if Enrolled(db.registrations, classId) >= Capacity(c.maxStudents) {
      return Err(ClassFull);
    }
    if !HasUsableSubscription(db.subscriptions, studentId) {
      return Err(NoSubscription);
    }
    var target := ReadSlot(c.timeSlot);
    if target.None? {
      return Err(Uncaught);
    }
    var existing := SameDayClasses(db.classes, db.registrations, studentId, c.dayOfWeek);
    var i := 0;
    while i < |existing|
      invariant 0 <= i <= |existing|
      invariant FirstConflict(target.value, existing) == FirstConflict(target.value, existing[i..])
    {
      var slot := ReadSlot(existing[i].timeSlot);
      if slot.None? {
        return Err(Uncaught);
      }
      if Clash(target.value, slot.value) {
        return Err(HttpError(BadRequest, ConflictDetail(existing[i], c.dayOfWeek)));
      }
      assert existing[i..][1..] == existing[i + 1..];
      i := i + 1;
    }
    var reg := Registration(studentId, classId);
    AddPairKeepsUnique(db.registrations, reg);
    db.registrations := db.registrations + [reg];
    return Ok(reg);
  }

  // ---------------------------------------------------------------------------
  // The subscription filter as written

  /** `Subscription.is_active == True`: on the class, `is_active` is the property object, which
    * is not equal to `True`, so the clause is the Python value `False` and the SQL filter is
    * `false`. */
  const PropertyEqualsTrue: bool := false

  predicate SubscriptionRowAsWritten(s: Subscription, studentId: int)
  {
    s.studentId == studentId && PropertyEqualsTrue && s.totalSessions > s.usedSessions
  }

  predicate HasSubscriptionAsWritten(subs: seq<Subscription>, studentId: int)
  {
    exists i :: 0 <= i < |subs| && SubscriptionRowAsWritten(subs[i], studentId)
  }

  /** `register_student_to_class` as written. */
  function AdmissionAsWritten(classes: seq<ClassRecord>, students: set<int>, regs: seq<Registration>,
                              subs: seq<Subscription>, classId: int, studentId: int): (r: Result<Registration>)
    ensures r.Ok? ==> r.value == Registration(studentId, classId)
  {
    AdmissionWith(classes, students, regs, classId, studentId, HasSubscriptionAsWritten(subs, studentId))
  }

  /** As written, nobody is ever registered: a request that passes the first four checks is
    * refused for want of a subscription, whatever the student's packages. */
  lemma AsWrittenNeverAdmits(classes: seq<ClassRecord>, students: set<int>, regs: seq<Registration>,
                             subs: seq<Subscription>, classId: int, studentId: int)
    ensures AdmissionAsWritten(classes, students, regs, subs, classId, studentId).Err?
    ensures ClassIndex(classes, classId).Some? && studentId in students
      && Registration(studentId, classId) !in regs
      && Enrolled(regs, classId) < Capacity(classes[ClassIndex(classes, classId).value].maxStudents)
      ==> AdmissionAsWritten(classes, students, regs, subs, classId, studentId) == Err(NoSubscription)
  {
    assert !HasSubscriptionAsWritten(subs, studentId);
  }

  /** The corrected filter admits a student with a usable package where the written one refuses. */
  lemma CorrectedAdmits(classes: seq<ClassRecord>, students: set<int>, regs: seq<Registration>,
                        subs: seq<Subscription>, classId: int, studentId: int)
    requires ClassIndex(classes, classId).Some?
    requires Admissible(classes, students, regs, subs, classes[ClassIndex(classes, classId).value], studentId)
    ensures Admission(classes, students, regs, subs, classId, studentId) == Ok(Registration(studentId, classId))
    ensures AdmissionAsWritten(classes, students, regs, subs, classId, studentId) == Err(NoSubscription)
  {
    AdmittedIff(classes, students, regs, subs, classId, studentId);
    AsWrittenNeverAdmits(classes, students, regs, subs, classId, studentId);
  }
}
