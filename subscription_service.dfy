/**
 * `subscription_service.py`: creating a package for a student, using one of its sessions, and
 * deleting it. Dates are day numbers and `date.today()` is a parameter.
 */
module SubscriptionService {
  import opened Common
  import opened SubscriptionModel
  import opened Db

  const SubscriptionNotFound: HttpError := HttpError(NotFound, "Subscription not found")
  const DatesOutOfOrder: HttpError := HttpError(BadRequest, "end_date must be after start_date")
  const NoSessionsBought: HttpError := HttpError(BadRequest, "total_sessions must be greater than 0")
  const NotActive: HttpError := HttpError(BadRequest, "Subscription is not active")
  const NoneRemaining: HttpError := HttpError(BadRequest, "No sessions remaining")
  const Expired: HttpError := HttpError(BadRequest, "Subscription has expired")

  // ---------------------------------------------------------------------------
  // create_subscription

  /** The checks of `create_subscription`, in order. */
  function CreateCheck(students: set<int>, studentId: int, startDate: int, endDate: int,
                       totalSessions: int): Option<HttpError>
  {
    if studentId !in students then Some(StudentNotFound)
    else if endDate <= startDate then Some(DatesOutOfOrder)
    else if totalSessions <= 0 then Some(NoSessionsBought)
    else None
  }

  /** A request passes exactly when the student exists, the package ends after it starts and
    * it has a session; a missing student is reported before anything else. */
  lemma CreateCheckIff(students: set<int>, studentId: int, startDate: int, endDate: int, totalSessions: int)
    ensures CreateCheck(students, studentId, startDate, endDate, totalSessions).None? <==>
      studentId in students && startDate < endDate && totalSessions >= 1
    ensures studentId !in students ==> CreateCheck(students, studentId, startDate, endDate, totalSessions) == Some(StudentNotFound)
    ensures CreateCheck(students, studentId, startDate, endDate, totalSessions) == Some(NoSessionsBought) ==>
      studentId in students && startDate < endDate
  {
  }

  /** `create_subscription` with the derived `is_active` left to the model: a new row with
    * the next id and no session used. */
  function CreateOutcome(students: set<int>, nextId: int, studentId: int, packageName: string,
                         startDate: int, endDate: int, totalSessions: int): Result<Subscription>
  {
    match CreateCheck(students, studentId, startDate, endDate, totalSessions)
    case Some(e) => Err(e)
    case None => Ok(NewSubscription(nextId, studentId, packageName, startDate, endDate, totalSessions))
  }

  /** A created package keeps what was asked for, has every session left and is active. */
  lemma CreatedIsFresh(students: set<int>, nextId: int, studentId: int, packageName: string,
                       startDate: int, endDate: int, totalSessions: int)
    requires CreateOutcome(students, nextId, studentId, packageName, startDate, endDate, totalSessions).Ok?
    ensures var s := CreateOutcome(students, nextId, studentId, packageName, startDate, endDate, totalSessions).value;
      s.id == nextId && s.studentId == studentId && s.packageName == packageName
      && s.startDate == Some(startDate) && s.endDate == Some(endDate)
      && s.totalSessions == totalSessions && s.usedSessions == 0
      && RemainingSessions(s) == totalSessions && IsActive(s)
  {
    FreshSubscription(nextId, studentId, packageName, startDate, endDate, totalSessions);
  }

  /** `Subscription(..., is_active=True)` as written: the keyword sets a property that has no
    * setter, and the `AttributeError` is not the `IntegrityError` the handler catches. */
  function CreateOutcomeAsWritten(students: set<int>, nextId: int, studentId: int, packageName: string,
                                  startDate: int, endDate: int, totalSessions: int): Result<Subscription>
  {
    match CreateCheck(students, studentId, startDate, endDate, totalSessions)
    case Some(e) => Err(e)
    case None => Err(Uncaught)
  }

  /** As written no package is ever created: every request that passes the checks ends in a
    * server error, where the corrected one stores the package. */
  lemma CreateAsWrittenFails(students: set<int>, nextId: int, studentId: int, packageName: string,
                             startDate: int, endDate: int, totalSessions: int)
    ensures CreateOutcomeAsWritten(students, nextId, studentId, packageName, startDate, endDate, totalSessions).Err?
    ensures CreateOutcome(students, nextId, studentId, packageName, startDate, endDate, totalSessions).Ok? <==>
      CreateOutcomeAsWritten(students, nextId, studentId, packageName, startDate, endDate, totalSessions) == Err(Uncaught)
  {
  }

  method CreateSubscription(db: Database, studentId: int, packageName: string, startDate: int,
                            endDate: int, totalSessions: int) returns (r: Result<Subscription>)
    requires db.Valid()
    modifies db
    ensures r == CreateOutcome(old(db.students), old(db.nextSubscriptionId), studentId, packageName,
                               startDate, endDate, totalSessions)
    ensures r.Ok? ==> (db.subscriptions == old(db.subscriptions) + [r.value]
      && db.nextSubscriptionId == old(db.nextSubscriptionId) + 1)
    ensures r.Err? ==> db.subscriptions == old(db.subscriptions) && db.nextSubscriptionId == old(db.nextSubscriptionId)
    ensures db.classes == old(db.classes) && db.students == old(db.students)
    ensures db.registrations == old(db.registrations) && db.nextClassId == old(db.nextClassId)
    ensures db.Valid()
    ensures old(db.SessionsKept()) ==> db.SessionsKept()
  {
    if studentId !in db.students {
      return Err(StudentNotFound);
    }
    if endDate <= startDate {
      return Err(DatesOutOfOrder);
    }
    if totalSessions <= 0 {
      return Err(NoSessionsBought);
    }
    var s := NewSubscription(db.nextSubscriptionId, studentId, packageName, startDate, endDate, totalSessions);
    AddSubscriptionKeepsKeys(db.subscriptions, db.nextSubscriptionId, s);
    db.subscriptions := db.subscriptions + [s];
    db.nextSubscriptionId := db.nextSubscriptionId + 1;
    return Ok(s);
  }

  // ---------------------------------------------------------------------------
  // use_subscription_session

  /** The checks on a found subscription, in order. `if subscription.end_date:` skips a
    * missing date; the expiry test is strict. */
  function UseCheck(s: Subscription, today: int): Option<HttpError>
  {
    if !IsActive(s) then Some(NotActive)
    else if RemainingSessions(s) <= 0 then Some(NoneRemaining)
    else if s.endDate.Some? && s.endDate.value < today then Some(Expired)
    else None
  }

  /** A session can be used exactly when one is left and the package has not ended before today. */
  lemma UseCheckIff(s: Subscription, today: int)
    ensures UseCheck(s, today).None? <==>
      s.usedSessions < s.totalSessions && (s.endDate.None? || today <= s.endDate.value)
    ensures UseCheck(s, today) == Some(NotActive) <==> s.usedSessions >= s.totalSessions
  {
    ActiveIffSessionsLeft(s);
  }

  /** Since `is_active` is `remaining_sessions > 0`, "No sessions remaining" is never the answer. */
  lemma NoneRemainingUnreachable(s: Subscription, today: int)
    ensures UseCheck(s, today) != Some(NoneRemaining)
  {
  }

  /** A package whose last day is today can still be used. */
  lemma LastDayUsable(s: Subscription, today: int)
    requires s.endDate == Some(today) && IsActive(s)
    ensures UseCheck(s, today).None?
  {
  }

  /** `use_subscription_session` with the derived `is_active`: one more session used. */
  function UseOutcome(subs: seq<Subscription>, id: int, today: int): Result<Subscription>
  {
    match SubscriptionIndex(subs, id)
    case None => Err(SubscriptionNotFound)
    case Some(i) =>
      match UseCheck(subs[i], today)
      case Some(e) => Err(e)
      case None => Ok(UseOne(subs[i]))
  }

  /** A used session is one more used, nothing else changes, at most all sessions are used, and
    * the package is inactive once none is left. */
  lemma UseAccounting(subs: seq<Subscription>, id: int, today: int)
    requires UseOutcome(subs, id, today).Ok?
    ensures SubscriptionIndex(subs, id).Some?
    ensures var old_ := subs[SubscriptionIndex(subs, id).value];
      var new_ := UseOutcome(subs, id, today).value;
      new_.usedSessions == old_.usedSessions + 1 && new_.(usedSessions := old_.usedSessions) == old_
      && RemainingSessions(new_) == RemainingSessions(old_) - 1 && RemainingSessions(new_) >= 0
      && (RemainingSessions(new_) == 0 ==> !IsActive(new_))
  {
    var i := SubscriptionIndex(subs, id).value;
    UseOneAccounting(subs[i]);
  }

  /** Using a session keeps every package within what it bought. */
  lemma UseKeepsWithinPackage(subs: seq<Subscription>, id: int, today: int)
    requires SessionsWithinPackage(subs) && UseOutcome(subs, id, today).Ok?
    ensures SessionsWithinPackage(subs[SubscriptionIndex(subs, id).value := UseOutcome(subs, id, today).value])
  {
  }

  method UseSubscriptionSession(db: Database, id: int, today: int) returns (r: Result<Subscription>)
    requires db.Valid()
    modifies db
    ensures r == UseOutcome(old(db.subscriptions), id, today)
    ensures r.Ok? ==> (SubscriptionIndex(old(db.subscriptions), id).Some?
      && db.subscriptions == old(db.subscriptions)[SubscriptionIndex(old(db.subscriptions), id).value := r.value])
    ensures r.Err? ==> db.subscriptions == old(db.subscriptions)
    ensures db.classes == old(db.classes) && db.students == old(db.students)
    ensures db.registrations == old(db.registrations)
    ensures db.nextClassId == old(db.nextClassId) && db.nextSubscriptionId == old(db.nextSubscriptionId)
    ensures db.Valid()
    ensures old(db.SessionsKept()) ==> db.SessionsKept()
  {
    var found := SubscriptionIndex(db.subscriptions, id);
    if found.None? {
      return Err(SubscriptionNotFound);
    }
    var i := found.value;
    var s := db.subscriptions[i];
    if !IsActive(s) {
      return Err(NotActive);
    }
    if RemainingSessions(s) <= 0 {
      return Err(NoneRemaining);
    }
    if s.endDate.Some? && s.endDate.value < today {
      return Err(Expired);
    }
    var used := s.(usedSessions := s.usedSessions + 1);
    db.subscriptions := db.subscriptions[i := used];
    return Ok(used);
  }

  /** `is_active = False` on the last session: the property has no setter, the
    * `AttributeError` is caught by `except Exception`, the session rolls back. */
  const NoSetter: HttpError :=
    HttpError(InternalServerError, "Failed to update subscription: property 'is_active' of 'Subscription' object has no setter")

  /** `use_subscription_session` as written. */
  function UseOutcomeAsWritten(subs: seq<Subscription>, id: int, today: int): Result<Subscription>
  {
    match UseOutcome(subs, id, today)
    case Err(e) => Err(e)
    case Ok(used) => if RemainingSessions(used) == 0 then Err(NoSetter) else Ok(used)
  }

  /** As written the last session of a package can never be used: it fails with a server
    * error and nothing is recorded. Every other request is answered as intended. */
  lemma LastSessionLostAsWritten(subs: seq<Subscription>, id: int, today: int)
    ensures UseOutcomeAsWritten(subs, id, today).Ok? ==> RemainingSessions(UseOutcomeAsWritten(subs, id, today).value) > 0
    ensures UseOutcome(subs, id, today).Ok? && RemainingSessions(UseOutcome(subs, id, today).value) == 0
      ==> UseOutcomeAsWritten(subs, id, today) == Err(NoSetter)
    ensures UseOutcomeAsWritten(subs, id, today) != Err(NoSetter) ==> UseOutcomeAsWritten(subs, id, today) == UseOutcome(subs, id, today)
  {
  }

  // ---------------------------------------------------------------------------
  // delete_subscription

  /** The rows without the one at `i`, the others in order. */
  function Remove(subs: seq<Subscription>, i: nat): (r: seq<Subscription>)
    requires i < |subs|
    ensures |r| == |subs| - 1
    ensures forall k :: 0 <= k < i ==> r[k] == subs[k]
    ensures forall k :: i <= k < |r| ==> r[k] == subs[k + 1]
  {
    subs[..i] + subs[i + 1..]
  }

  /** Exactly that one row goes. */
  lemma RemoveCount(subs: seq<Subscription>, i: nat)
    requires i < |subs|
    ensures multiset(Remove(subs, i)) == multiset(subs) - multiset{subs[i]}
  {
    assert subs == subs[..i] + [subs[i]] + subs[i + 1..];
  }

  /** Deleting keeps the ids distinct and below the next one. */
  lemma RemoveKeepsKeys(subs: seq<Subscription>, next: int, i: nat)
    requires SubscriptionKeys(subs, next) && i < |subs|
    ensures SubscriptionKeys(Remove(subs, i), next)
  {
    var r := Remove(subs, i);
    forall a, b | 0 <= a < b < |r|
      ensures r[a].id != r[b].id
    {
      var a' := if a < i then a else a + 1;
      var b' := if b < i then b else b + 1;
      assert r[a] == subs[a'] && r[b] == subs[b'];
    }
  }

  /** Deleting a row keeps every remaining row within its package. */
  lemma RemoveKeepsWithinPackage(subs: seq<Subscription>, i: nat)
    requires SessionsWithinPackage(subs) && i < |subs|
    ensures SessionsWithinPackage(Remove(subs, i))
  {
    var r := Remove(subs, i);
    forall k | 0 <= k < |r|
      ensures 0 <= r[k].usedSessions <= r[k].totalSessions
    {
      assert r[k] == subs[if k < i then k else k + 1];
    }
  }

  /** With distinct ids, deleting removes that subscription and keeps every other one. */
  lemma RemoveById(subs: seq<Subscription>, next: int, id: int)
    requires SubscriptionKeys(subs, next) && SubscriptionIndex(subs, id).Some?
    ensures var r := Remove(subs, SubscriptionIndex(subs, id).value);
      SubscriptionIndex(r, id).None? && SubscriptionKeys(r, next)
      && forall k :: 0 <= k < |subs| && subs[k].id != id ==> subs[k] in r
  {
    var i := SubscriptionIndex(subs, id).value;
    var r := Remove(subs, i);
    RemoveKeepsKeys(subs, next, i);
    forall k | 0 <= k < |r|
      ensures r[k].id != id
    {
      var k' := if k < i then k else k + 1;
      assert r[k] == subs[k'] && k' != i;
    }
    forall k | 0 <= k < |subs| && subs[k].id != id
      ensures subs[k] in r
    {
      if k < i {
        assert r[k] == subs[k];
      } else {
        assert r[k - 1] == subs[k];
      }
    }
  }

  method DeleteSubscription(db: Database, id: int) returns (r: Option<HttpError>)
    requires db.Valid()
    modifies db
    ensures SubscriptionIndex(old(db.subscriptions), id).None? ==>
      r == Some(SubscriptionNotFound) && db.subscriptions == old(db.subscriptions)
    ensures SubscriptionIndex(old(db.subscriptions), id).Some? ==>
      r.None? && db.subscriptions == Remove(old(db.subscriptions), SubscriptionIndex(old(db.subscriptions), id).value)
    ensures db.classes == old(db.classes) && db.students == old(db.students)
    ensures db.registrations == old(db.registrations)
    ensures db.nextClassId == old(db.nextClassId) && db.nextSubscriptionId == old(db.nextSubscriptionId)
    ensures db.Valid()
    ensures old(db.SessionsKept()) ==> db.SessionsKept()
  {
    var found := SubscriptionIndex(db.subscriptions, id);
    if found.None? {
      return Some(SubscriptionNotFound);
    }
    var remaining := Remove(db.subscriptions, found.value);
    RemoveById(db.subscriptions, db.nextSubscriptionId, id);
    if SessionsWithinPackage(db.subscriptions) {
      RemoveKeepsWithinPackage(db.subscriptions, found.value);
    }
    db.subscriptions := remaining;
    return None;
  }
}
