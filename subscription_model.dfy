/**
 * The `Subscription` record of the backend: a learning package with a number of sessions, of
 * which some are used. `remaining_sessions` and `is_active` are derived from the two counters
 * and never stored.
 */
module SubscriptionModel {
  import opened Common

  /** Dates are day numbers (`date.toordinal()`); both columns may be null. */
  datatype Subscription = Subscription(
    id: int,
    studentId: int,
    packageName: string,
    startDate: Option<int>,
    endDate: Option<int>,
    totalSessions: int,
    usedSessions: int)

  /** `remaining_sessions`: what is left of the package. */
  function RemainingSessions(s: Subscription): int
  {
    s.totalSessions - s.usedSessions
  }

  /** `is_active`: some session is left. */
  predicate IsActive(s: Subscription)
  {
    RemainingSessions(s) > 0
  }

  /** A new row as `create_subscription` builds it, with `used_sessions=0` passed explicitly. */
  function NewSubscription(id: int, studentId: int, packageName: string, startDate: int, endDate: int,
                           totalSessions: int): (r: Subscription)
    ensures r.id == id && r.studentId == studentId && r.packageName == packageName
    ensures r.startDate == Some(startDate) && r.endDate == Some(endDate)
    ensures r.totalSessions == totalSessions && r.usedSessions == 0
  {
    Subscription(id, studentId, packageName, Some(startDate), Some(endDate), totalSessions, 0)
  }

  /** The row after one more session is used; nothing else changes. */
  function UseOne(s: Subscription): (r: Subscription)
    ensures r.usedSessions == s.usedSessions + 1
    ensures r.(usedSessions := s.usedSessions) == s
  {
    s.(usedSessions := s.usedSessions + 1)
  }

  /** A subscription is active exactly when fewer sessions are used than bought. */
  lemma ActiveIffSessionsLeft(s: Subscription)
    ensures IsActive(s) <==> s.usedSessions < s.totalSessions
    ensures RemainingSessions(s) + s.usedSessions == s.totalSessions
  {
  }

  /** A fresh package has all its sessions left, and is active when it has at least one. */
  lemma FreshSubscription(id: int, studentId: int, packageName: string, startDate: int, endDate: int,
                          totalSessions: int)
    ensures RemainingSessions(NewSubscription(id, studentId, packageName, startDate, endDate, totalSessions))
         == totalSessions
    ensures IsActive(NewSubscription(id, studentId, packageName, startDate, endDate, totalSessions))
        <==> totalSessions >= 1
  {
  }

  /** Using a session takes exactly one off what remains; the subscription stops being active
    * exactly when the last session is used. */
  lemma UseOneAccounting(s: Subscription)
    ensures RemainingSessions(UseOne(s)) == RemainingSessions(s) - 1
    ensures IsActive(s) && !IsActive(UseOne(s)) <==> UseOne(s).usedSessions == s.totalSessions
    ensures IsActive(s) ==> RemainingSessions(UseOne(s)) >= 0
  {
  }
}
