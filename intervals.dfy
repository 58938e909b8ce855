/** Time intervals of the weekly timetable and the overlap test all four layout copies share. */
module Intervals {

  /** The frontend `TimeSlot`: minutes from midnight. Nothing forces `end > start`. */
  datatype TimeSlot = TimeSlot(start: int, end: int)

  /** Strict overlap, written as in ClassesManagement: `a.start < b.end && a.end > b.start`.
      Intervals that merely touch at an endpoint do not overlap. */
  predicate Overlaps(a: TimeSlot, b: TimeSlot) {
    a.start < b.end && a.end > b.start
  }

  /** The spelling the other three copies use for the same test, with `existing` a group member
      and `candidate` the class being placed: `!(e.end <= c.start || c.end <= e.start)`. */
  predicate OverlapsNegatedForm(existing: TimeSlot, candidate: TimeSlot) {
    !(existing.end <= candidate.start || candidate.end <= existing.start)
  }

  lemma NegatedFormAgrees(existing: TimeSlot, candidate: TimeSlot)
    ensures OverlapsNegatedForm(existing, candidate) <==> Overlaps(candidate, existing)
  {
  }

  lemma OverlapsSymmetric(a: TimeSlot, b: TimeSlot)
    ensures Overlaps(a, b) <==> Overlaps(b, a)
  {
  }

  /** Back-to-back classes (one ends when the other starts) do not overlap, in either order. */
  lemma TouchingDoesNotOverlap(a: TimeSlot, b: TimeSlot)
    requires a.end == b.start
    ensures !Overlaps(a, b) && !Overlaps(b, a)
  {
  }
}
