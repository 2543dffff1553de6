/** Half-open time spans [start, end) and the overlap test both booking paths share. */
module Intervals {
  import opened Calendar

  /** A span of minutes, start included and end excluded. */
  datatype Span = Span(start: int, end: int)

  /**
   * The collision formula: `(StartA < EndB) && (EndA > StartB)`. Spans that
   * only touch (`endA == startB`) do not overlap.
   */
  predicate Overlaps(startA: int, endA: int, startB: int, endB: int) {
    startA < endB && endA > startB
  }

  /** It does not matter which span is the proposed one. */
  lemma OverlapsSymmetric(startA: int, endA: int, startB: int, endB: int)
    ensures Overlaps(startA, endA, startB, endB) == Overlaps(startB, endB, startA, endA)
  {
  }

  /** Minute `t` lies in [start, end). */
  predicate Covers(start: int, end: int, t: int) {
    start <= t < end
  }

  /** Two non-empty spans overlap exactly when they share a minute. */
  lemma OverlapsIffSharedMinute(startA: int, endA: int, startB: int, endB: int)
    requires startA < endA && startB < endB
    ensures Overlaps(startA, endA, startB, endB) <==>
            exists t :: Covers(startA, endA, t) && Covers(startB, endB, t)
  {
    if Overlaps(startA, endA, startB, endB) {
      var t := if startA < startB then startB else startA;
      assert Covers(startA, endA, t) && Covers(startB, endB, t);
    }
  }

  /** A span inside business hours of its own day: [10:00, 22:00]. */
  predicate InBusinessHours(start: int, end: int) {
    var day := DateOf(start);
    Midnight(day) + OpeningTime <= start && end <= Midnight(day) + ClosingTime
  }

  /** Spans kept inside business hours of different days never overlap. */
  lemma DifferentDaysOfBusinessDoNotOverlap(startA: int, endA: int, startB: int, endB: int)
    requires InBusinessHours(startA, endA) && InBusinessHours(startB, endB)
    requires DateOf(startA) != DateOf(startB)
    ensures !Overlaps(startA, endA, startB, endB)
  {
    var dA, dB := DateOf(startA), DateOf(startB);
    if dA < dB {
      assert Midnight(dA) + MinutesPerDay <= Midnight(dB);
    } else {
      assert Midnight(dB) + MinutesPerDay <= Midnight(dA);
    }
  }
}
