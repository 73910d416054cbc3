/**
 * The clinical records the routine viral-load calculation reads, as plain
 * values. They are fetched once per report run by the host platform and are
 * never changed by the calculation.
 */
module Clinical {

  /** A value the host platform may leave null. */
  datatype Option<+T> = None | Some(value: T)

  /**
   * An instant on the platform's clock. Only the order of instants is used
   * directly (Java's `Date.before` / `Date.after` are strict comparisons);
   * all month arithmetic goes through the calendar of the EvaluationContext.
   */
  type Date = int

  /**
   * An observation: its database identifier, its timestamp, and its numeric
   * and coded values (the coded value is the concept id of the answer).
   * Every one of the last three may be null.
   */
  datatype Obs = Obs(id: int, date: Option<Date>, numeric: Option<real>, coded: Option<int>)

  /** An encounter; the calculation only reads its timestamp. */
  datatype Encounter = Encounter(date: Option<Date>)

  /**
   * What one evaluation run is given besides the records: the evaluation
   * instant and the two calendar operations of the reporting utilities,
   * whose bodies are not part of this model and are therefore left
   * uninterpreted.
   *   monthsSince(a, b): whole months from a to b
   *   addMonths(d, k):   the instant k months after d (k may be negative)
   */
  datatype EvaluationContext = EvaluationContext(
    now: Date,
    monthsSince: (Date, Date) -> int,
    addMonths: (Date, int) -> Date)
  {
    /** Lower end of the 12-month look-back window: twelve months before now. */
    function LowerLimit(): Date {
      addMonths(now, -12)
    }

    /**
     * True when the instant lies strictly inside the look-back window;
     * both ends are excluded.
     */
    predicate InWindow(d: Date) {
      LowerLimit() < d < now
    }
  }
}
