/**
 * What "on routine viral-load monitoring" means for one adult or child
 * patient, stated declaratively: the guard on the last viral load, the
 * look-back window, and the three criteria. RoutineCalculation.EvaluatePatient
 * computes the same answer the way the source does, with loops and a flag.
 */
module RoutineCriteria {
  import opened Clinical
  import opened ObsOrder

  /** A previous viral load below this many copies/mL counts as suppressed. */
  const SuppressionThreshold: real := 1000.0

  /** Concept ids of regimen-line answers that mark a change of line. */
  const RegimenLineCodes: seq<int> :=
    [6108, 1311, 1312, 1313, 1314, 1315, 6109, 6325, 6326, 6327, 6328]

  /** Everything the calculation has fetched about one patient. */
  datatype PatientRecords = PatientRecords(
    artStart: Option<Date>,           // ART initiation date
    lastVl: Option<Obs>,              // last viral load from a laboratory encounter
    vls: seq<Obs>,                    // viral loads fetched since twelve months before now
    firstRegimen: Option<Obs>,        // first regimen-line observation
    firstAdult: Option<Encounter>,    // first adult follow-up encounter
    firstPaediatric: Option<Encounter>) // first paediatric follow-up encounter

  // -----------------------------------------------------------------------
  // Guard

  /**
   * The patient has an ART initiation date and a dated last viral load that
   * lies strictly inside the look-back window.
   */
  predicate LastVlInWindow(ctx: EvaluationContext, p: PatientRecords) {
    && p.artStart.Some?
    && p.lastVl.Some?
    && p.lastVl.value.date.Some?
    && ctx.InWindow(p.lastVl.value.date.value)
  }

  /** The date of the last viral load (only meaningful once the guard holds). */
  function LatestVlDate(p: PatientRecords): Date
    requires p.lastVl.Some? && p.lastVl.value.date.Some?
  {
    p.lastVl.value.date.value
  }

  // -----------------------------------------------------------------------
  // The look-back window

  predicate DatedInWindow(ctx: EvaluationContext, o: Obs) {
    o.date.Some? && ctx.InWindow(o.date.value)
  }

  /** The viral loads of s dated strictly inside the window, in the order of s. */
  function WindowVls(ctx: EvaluationContext, s: seq<Obs>): seq<Obs> {
    if s == [] then []
    else WindowVls(ctx, s[..|s| - 1])
         + (if DatedInWindow(ctx, s[|s| - 1]) then [s[|s| - 1]] else [])
  }

  // -----------------------------------------------------------------------
  // Criterion A: a viral load more than 6 and at most 9 months after ART start

  predicate EarlyPostInitiation(ctx: EvaluationContext, artStart: Date, o: Obs) {
    o.date.Some?
    && 6 < ctx.monthsSince(artStart, o.date.value)
    && ctx.monthsSince(artStart, o.date.value) <= 9
  }

  predicate CriterionA(ctx: EvaluationContext, artStart: Date, w: seq<Obs>) {
    exists i :: 0 <= i < |w| && EarlyPostInitiation(ctx, artStart, w[i])
  }

  // -----------------------------------------------------------------------
  // Criterion B: a suppressed previous result 12 to 15 months before the
  // current one, "previous" and "current" being the last two by id

  predicate SuppressedThenRetested(ctx: EvaluationContext, previous: Obs, current: Obs) {
    && previous.numeric.Some?
    && previous.date.Some?
    && previous.numeric.value < SuppressionThreshold
    && current.date.Some?
    && previous.date.value < current.date.value
    && ctx.monthsSince(previous.date.value, current.date.value) >= 12
    && ctx.monthsSince(previous.date.value, current.date.value) <= 15
  }

  predicate CriterionB(ctx: EvaluationContext, w: seq<Obs>) {
    |w| > 1 &&
    var sorted := SortById(w);
    SuppressedThenRetested(ctx, sorted[|sorted| - 2], sorted[|sorted| - 1])
  }

  // -----------------------------------------------------------------------
  // Criterion C: a change of regimen line with no viral load between the
  // switch date and the latest viral load

  /** The first adult encounter's date, or else the first paediatric one's. */
  function SwitchDate(p: PatientRecords): Option<Date> {
    if p.firstAdult.Some? && p.firstAdult.value.date.Some? then p.firstAdult.value.date
    else if p.firstPaediatric.Some? then p.firstPaediatric.value.date
    else None
  }

  /** The first regimen-line observation predates the latest viral load and names a line change. */
  predicate RegimenChangeBefore(p: PatientRecords, latest: Date) {
    && p.firstRegimen.Some?
    && p.firstRegimen.value.date.Some?
    && p.firstRegimen.value.date.value < latest
    && p.firstRegimen.value.coded.Some?
    && p.firstRegimen.value.coded.value in RegimenLineCodes
  }

  predicate Intervening(o: Obs, switchDate: Date, latest: Date) {
    o.date.Some? && switchDate < o.date.value < latest
  }

  predicate CriterionC(p: PatientRecords, latest: Date) {
    && SwitchDate(p).Some?
    && RegimenChangeBefore(p, latest)
    && !exists i :: 0 <= i < |p.vls| && Intervening(p.vls[i], SwitchDate(p).value, latest)
  }

  // -----------------------------------------------------------------------
  // The classification

  /**
   * A patient is on routine monitoring when the guard holds and criterion A
   * or B holds, or else, with at least one viral load in the window,
   * criterion C holds. No patient is classified without a recent last
   * viral load and at least one fetched viral load inside the window.
   */
  predicate OnRoutine(ctx: EvaluationContext, p: PatientRecords)
    ensures OnRoutine(ctx, p) ==> LastVlInWindow(ctx, p) && |WindowVls(ctx, p.vls)| > 0
  {
    LastVlInWindow(ctx, p) &&
    var w := WindowVls(ctx, p.vls);
    || CriterionA(ctx, p.artStart.value, w)
    || CriterionB(ctx, w)
    || (|w| > 0 && CriterionC(p, LatestVlDate(p)))
  }

  /**
   * The inputs on which the source never dereferences a null: once the
   * guard holds, every fetched viral load is dated (its date is compared
   * without a null test), and when criterion C is reached with a switch
   * date, the first regimen-line observation is dated and, if it predates
   * the latest viral load, has a coded value.
   */
  predicate NoNullDereference(ctx: EvaluationContext, p: PatientRecords) {
    LastVlInWindow(ctx, p) ==>
      && (forall i :: 0 <= i < |p.vls| ==> p.vls[i].date.Some?)
      && var w := WindowVls(ctx, p.vls);
         (&& !CriterionA(ctx, p.artStart.value, w)
          && !CriterionB(ctx, w)
          && |w| > 0
          && p.firstRegimen.Some?
          && SwitchDate(p).Some?)
         ==>
         && p.firstRegimen.value.date.Some?
         && (p.firstRegimen.value.date.value < LatestVlDate(p) ==> p.firstRegimen.value.coded.Some?)
  }
}
