/**
 * The routine viral-load monitoring calculation for adults and children,
 * step by step as the source runs it: one pass over the cohort, and for each
 * patient a filter loop, the criterion-A loop, a sort for criterion B and
 * the criterion-C exclusion loop, all driving one boolean flag.
 */
module RoutineCalculation {
  import opened Clinical
  import opened ObsOrder
  import opened RoutineCriteria

  /**
   * The batched look-ups of one run, keyed by patient id. A patient missing
   * from a map is a patient for whom the look-up returned nothing.
   */
  datatype CohortRecords = CohortRecords(
    artStart: map<int, Date>,
    lastVl: map<int, Obs>,
    vls: map<int, seq<Obs>>,
    firstRegimen: map<int, Obs>,
    firstAdult: map<int, Encounter>,
    firstPaediatric: map<int, Encounter>)

  function Lookup<V>(m: map<int, V>, pId: int): Option<V> {
    if pId in m then Some(m[pId]) else None
  }

  /** The records of one patient, read out of each look-up. */
  function RecordsOf(data: CohortRecords, pId: int): PatientRecords {
    PatientRecords(
      Lookup(data.artStart, pId),
      Lookup(data.lastVl, pId),
      if pId in data.vls then data.vls[pId] else [],
      Lookup(data.firstRegimen, pId),
      Lookup(data.firstAdult, pId),
      Lookup(data.firstPaediatric, pId))
  }

  /** Classifies one patient. */
  method EvaluatePatient(ctx: EvaluationContext, p: PatientRecords) returns (isOnRoutine: bool)
    requires NoNullDereference(ctx, p)
    ensures isOnRoutine == OnRoutine(ctx, p)
  {
    isOnRoutine := false;
    if p.artStart.Some? && p.lastVl.Some? && p.lastVl.value.date.Some? {
      var artInitiationDate := p.artStart.value;
      var latestVlDate := p.lastVl.value.date.value;
      // the last viral load must lie strictly inside the window
      if ctx.LowerLimit() < latestVlDate && latestVlDate < ctx.now {
        // the fetched viral loads dated strictly inside the window
        var inWindow: seq<Obs> := [];
        var i := 0;
        while i < |p.vls|
          invariant 0 <= i <= |p.vls|
          invariant inWindow == WindowVls(ctx, p.vls[..i])
        {
          var o := p.vls[i];
          assert p.vls[..i + 1][..i] == p.vls[..i];
          if ctx.LowerLimit() < o.date.value && o.date.value < ctx.now {
            inWindow := inWindow + [o];
          }
          i := i + 1;
        }
        assert p.vls[..|p.vls|] == p.vls;
        ghost var w := inWindow;

        // criterion A
        if |inWindow| >= 1 {
          var j := 0;
          while j < |inWindow|
            invariant 0 <= j <= |inWindow|
            invariant !isOnRoutine
            invariant forall k :: 0 <= k < j ==> !EarlyPostInitiation(ctx, artInitiationDate, inWindow[k])
          {
            var vlObs := inWindow[j];
            if vlObs.date.Some? {
              var vlDate := vlObs.date.value;
              if ctx.monthsSince(artInitiationDate, vlDate) > 6
                && ctx.monthsSince(artInitiationDate, vlDate) <= 9
              {
                isOnRoutine := true;
                break;
              }
            }
            j := j + 1;
          }
        }
        assert isOnRoutine == CriterionA(ctx, artInitiationDate, w);

        // criterion B
        if |inWindow| > 1 {
          inWindow := SortById(inWindow);
          var currentObs := inWindow[|inWindow| - 1];
          var previousObs := inWindow[|inWindow| - 2];
          if previousObs.numeric.Some? && previousObs.date.Some?
            && previousObs.numeric.value < SuppressionThreshold
            && currentObs.date.Some?
            && previousObs.date.value < currentObs.date.value
          {
            if ctx.monthsSince(previousObs.date.value, currentObs.date.value) >= 12
              && ctx.monthsSince(previousObs.date.value, currentObs.date.value) <= 15
            {
              isOnRoutine := true;
            }
          }
        }
        assert |inWindow| == |w|;
        assert isOnRoutine == (CriterionA(ctx, artInitiationDate, w) || CriterionB(ctx, w));

        // criterion C
        if !isOnRoutine && |inWindow| > 0 {
          var finalDate: Option<Date> := None;
          if p.firstAdult.Some? {
            finalDate := p.firstAdult.value.date;
          }
          if finalDate.None? && p.firstPaediatric.Some? {
            finalDate := p.firstPaediatric.value.date;
          }
          assert finalDate == SwitchDate(p);
          if p.firstRegimen.Some? && finalDate.Some? {
            var obs := p.firstRegimen.value;
            if obs.date.value < latestVlDate && obs.coded.value in RegimenLineCodes {
              isOnRoutine := true;
              // excluded when any fetched viral load lies between the two dates
              var k := 0;
              while k < |p.vls|
                invariant 0 <= k <= |p.vls|
                invariant isOnRoutine
                invariant forall m :: 0 <= m < k ==> !Intervening(p.vls[m], finalDate.value, latestVlDate)
              {
                var obs1 := p.vls[k];
                if obs1.date.Some? && finalDate.value < obs1.date.value && obs1.date.value < latestVlDate {
                  isOnRoutine := false;
                  break;
                }
                k := k + 1;
              }
            }
          }
        }
      }
    }
  }

  /**
   * Classifies every patient of the cohort: the result has exactly the
   * cohort's ids as keys, and each patient's entry is that patient's
   * classification from that patient's own records alone.
   */
  method Evaluate(ctx: EvaluationContext, cohort: seq<int>, data: CohortRecords)
    returns (result: map<int, bool>)
    requires forall i :: 0 <= i < |cohort| ==> NoNullDereference(ctx, RecordsOf(data, cohort[i]))
    ensures forall pId :: pId in result <==> pId in cohort
    ensures forall pId :: pId in result ==> result[pId] == OnRoutine(ctx, RecordsOf(data, pId))
  {
    result := map[];
    for i := 0 to |cohort|
      invariant forall pId :: pId in result <==> pId in cohort[..i]
      invariant forall pId :: pId in result ==> result[pId] == OnRoutine(ctx, RecordsOf(data, pId))
    {
      var pId := cohort[i];
      var isOnRoutine := EvaluatePatient(ctx, RecordsOf(data, pId));
      result := result[pId := isOnRoutine];
    }
    assert cohort[..|cohort|] == cohort;
  }
}
