/**
 * Properties of the routine viral-load classification, stated on the raw
 * records of a patient wherever possible, so that they read as promises
 * about the calculation rather than about its helper definitions.
 */
module RoutineProperties {
  import opened Clinical
  import opened ObsOrder
  import opened RoutineCriteria
  import opened RoutineCalculation

  // -----------------------------------------------------------------------
  // The window filter

  /** The window holds exactly the fetched viral loads dated strictly inside it. */
  lemma {:induction false} WindowVlsMembers(ctx: EvaluationContext, s: seq<Obs>, o: Obs)
    ensures o in WindowVls(ctx, s) <==> o in s && DatedInWindow(ctx, o)
  {
    if s != [] {
      var init, last := s[..|s| - 1], s[|s| - 1];
      WindowVlsMembers(ctx, init, o);
      assert s == init + [last];
    }
  }

  /** Filtering a concatenation filters each part and keeps them in order. */
  lemma {:induction false} WindowVlsAppend(ctx: EvaluationContext, a: seq<Obs>, b: seq<Obs>)
    ensures WindowVls(ctx, a + b) == WindowVls(ctx, a) + WindowVls(ctx, b)
  {
    if b == [] {
      assert a + b == a;
    } else {
      var init, last := b[..|b| - 1], b[|b| - 1];
      WindowVlsAppend(ctx, a, init);
      assert a + b == (a + init) + [last];
      assert (a + b)[..|a + b| - 1] == a + init;
    }
  }

  // -----------------------------------------------------------------------
  // The guard

  /**
   * Without an ART initiation date, without a dated last viral load, or with
   * a last viral load on or outside either end of the window, the patient is
   * not on routine monitoring.
   */
  lemma NotRoutineWithoutRecentLastVl(ctx: EvaluationContext, p: PatientRecords)
    ensures p.artStart.None? ==> !OnRoutine(ctx, p)
    ensures p.lastVl.None? || p.lastVl.value.date.None? ==> !OnRoutine(ctx, p)
    ensures p.lastVl.Some? && p.lastVl.value.date.Some?
            && (p.lastVl.value.date.value <= ctx.LowerLimit() || ctx.now <= p.lastVl.value.date.value)
            ==> !OnRoutine(ctx, p)
  {
  }

  // -----------------------------------------------------------------------
  // Criterion A

  /**
   * Once the guard holds, one fetched viral load inside the window dated
   * more than 6 and at most 9 months after ART initiation is enough.
   */
  lemma EarlyVlMakesRoutine(ctx: EvaluationContext, p: PatientRecords, o: Obs)
    requires LastVlInWindow(ctx, p)
    requires o in p.vls && DatedInWindow(ctx, o)
    requires EarlyPostInitiation(ctx, p.artStart.value, o)
    ensures OnRoutine(ctx, p)
  {
    var w := WindowVls(ctx, p.vls);
    WindowVlsMembers(ctx, p.vls, o);
    var i :| 0 <= i < |w| && w[i] == o;
    assert CriterionA(ctx, p.artStart.value, w);
  }

  /**
   * A patient whose one fetched viral load is also the last one, with no
   * regimen-line observation: on routine monitoring exactly when that viral
   * load is more than 6 and at most 9 months after ART initiation (so 6
   * months is too early and 9 months is still in time).
   */
  lemma OneVlPatient(ctx: EvaluationContext, art: Date, vl: Obs,
                     adult: Option<Encounter>, paediatric: Option<Encounter>)
    requires DatedInWindow(ctx, vl)
    ensures var p := PatientRecords(Some(art), Some(vl), [vl], None, adult, paediatric);
            OnRoutine(ctx, p)
            <==> 6 < ctx.monthsSince(art, vl.date.value) <= 9
  {
    var p := PatientRecords(Some(art), Some(vl), [vl], None, adult, paediatric);
    assert WindowVls(ctx, p.vls) == [vl] by {
      assert p.vls[..0] == [];
    }
  }

  // -----------------------------------------------------------------------
  // Criterion B

  /**
   * Criterion B compares the viral load with the largest id in the window
   * ("current") with the one with the largest id among the others
   * ("previous"); both are in the window.
   */
  lemma {:induction false} CriterionBPicksLastTwoById(w: seq<Obs>)
    requires |w| > 1
    ensures var s := SortById(w);
            var current, previous := s[|s| - 1], s[|s| - 2];
            && current in w && previous in w
            && (forall o :: o in w ==> o.id <= current.id)
            && (forall o :: o in multiset(w) - multiset{current} ==> o.id <= previous.id)
  {
    var s := SortById(w);
    var n := |s|;
    SortPermutes(w);
    SortTopTwo(w);
    var init := s[..n - 1];
    assert s == init + [s[n - 1]];
    assert multiset(s) == multiset(init) + multiset{s[n - 1]};
    assert s[n - 1] in s && s[n - 2] in s;
    forall o | o in w
      ensures o.id <= s[n - 1].id
    {
      assert o in multiset(s);
    }
    forall o | o in multiset(w) - multiset{s[n - 1]}
      ensures o.id <= s[n - 2].id
    {
      assert o in multiset(init);
    }
  }

  /**
   * Laws assumed of the calendar utilities, whose code is not part of this
   * model: a date before now, moved back twelve months, is not after the
   * window's lower limit; and twelve whole months from a to b put a no later
   * than b moved back twelve months. With day-of-month clamping the first
   * law fails when now is 29 February (see FirstCalendarLawIsNeeded). The
   * second depends on how monthsSince counts: one that counts calendar
   * months, or whole months with day clamping, breaks it on ordinary dates
   * (see SecondCalendarLawIsNeeded).
   */
  ghost predicate CalendarLaws(ctx: EvaluationContext) {
    && (forall d :: d < ctx.now ==> ctx.addMonths(d, -12) <= ctx.LowerLimit())
    && (forall a, b :: ctx.monthsSince(a, b) >= 12 ==> a <= ctx.addMonths(b, -12))
  }

  /**
   * Under those laws criterion B can never hold: the two viral loads it
   * compares both lie strictly inside the same twelve-month window, so under
   * the laws they cannot be twelve months apart.
   */
  lemma CriterionBNeverHolds(ctx: EvaluationContext, vls: seq<Obs>)
    requires CalendarLaws(ctx)
    ensures !CriterionB(ctx, WindowVls(ctx, vls))
  {
    var w := WindowVls(ctx, vls);
    if |w| > 1 {
      var s := SortById(w);
      var current, previous := s[|s| - 1], s[|s| - 2];
      CriterionBPicksLastTwoById(w);
      WindowVlsMembers(ctx, vls, current);
      WindowVlsMembers(ctx, vls, previous);
      if current.date.Some? && previous.date.Some? {
        var c, q := current.date.value, previous.date.value;
        assert ctx.InWindow(c) && ctx.InWindow(q);
        assert ctx.addMonths(c, -12) <= ctx.LowerLimit();
        assert ctx.monthsSince(q, c) >= 12 ==> q <= ctx.addMonths(c, -12);
      }
    }
  }

  /**
   * A calendar that shifts "now" farther than the dates just before it, as
   * day-of-month clamping does when now is 29 February (366 days against
   * 365): now moves back 90, every other date 15 (only a shift of -12 is
   * ever asked for), so the image of now lands before theirs. monthsSince
   * counts twelve months exactly when the second law allows it.
   */
  function ClampedAtNowCalendar(): EvaluationContext {
    EvaluationContext(
      100,
      (a: Date, b: Date) =>
        if b == 100 then (if a <= 10 then 12 else 0)
        else (if b - a >= 15 then 12 else 0),
      (d: Date, k: int) => if d == 100 then 10 else d - 15)
  }

  /**
   * The first calendar law cannot be dropped from CriterionBNeverHolds: on a
   * calendar that keeps the second law but not the first, a suppressed
   * viral load and a later one, both inside the window, meet criterion B.
   */
  lemma FirstCalendarLawIsNeeded()
    ensures var ctx := ClampedAtNowCalendar();
            var previous := Obs(1, Some(12), Some(500.0), None);
            var current := Obs(2, Some(30), None, None);
            && (forall a, b :: ctx.monthsSince(a, b) >= 12 ==> a <= ctx.addMonths(b, -12))
            && !CalendarLaws(ctx)
            && CriterionB(ctx, WindowVls(ctx, [previous, current]))
  {
    var ctx := ClampedAtNowCalendar();
    var previous := Obs(1, Some(12), Some(500.0), None);
    var current := Obs(2, Some(30), None, None);
    assert ctx.addMonths(30, -12) > ctx.LowerLimit();
    var vls := [previous, current];
    assert vls[..1] == [previous] && [previous][..0] == [];
    assert WindowVls(ctx, [previous]) == [previous];
    assert WindowVls(ctx, vls) == WindowVls(ctx, [previous]) + [current];
    assert SortById([previous]) == [previous];
    assert SortById(vls) == [previous, current];
  }

  /**
   * A calendar whose monthsSince counts twelve months once ten days have
   * passed, as a count of calendar months or of clamped whole months can
   * over a short span; every date moves back 15, so the first law holds.
   */
  function CoarseMonthsCalendar(): EvaluationContext {
    EvaluationContext(
      100,
      (a: Date, b: Date) => if b - a >= 10 then 12 else 0,
      (d: Date, k: int) => d - 15)
  }

  /**
   * The second calendar law cannot be dropped from CriterionBNeverHolds: on
   * a calendar that keeps the first law but not the second, a suppressed
   * viral load and a later one, both inside the window, meet criterion B.
   */
  lemma SecondCalendarLawIsNeeded()
    ensures var ctx := CoarseMonthsCalendar();
            var previous := Obs(1, Some(88), Some(500.0), None);
            var current := Obs(2, Some(98), None, None);
            && (forall d :: d < ctx.now ==> ctx.addMonths(d, -12) <= ctx.LowerLimit())
            && !CalendarLaws(ctx)
            && CriterionB(ctx, WindowVls(ctx, [previous, current]))
  {
    var ctx := CoarseMonthsCalendar();
    var previous := Obs(1, Some(88), Some(500.0), None);
    var current := Obs(2, Some(98), None, None);
    assert ctx.monthsSince(88, 98) >= 12 && 88 > ctx.addMonths(98, -12);
    var vls := [previous, current];
    assert vls[..1] == [previous] && [previous][..0] == [];
    assert WindowVls(ctx, [previous]) == [previous];
    assert WindowVls(ctx, vls) == WindowVls(ctx, [previous]) + [current];
    assert SortById([previous]) == [previous];
    assert SortById(vls) == [previous, current];
  }

  // -----------------------------------------------------------------------
  // Criterion C

  /**
   * Criterion C runs only after A and B have failed, so whatever the
   * regimen-line observation and the follow-up encounters are, a patient
   * that A or B classifies stays classified.
   */
  lemma CriterionCCannotOverride(ctx: EvaluationContext, p: PatientRecords,
                                 regimen: Option<Obs>, adult: Option<Encounter>,
                                 paediatric: Option<Encounter>)
    requires LastVlInWindow(ctx, p)
    requires CriterionA(ctx, p.artStart.value, WindowVls(ctx, p.vls))
             || CriterionB(ctx, WindowVls(ctx, p.vls))
    ensures OnRoutine(ctx, p.(firstRegimen := regimen, firstAdult := adult, firstPaediatric := paediatric))
  {
  }

  /**
   * When the guard holds, A and B fail and the window is not empty, the
   * patient is on routine monitoring exactly when there is a switch date
   * (adult follow-up first, paediatric as fallback), the first regimen-line
   * observation predates the latest viral load and names a line change, and
   * no fetched viral load lies strictly between the switch date and the
   * latest viral load.
   */
  lemma CriterionCExactly(ctx: EvaluationContext, p: PatientRecords)
    requires LastVlInWindow(ctx, p)
    requires !CriterionA(ctx, p.artStart.value, WindowVls(ctx, p.vls))
    requires !CriterionB(ctx, WindowVls(ctx, p.vls))
    requires |WindowVls(ctx, p.vls)| > 0
    ensures OnRoutine(ctx, p) <==>
            && SwitchDate(p).Some?
            && p.firstRegimen.Some?
            && p.firstRegimen.value.date.Some?
            && p.firstRegimen.value.date.value < LatestVlDate(p)
            && p.firstRegimen.value.coded.Some?
            && p.firstRegimen.value.coded.value in RegimenLineCodes
            && forall o :: o in p.vls ==> !Intervening(o, SwitchDate(p).value, LatestVlDate(p))
  {
  }

  /** The switch date is the adult encounter's when it has one, else the paediatric one's. */
  lemma SwitchDateFallback(p: PatientRecords)
    ensures p.firstAdult.Some? && p.firstAdult.value.date.Some? ==> SwitchDate(p) == p.firstAdult.value.date
    ensures (p.firstAdult.None? || p.firstAdult.value.date.None?) && p.firstPaediatric.Some?
            ==> SwitchDate(p) == p.firstPaediatric.value.date
    ensures (p.firstAdult.None? || p.firstAdult.value.date.None?) && p.firstPaediatric.None?
            ==> SwitchDate(p).None?
  {
  }

  // -----------------------------------------------------------------------
  // Per-patient independence and the precondition

  /**
   * A patient's classification depends only on that patient's entries in
   * the look-ups: two runs whose look-ups agree on the patient classify it
   * the same, whatever else they hold.
   */
  lemma ClassificationIsPerPatient(ctx: EvaluationContext, d1: CohortRecords, d2: CohortRecords, pId: int)
    requires Lookup(d1.artStart, pId) == Lookup(d2.artStart, pId)
    requires Lookup(d1.lastVl, pId) == Lookup(d2.lastVl, pId)
    requires Lookup(d1.vls, pId) == Lookup(d2.vls, pId)
    requires Lookup(d1.firstRegimen, pId) == Lookup(d2.firstRegimen, pId)
    requires Lookup(d1.firstAdult, pId) == Lookup(d2.firstAdult, pId)
    requires Lookup(d1.firstPaediatric, pId) == Lookup(d2.firstPaediatric, pId)
    ensures RecordsOf(d1, pId) == RecordsOf(d2, pId)
    ensures OnRoutine(ctx, RecordsOf(d1, pId)) == OnRoutine(ctx, RecordsOf(d2, pId))
  {
  }

  /**
   * Complete records never reach a null dereference: every fetched viral
   * load dated, and the regimen-line observation, when present, dated and
   * coded.
   */
  lemma CompleteRecordsAreSafe(ctx: EvaluationContext, p: PatientRecords)
    requires forall o :: o in p.vls ==> o.date.Some?
    requires p.firstRegimen.Some? ==> p.firstRegimen.value.date.Some? && p.firstRegimen.value.coded.Some?
    ensures NoNullDereference(ctx, p)
  {
  }
}
