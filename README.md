# Routine viral-load monitoring for adults and children

A Dafny model of the per-patient classifier of the EPTS reports module
(`RoutineForAdultsAndChildrenCalculation.evaluate`). It decides, for each
patient of a cohort, whether the patient is on *routine* viral-load (VL)
monitoring. The records it reads are fetched once per run, and they are
inputs here:

- the ART initiation date,
- the last VL from a laboratory encounter,
- the VLs fetched since twelve months before the evaluation instant,
- the first regimen-line observation,
- the first adult and first paediatric follow-up encounters.

For each patient the calculation does four things:

1. **Guard.** It needs an ART date and a dated last VL that lies strictly
   inside the look-back window `(now - 12 months, now)`.
2. **Criterion A.** Some VL in the window is more than 6 and at most 9
   months after ART initiation.
3. **Criterion B.** It sorts the window's VLs by observation id and takes
   the last two. The previous one must be suppressed (below 1000 copies/mL),
   dated before the current one, and 12 to 15 months earlier.
4. **Criterion C.** This runs only when A and B fail. It needs a switch
   date: the first adult encounter's date, or else the first paediatric
   one's. It needs the first regimen-line observation to predate the latest
   VL and to name a line change. No fetched VL may lie strictly between the
   switch date and the latest VL.

Files:

- `clinical.dfy`: module `Clinical`. Observations, encounters, dates as
  ordered instants, and the evaluation context. The context holds the
  instant "now" and the two calendar operations `monthsSince` and
  `addMonths`, which are left uninterpreted.
- `obs_order.dfy`: module `ObsOrder`. The library sort by observation id,
  as a stable insertion sort. It is proved sorted, a permutation, and
  stable, and it is the only sequence with all three properties.
- `routine_criteria.dfy`: module `RoutineCriteria`. The classification
  stated declaratively: the guard, the window, criteria A, B and C,
  `OnRoutine`, and the precondition `NoNullDereference`.
- `routine_calculation.dfy`: module `RoutineCalculation`. The calculation
  as the source runs it. `EvaluatePatient` has the window-filter loop, the
  criterion-A loop with its early exit, the sort, and the criterion-C
  exclusion loop, all setting one flag. `Evaluate` is the loop over the
  cohort that fills the result map. Both are proved equal to the
  declarative classification.
- `routine_properties.dfy`: module `RoutineProperties`. The properties of
  the classification, stated over a patient's raw records.

A consequence worth knowing is proved as `CriterionBNeverHolds`. It assumes
two laws of the calendar utilities, whose code is not part of this model:
moving a date before now back twelve months does not pass the window's lower
limit, and twelve whole months from `a` to `b` put `a` no later than `b`
moved back twelve months. Then criterion B never holds. The two VLs it
compares both come from the same open twelve-month window, so under those
laws they cannot be twelve months apart. With day-of-month clamping the
first law fails when now is 29 February, and criterion B can then hold;
`FirstCalendarLawIsNeeded` exhibits such a calendar. The second law
depends on how `monthsSince` counts: one that counts calendar months, or
whole months with day clamping, breaks it on ordinary dates, and criterion B
can then hold too; `SecondCalendarLawIsNeeded` exhibits such a calendar.
The comment at line 157
of `RoutineForAdultsAndChildrenCalculation.java` says "previous" was meant
to come from the entire history. The code takes it from the window. The
model follows the code.

Behaviour that the code decides, and the model follows:

- Both ends of the window are excluded (lines 102 and 119-120). A VL dated
  exactly twelve months before now is outside the window.
- Criterion C is evaluated only when the flag is still false (line 175).
  Its exclusion can revert only its own `true`, never one set by A or B.
- Missing data does not always read as "criterion not met". The code
  dereferences a fetched VL's date without a null test (line 119), and the
  regimen observation's date and coded value too (lines 197-198). These
  inputs are excluded by the precondition `NoNullDereference`. It demands
  each of them only on the paths where the code dereferences it.
- Two runs on the same inputs give the same map. `Evaluate`'s postcondition
  determines the result completely.

## Model

| member | source | states |
|---|---|---|
| `RoutineCalculation.Evaluate` | api/src/main/java/org/openmrs/module/eptsreports/reporting/calculation/pvls/RoutineForAdultsAndChildrenCalculation.java:61-222 | The result's keys are exactly the cohort's ids. Each entry is that patient's classification, computed from that patient's own records. |
| `RoutineCriteria.OnRoutine` | api/src/main/java/org/openmrs/module/eptsreports/reporting/calculation/pvls/RoutineForAdultsAndChildrenCalculation.java:99-215 | The classification: the guard, then A or B, or else C. A patient it classifies always has a dated last VL strictly inside the window and at least one fetched VL inside it. |
| `RoutineCalculation.EvaluatePatient` | api/src/main/java/org/openmrs/module/eptsreports/reporting/calculation/pvls/RoutineForAdultsAndChildrenCalculation.java:90-218 | The flag the loops compute equals the declarative classification `OnRoutine`: guard, then A or B, or else C with its exclusion. Requires only what the code dereferences. |
| `RoutineProperties.NotRoutineWithoutRecentLastVl` | api/src/main/java/org/openmrs/module/eptsreports/reporting/calculation/pvls/RoutineForAdultsAndChildrenCalculation.java:90-102 | The result is false with no ART date, with no last VL or an undated one, or with a last VL on or outside either end of the window. |
| `RoutineProperties.WindowVlsMembers` | api/src/main/java/org/openmrs/module/eptsreports/reporting/calculation/pvls/RoutineForAdultsAndChildrenCalculation.java:117-123 | The window list holds an observation exactly when it was fetched and is dated strictly inside `(now - 12 months, now)`. |
| `RoutineProperties.WindowVlsAppend` | api/src/main/java/org/openmrs/module/eptsreports/reporting/calculation/pvls/RoutineForAdultsAndChildrenCalculation.java:117-123 | Filtering keeps the fetched order: filtering `a + b` is filtering `a` followed by filtering `b`. |
| `RoutineProperties.EarlyVlMakesRoutine` | api/src/main/java/org/openmrs/module/eptsreports/reporting/calculation/pvls/RoutineForAdultsAndChildrenCalculation.java:132-141 | Once the guard holds, one fetched in-window VL that is more than 6 and at most 9 months after ART start makes the result true. |
| `RoutineProperties.OneVlPatient` | api/src/main/java/org/openmrs/module/eptsreports/reporting/calculation/pvls/RoutineForAdultsAndChildrenCalculation.java:128-141 | Take a patient whose only VL is the last one, with no regimen observation. The result is true exactly when that VL is more than 6 and at most 9 months after ART start: 6 is excluded and 9 is included. |
| `ObsOrder.SortIsSorted` | api/src/main/java/org/openmrs/module/eptsreports/reporting/calculation/pvls/RoutineForAdultsAndChildrenCalculation.java:148-154 | The sorted window is in ascending id order. |
| `ObsOrder.SortPermutes` | api/src/main/java/org/openmrs/module/eptsreports/reporting/calculation/pvls/RoutineForAdultsAndChildrenCalculation.java:148-154 | The sorted window is a permutation of the window. |
| `ObsOrder.SortIsStable` | api/src/main/java/org/openmrs/module/eptsreports/reporting/calculation/pvls/RoutineForAdultsAndChildrenCalculation.java:148-154 | Observations with equal ids keep their relative order, as in the library's stable sort. |
| `ObsOrder.StableSortIsUnique` | api/src/main/java/org/openmrs/module/eptsreports/reporting/calculation/pvls/RoutineForAdultsAndChildrenCalculation.java:148-154 | Any sorted arrangement that keeps equal ids in order is the model's sort, so the model picks the same last two VLs as the library sort. |
| `RoutineProperties.CriterionBPicksLastTwoById` | api/src/main/java/org/openmrs/module/eptsreports/reporting/calculation/pvls/RoutineForAdultsAndChildrenCalculation.java:145-159 | "Current" is a window VL with the largest id. "Previous" is a window VL with the largest id among the rest. |
| `RoutineProperties.CriterionBNeverHolds` | api/src/main/java/org/openmrs/module/eptsreports/reporting/calculation/pvls/RoutineForAdultsAndChildrenCalculation.java:155-171 | Under the two calendar laws above, criterion B is never met, because both compared VLs lie in one open twelve-month window. |
| `RoutineProperties.FirstCalendarLawIsNeeded` | api/src/main/java/org/openmrs/module/eptsreports/reporting/calculation/pvls/RoutineForAdultsAndChildrenCalculation.java:155-171 | On a calendar that keeps the second law but moves "now" back farther than the dates just before it, so its image lands before theirs, a suppressed VL and a later one in the window meet criterion B. |
| `RoutineProperties.SecondCalendarLawIsNeeded` | api/src/main/java/org/openmrs/module/eptsreports/reporting/calculation/pvls/RoutineForAdultsAndChildrenCalculation.java:155-171 | On a calendar that keeps the first law but whose `monthsSince` counts twelve months over a span shorter than twelve months back, a suppressed VL and a later one in the window meet criterion B. |
| `RoutineProperties.CriterionCCannotOverride` | api/src/main/java/org/openmrs/module/eptsreports/reporting/calculation/pvls/RoutineForAdultsAndChildrenCalculation.java:175 | If A or B holds, the result is true whatever the regimen observation and the follow-up encounters are. |
| `RoutineProperties.CriterionCExactly` | api/src/main/java/org/openmrs/module/eptsreports/reporting/calculation/pvls/RoutineForAdultsAndChildrenCalculation.java:186-212 | Suppose the guard holds, A and B fail and the window is not empty. The result is true exactly when all of these hold: a switch date exists; the first regimen observation predates the latest VL; its code is one of the eleven line-change codes; and no fetched VL lies strictly between the switch date and the latest VL. |
| `RoutineProperties.SwitchDateFallback` | api/src/main/java/org/openmrs/module/eptsreports/reporting/calculation/pvls/RoutineForAdultsAndChildrenCalculation.java:186-192 | The switch date is the adult encounter's date when it has one. Otherwise it is the paediatric encounter's date, and it is absent when neither encounter exists. |
| `RoutineProperties.ClassificationIsPerPatient` | api/src/main/java/org/openmrs/module/eptsreports/reporting/calculation/pvls/RoutineForAdultsAndChildrenCalculation.java:89-219 | Two runs whose look-ups agree on a patient classify that patient the same, whatever the other patients' records are. |
| `RoutineProperties.CompleteRecordsAreSafe` | api/src/main/java/org/openmrs/module/eptsreports/reporting/calculation/pvls/RoutineForAdultsAndChildrenCalculation.java:119-198 | The precondition holds whenever every fetched VL is dated (the date read at line 119) and the regimen observation, if present, is dated and coded (lines 197-198). |

## Left out

- Data fetching is not modelled: the VL, encounter and last-VL queries, the regimen query, and the ART-start sub-calculation (lines 74-87). Their results are inputs: the maps of `CohortRecords`.
- `monthsSince` and `addMonths` are not part of this model. They are uninterpreted functions in the evaluation context. Only `CriterionBNeverHolds` assumes any law about them, and it states those laws as hypotheses.
- Null elements in the fetched VL list are not modelled: the list is a sequence of observations. The `obs != null` test at line 119, `vlObs != null` at line 133, and `currentObs != null && previousObs != null` at line 161 are always true in the model.
- Inputs on which the code dereferences a null reference are excluded by a precondition, not modelled as a result. These are an undated fetched VL (line 119), and an undated or uncoded regimen observation (lines 197-198). The resulting exception would abort the whole run.
- A VL's numeric value is a Java `Double` (line 162) and is modelled as a `real`. NaN and the infinities are not modelled; a NaN value would fail the `< 1000` test, which the model cannot show.
- A null observation id in the sort's comparator (line 152) is not modelled. Ids are integers.
- The sort does not update a list in place. `EvaluatePatient` replaces its local window sequence with the sorted one, and nothing else reads the list.
- The `latestVlDate != null` test at line 196 is not modelled separately. The guard at line 99 already guarantees it.
- The `BooleanResult` wrapper is not modelled: the result is a plain `bool`. The location filter, concept and encounter-type metadata, and Spring injection are not modelled either.
- Tunable month bounds are not modelled. This class hard-codes 6, 9, 12 and 15.
- `TxCurrDataset` and `BreastfeedingIndicator` only wire report columns to cohort queries. They have no decision logic of their own.
