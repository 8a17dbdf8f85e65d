# Two-arm oncology trial simulation, modelled in Dafny

This project models the simulation engine of a two-arm oncology trial in its
two variants.

In the **probability-per-step** engine, each participant of the treatment and
control arms is in one of four states: no progression, progressed, censored or
dead. Each participant also holds up to three event times: progression,
censoring and death.
- Each period advances the clock `t` by one.
- It then draws, for every living participant, the next state. The draw comes
  from a population that the participant's stored times restrict.
- A changed state stamps the matching time with `t`.
- The study runs until `t >= duration` or everyone has died.

The **hazard-rate** engine keeps only the three times.
- For a participant with no event yet, each period draws three independent
  booleans (progression, death, censoring). Death wins over censoring, and
  censoring wins over progression.
- Once a participant has progressed or been censored, only death is drawn.
- The study runs until everyone has died.

Both engines end with an **event-time dataset**: one row per participant,
treatment arm first. Each row carries the raw times and the derived
progression-free survival (PFS) and overall survival (OS) columns, built with
"first present value wins" precedence.

## Design

- `times.dfy` (`Times`): optional times, and pandas' `combine_first`. It also
  holds Python truthiness and why truthiness coincides with presence for
  stamped times.
- `state_machine.dfy` (`StateMachine`): the probability engine's participant,
  `update_state`, the draw population and `draw_events`. It also defines the
  per-participant invariant `Valid`.
- `cohort_stepper.dfy` (`CohortStepper`): `Study`, `check_complete`,
  `simulate_period` and the `while not study.complete` loop. The loop is a
  method with a ghost trace of studies.
- `event_times.dfy` (`EventTimes`): the probability engine's dataset. It has
  an independent "earliest event" reference definition for PFS, and the
  `data[group] == g` selection used to split the dataset by arm.
- `hazard_engine.dfy` (`HazardEngine`): the hazard engine. It includes a proof
  that one hazard step is a probability step on a resolved outcome.
- `hazard_event_times.dfy` (`HazardEventTimes`): the hazard engine's dataset.
- `trials.dfy` (`Trials`): `simulate_trial` of both engines, run to the end
  and turned into a dataset. The result is a `TrialResult`: the dataset, or
  `MissingColumn` where pandas raises `KeyError` (an empty frame has no
  `t_censor` or `t_death` column to read), or `Unfinished` where the hazard loop is
  cut off.

Randomness is a parameter.
- A probability-engine draw is a `State` that must be a member of the
  population `random.choices` is given (`Drawable`).
- A hazard-engine draw is three booleans.
- The run loops choose draws nondeterministically (`:|`), so every property
  proved of a run holds for every sequence of draws the random source could
  produce.

Times are `Option<nat>`. The engines branch on truthiness (`if
participant.death_time:`), which treats `0` like `None`. The dataset builders
test presence (`pd.notna`). `Times.TruthyIsPresence` together with `Valid`
(every time lies in `1..t`) shows that the two agree on every reachable
participant.

## Model

The probability engine's code appears twice in the repository:
`application/app.py` lines 16-173, and `examples/simulation.py` lines 6-163,
which is the same text shifted by ten lines. The same members model both
copies. Each row cites one of them.

| member | source | states |
|---|---|---|
| Times.TruthyIsPresence | application/app.py:95-105 | a stamped time lies in `1..t` because the clock is incremented before any stamp, so the truthiness tests of `draw_events` mean exactly "the time is present" |
| Times.EveryoneDied | application/app.py:88-92 | the early-exit loop over death times answers true exactly when every death time is truthy |
| StateMachine.UpdateState | application/app.py:32-48 | the new state is stored; entering Progressed, Censored or Dead stamps exactly that state's time with `t`; the other times are untouched |
| StateMachine.DrawEvents | application/app.py:97-112 | a participant with a death time is returned unchanged; drawing the current state changes nothing; otherwise the drawn state is entered and only its own time may change |
| StateMachine.EnrolledIsValid | application/app.py:26-30 | a freshly enrolled participant (no times, NoProgression) satisfies the invariant at clock 0, and every state is a possible first draw |
| StateMachine.OutcomesByState | application/app.py:102-109 | on a valid participant the branch taken depends on the state alone: a censored participant draws from Dead or Censored, a progressed one from Dead or Progressed, one without progression from all four states |
| StateMachine.DrawEventsFollowsTable | application/app.py:99-112 | a step moves a participant only along the transition table: Dead is absorbing, and Progressed and Censored can only stay or die |
| StateMachine.DrawEventsWritesOnce | application/app.py:102-112 | a set time is never overwritten; a time that changes belongs to the drawn state and holds the index of the current step |
| StateMachine.DrawEventsPreservesValid | application/app.py:94-112 | one step keeps the invariant with the clock advanced by one: the state agrees with the times, progression and censoring are never both set, all times lie in `1..t`, and death comes strictly after progression or censoring |
| CohortStepper.EveryoneDiedOfBothArms | application/app.py:88-92 | the loop over `treatment_group + control_group` finds everyone dead exactly when each arm on its own is all dead |
| CohortStepper.CheckComplete | application/app.py:84-92 | the study is complete exactly when `t >= duration` or every participant of both arms has a truthy death time |
| CohortStepper.SimulatePeriod | application/app.py:94-120 | one period advances the clock by one, keeps both arms' sizes, and stores in `complete` whether the new study meets the completion test |
| CohortStepper.NewStudyValid | application/app.py:74-76 | a new study has two arms of n valid participants |
| CohortStepper.StepCohortPreservesValid | application/app.py:114-118 | stepping every participant of one arm with the new clock keeps the whole arm valid |
| CohortStepper.SimulatePeriodPreservesValid | application/app.py:94-120 | one period keeps every participant of both arms valid at the new clock |
| CohortStepper.SimulatePeriodFreezesDead | examples/simulation.py:87-90 | a participant with a death time is the same after a period |
| CohortStepper.PartialRunInvariant | application/app.py:140-141 | along any prefix of the run loop the clock equals the number of periods, both arms keep n participants, every participant stays valid, and the stored flag equals `check_complete` after the first period |
| CohortStepper.RunBounds | application/app.py:140-141 | a finished run took at least 1 and at most `max(duration, 1)` periods and stops exactly when the completion test holds |
| CohortStepper.Run | examples/simulation.py:130-131 | the loop terminates for every choice of draws; the final study is complete after `1..max(duration, 1)` periods with every participant valid |
| EventTimes.MakeRecord | application/app.py:165-171 | `has_pfs_event` is 0 exactly when a censor time is present or no event happened; the PFS time is the censor time when there is one, the progression or death time when it is an event, and the duration otherwise; `has_os_event` is 1 exactly when a death time is present; the OS time is the death time, else the duration |
| EventTimes.PfsIsEarliestEvent | examples/simulation.py:157 | for a valid participant whose clock has not passed the duration, the first-present PFS rule yields the earliest of progression, death, censoring and the duration, and PFS is no later than OS, which is no later than the duration |
| EventTimes.BuildRecords | application/app.py:143-161 | the dataset has one row per participant: treatment rows first, in cohort order, with group 1, then control rows, in cohort order, with group 0; each row is built from that participant |
| EventTimes.SelectGroupRecoversArms | application/app.py:196-197 | selecting group 1 from the dataset gives back exactly the treatment rows, and selecting group 0 exactly the control rows, order kept |
| EventTimes.RecordsOfValidCohorts | application/app.py:143-171 | in the dataset of valid arms, progression and censoring never share a row, every time lies in `1..max(duration, 1)`, and with a positive duration every PFS time is the earliest event time and `1 <= PFS <= OS <= duration` |
| HazardEngine.HazardDrawEvents | simulation.py:65-93 | a dead participant is unchanged; a death draw sets only the death time; censoring is written only without death, and progression only without death or censoring; once censored or progressed, neither of those times changes again |
| HazardEngine.HazardDrawEventsPreservesValid | simulation.py:73-93 | one step keeps progression and censoring exclusive, all times in `1..t`, and death after the other event; set times are never overwritten and a dead participant is frozen |
| HazardEngine.HazardStepIsProbabilityStep | simulation.py:70-93 | a hazard step equals the probability engine's step on the outcome its three booleans resolve to, and that outcome is one the probability engine's draw could return |
| HazardEngine.HazardCoversOutcomes | simulation.py:79-82 | every outcome the probability engine can draw for a living participant is reached by some choice of the three booleans |
| HazardEngine.HazardCheckComplete | simulation.py:54-59 | the study is complete exactly when every participant of both arms has a truthy death time; there is no duration test |
| HazardEngine.HazardSimulatePeriod | simulation.py:61-102 | one period advances the clock by one, keeps both arms' sizes, and stores in `complete` whether everyone has died |
| HazardEngine.HazardStepCohortPreservesValid | simulation.py:96-100 | stepping every participant of one arm keeps the whole arm valid |
| HazardEngine.HazardSimulatePeriodPreservesValid | simulation.py:61-102 | one period keeps every participant of both arms valid at the new clock |
| HazardEngine.HazardNewStudyValid | simulation.py:44-46 | a new study has two arms of n valid participants, with the clock at 0 and not complete |
| HazardEngine.HazardPartialRunFlags | simulation.py:122-123 | along the loop, every study after the first is marked complete exactly when everyone in both arms has died |
| HazardEngine.HazardRun | simulation.py:122-123 | the result is the last study of a prefix of the loop started from a new study, with one period per step; the clock counts the periods; both arms stay valid; the loop stops at the first period after which everyone has died, or at the cut-off |
| HazardEventTimes.HazardMakeRecord | simulation.py:146-150 | the OS time is the death time and `has_os_event` is always 1; the PFS time is the first present of censoring, then progression, then death (missing when none is present); `has_pfs_event` is 0 exactly when a censor time is present |
| HazardEventTimes.HazardEndpointsAfterDeath | simulation.py:146-149 | for a valid participant who has died, both endpoint times are present, PFS is the earliest of its progression, censoring and death times, and `1 <= PFS <= OS <= t` |
| HazardEventTimes.HazardBuildRecords | simulation.py:125-142 | the dataset has one row per participant, treatment rows first with group 1, then control rows with group 0, each built from that participant |
| HazardEventTimes.HazardRowsAfterCompletion | simulation.py:122-150 | once everyone has died, every row has a death time, OS is an event, PFS is the earliest of progression, censoring and death with `1 <= PFS <= OS`, and progression and censoring never share a row |
| Trials.SimulateTrial | application/app.py:124-173 | the loop runs to completion; with no participants the column lookup raises `KeyError`; otherwise the result is the dataset of the final cohorts, with 2n rows, treatment first with group 1, then control with group 0; times lie within the horizon; progression and censoring never share a row; with a positive duration each PFS time is the earliest event time and no later than OS |
| Trials.HazardSimulateTrial | simulation.py:106-152 | the run is a prefix of the loop; a run that finishes with no participants raises `KeyError` at the column lookup; otherwise a finished run yields the dataset of its final cohorts, with 2n rows, treatment first with group 1, and every row that of a participant who has died, with PFS the earliest event time |

## Left out

- Weighted sampling: `random.choices` with float weights, and the global
  random generator, are not modelled. A draw is any member of the population
  the source hands to `random.choices` (or any triple of booleans). So the
  probabilities and hazard rates, and the study parameters that carry them,
  are not part of the model.
- The weight `1-p_d-p_p-p_c` can be negative (application/app.py:109). What
  `random.choices` then does belongs to the library, so it is not modelled.
- The `participant` label `f't_{id}'` / `f'c_{id}'` is modelled as an arm and
  an index, not as a string.
- pandas plumbing: rows are records with `Option<nat>` and `int` fields. pandas
  may store a column with missing values as floating point; that conversion is
  not modelled.
- Hazard ratios (`get_hr`, `CoxPHFitter`) and Kaplan-Meier curves
  (`KaplanMeierFitter`) are calls into `lifelines`. Only the `data[group] == g`
  selection that feeds the curves is modelled.
- Plotting, the Shiny user interface, the root `app.py`, `deprecated/app.py`
  and the example driver scripts are presentation and file I/O.
- The accessors `get_treatment_group` and `get_control_group` are field reads.
  The setters `progress`, `die` and `censor` are folded into `UpdateState` and
  `HazardDrawEvents`.
- HazardEngine.HazardRun: the source loops until everyone has died. When every
  death hazard is positive that happens with probability one, but not for every
  sequence of draws; with zero death hazards it never happens and the source
  loops forever. So the loop is cut off after `fuel` periods and reports
  whether it finished.
- Trials.HazardSimulateTrial: returns `Unfinished` when the `fuel` cut-off is
  reached, where the source would keep looping.
- Trials.SimulateTrial: with no participants the source raises `KeyError`;
  the model returns `MissingColumn` instead of raising an exception.
- Trials.HazardSimulateTrial: likewise, a finished run with no participants
  returns `MissingColumn` where the source raises `KeyError`.
- Times.TruthyIsPresence: the source never checks that stamped times are
  positive. The lemma takes the `1..t` bound as a precondition, which every
  reachable participant meets by `Valid`.
