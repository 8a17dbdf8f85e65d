/** `simulate_trial` of both engines: run the study to completion, then build the
    event-time dataset from the final cohorts.
 */
module Trials {
  import opened Times
  import opened StateMachine
  import opened CohortStepper
  import opened EventTimes
  import opened HazardEngine
  import opened HazardEventTimes

  /** What `simulate_trial` ends with. `MissingColumn` is pandas' `KeyError`: a
      frame built from an empty list of rows has no columns, so reading `t_censor`
      (or `t_death`) from it fails. `Unfinished` is a hazard run stopped by the
      period cut-off. */
  datatype TrialResult<T> = Dataset(rows: seq<T>) | MissingColumn | Unfinished

  /** `simulate_trial` of the probability engine. The run is a whole run of the
      loop; without participants the column lookup fails; otherwise the dataset
      is the one built from the final cohorts: 2n rows, treatment first; times are
      step indices within the horizon, progression and censoring never both
      appear in a row, and with a positive duration every PFS time is the earliest
      event time (or the duration) and no later than the OS time. */
  method SimulateTrial(n: nat, duration: int) returns (result: TrialResult<Record>, ghost trace: seq<Study>)
    ensures IsRun(trace, n, duration)
    ensures !result.Unfinished?
    ensures result.MissingColumn? <==> n == 0
    ensures result.Dataset? ==>
      var last := trace[|trace| - 1]; result.rows == BuildRecords(last.treatment, last.control, duration)
    ensures result.Dataset? ==> |result.rows| == 2 * n
    ensures result.Dataset? ==> forall i :: 0 <= i < n ==>
      result.rows[i].participant == ParticipantId(Treatment, i) && result.rows[i].group == 1
    ensures result.Dataset? ==> forall i :: n <= i < 2 * n ==>
      result.rows[i].participant == ParticipantId(Control, i - n) && result.rows[i].group == 0
    ensures result.Dataset? ==> forall i :: 0 <= i < |result.rows| ==> result.rows[i].duration == duration
    ensures result.Dataset? ==> forall i :: 0 <= i < |result.rows| ==>
      !(result.rows[i].tProgression.Some? && result.rows[i].tCensor.Some?)
    ensures result.Dataset? ==> forall i :: 0 <= i < |result.rows| ==>
      && Within(result.rows[i].tProgression, 1, Max(duration, 1))
      && Within(result.rows[i].tCensor, 1, Max(duration, 1))
      && Within(result.rows[i].tDeath, 1, Max(duration, 1))
    ensures result.Dataset? && duration >= 1 ==> forall i :: 0 <= i < |result.rows| ==>
      && result.rows[i].pfsEventTime == Earliest([result.rows[i].tProgression, result.rows[i].tDeath, result.rows[i].tCensor], duration)
      && 1 <= result.rows[i].pfsEventTime <= result.rows[i].osEventTime <= duration
  {
    var s;
    s, trace := Run(n, duration);
    if n == 0 {
      return MissingColumn, trace;
    }
    var rows := BuildRecords(s.treatment, s.control, duration);
    RecordsOfValidCohorts(s.treatment, s.control, s.t, duration);
    result := Dataset(rows);
  }

  /** `simulate_trial` of the hazard engine, cut off after `fuel` periods. The run
      is a prefix of the loop with one period per step. A run cut off before
      everyone died yields no dataset; a finished run without participants fails
      at the column lookup; otherwise the dataset is the one built from the final
      cohorts: 2n rows, treatment first, every row with a death time, OS always an
      event, and PFS the earliest event time and no later than OS. */
  method HazardSimulateTrial(n: nat, fuel: nat) returns (result: TrialResult<HazardRecord>, periods: nat, ghost trace: seq<HazardStudy>)
    ensures IsHazardPartialRun(trace, n) && periods == |trace| - 1 && periods <= fuel
    ensures result.Unfinished? <==> !trace[|trace| - 1].complete
    ensures result.Unfinished? ==> periods == fuel
    ensures result.MissingColumn? <==> trace[|trace| - 1].complete && n == 0
    ensures result.Dataset? ==>
      var last := trace[|trace| - 1];
      && last.complete && HazardAllDead(last.treatment) && HazardAllDead(last.control)
      && result.rows == HazardBuildRecords(last.treatment, last.control)
    ensures result.Dataset? ==> |result.rows| == 2 * n
    ensures result.Dataset? ==> forall i :: 0 <= i < n ==>
      result.rows[i].participant == ParticipantId(Treatment, i) && result.rows[i].group == 1
    ensures result.Dataset? ==> forall j :: 0 <= j < n ==>
      result.rows[n + j].participant == ParticipantId(Control, j) && result.rows[n + j].group == 0
    ensures result.Dataset? ==> forall i :: 0 <= i < |result.rows| ==> DiedRow(result.rows[i])
  {
    var s;
    s, trace := HazardRun(n, fuel);
    periods := s.t;
    if !s.complete {
      return Unfinished, periods, trace;
    }
    if n == 0 {
      return MissingColumn, periods, trace;
    }
    var built := HazardBuildRecords(s.treatment, s.control);
    HazardRowsAfterCompletion(s.treatment, s.control, s.t);
    result := Dataset(built);
  }
}
