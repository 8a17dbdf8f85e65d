/** The event-time dataset of the hazard-rate engine. There is no duration column:
    OS is the death time with the event flag fixed at 1, and PFS takes the first
    present value among censor, progression and death, with the event flag 0
    exactly when a censor time is present.
 */
module HazardEventTimes {
  import opened Times
  import opened HazardEngine
  import opened EventTimes

  datatype HazardRecord = HazardRecord(
    participant: ParticipantId,
    group: int,
    tProgression: Option<nat>,
    tDeath: Option<nat>,
    tCensor: Option<nat>,
    osEventTime: Option<nat>,
    hasOsEvent: int,
    pfsEventTime: Option<nat>,
    hasPfsEvent: int)

  /** One row of the hazard engine's dataset. */
  function HazardMakeRecord(id: ParticipantId, p: HazardParticipant): (r: HazardRecord)
    ensures r.participant == id && r.group == Group(id.arm)
    ensures r.tProgression == p.progressTime && r.tDeath == p.deathTime && r.tCensor == p.censorTime
    ensures r.osEventTime == r.tDeath && r.hasOsEvent == 1
    ensures r.hasPfsEvent == 0 || r.hasPfsEvent == 1
    ensures r.hasPfsEvent == 0 <==> r.tCensor.Some?
    ensures r.pfsEventTime.Some? <==> r.tCensor.Some? || r.tProgression.Some? || r.tDeath.Some?
    ensures r.tCensor.Some? ==> r.pfsEventTime == r.tCensor
    ensures r.hasPfsEvent == 1 && r.pfsEventTime.Some? ==>
      r.pfsEventTime == r.tProgression || r.pfsEventTime == r.tDeath
    ensures r.tCensor.None? && r.tProgression.Some? ==> r.pfsEventTime == r.tProgression
    ensures r.tCensor.None? && r.tProgression.None? ==> r.pfsEventTime == r.tDeath
  {
    var os := p.deathTime;
    var pfs := OrElse(OrElse(p.censorTime, p.progressTime), p.deathTime);
    var hasPfs := if p.censorTime.Some? then 0 else 1;
    HazardRecord(id, Group(id.arm), p.progressTime, p.deathTime, p.censorTime, os, 1, pfs, hasPfs)
  }

  /** For a participant who has died (as every participant has once the hazard
      loop stops), both endpoint times are present, the PFS time is the earliest
      of its event times, and OS is no earlier than PFS. */
  lemma HazardEndpointsAfterDeath(id: ParticipantId, p: HazardParticipant, t: nat)
    requires HazardValid(p, t) && p.deathTime.Some?
    ensures HazardMakeRecord(id, p).osEventTime.Some? && HazardMakeRecord(id, p).pfsEventTime.Some?
    ensures HazardMakeRecord(id, p).pfsEventTime.value
      == Earliest([p.progressTime, p.censorTime], p.deathTime.value)
    ensures 1 <= HazardMakeRecord(id, p).pfsEventTime.value <= HazardMakeRecord(id, p).osEventTime.value <= t
  {
    var ts := [p.progressTime, p.censorTime];
    EarliestIsLowerBound(ts, p.deathTime.value);
    var e := Earliest(ts, p.deathTime.value);
    assert ts[0] == p.progressTime && ts[1] == p.censorTime;
    if e != p.deathTime.value {
      var i :| 0 <= i < 2 && IsTimeOf(e, ts[i]);
    }
  }

  /** The rows of one arm of the hazard engine, in cohort order. */
  function HazardArmRecords(arm: Arm, ps: seq<HazardParticipant>): (rows: seq<HazardRecord>)
    ensures |rows| == |ps|
    ensures forall i :: 0 <= i < |ps| ==> rows[i] == HazardMakeRecord(ParticipantId(arm, i), ps[i])
  {
    seq(|ps|, i requires 0 <= i < |ps| => HazardMakeRecord(ParticipantId(arm, i), ps[i]))
  }

  /** `data_treatment + data_control`: 2n rows, treatment first with group 1, then
      control with group 0, each copying its participant's times. */
  function HazardBuildRecords(treatment: seq<HazardParticipant>, control: seq<HazardParticipant>): (rows: seq<HazardRecord>)
    ensures |rows| == |treatment| + |control|
    ensures forall i :: 0 <= i < |treatment| ==>
      rows[i].participant == ParticipantId(Treatment, i) && rows[i].group == 1
      && rows[i] == HazardMakeRecord(ParticipantId(Treatment, i), treatment[i])
    ensures forall j :: 0 <= j < |control| ==>
      rows[|treatment| + j].participant == ParticipantId(Control, j) && rows[|treatment| + j].group == 0
      && rows[|treatment| + j] == HazardMakeRecord(ParticipantId(Control, j), control[j])
  {
    var rt := HazardArmRecords(Treatment, treatment);
    var rc := HazardArmRecords(Control, control);
    assert forall i :: 0 <= i < |rt| ==> (rt + rc)[i] == rt[i];
    assert forall j :: 0 <= j < |rc| ==> (rt + rc)[|rt| + j] == rc[j];
    rt + rc
  }

  /** The row of a participant who has died: both endpoint times are present, OS
      is an event, PFS is the earliest of the progression and censor times and
      the death time, and progression and censoring do not both appear. */
  predicate DiedRow(row: HazardRecord)
  {
    && row.tDeath.Some?
    && !(row.tProgression.Some? && row.tCensor.Some?)
    && row.hasOsEvent == 1
    && row.osEventTime.Some? && row.pfsEventTime.Some?
    && row.pfsEventTime.value == Earliest([row.tProgression, row.tCensor], row.tDeath.value)
    && 1 <= row.pfsEventTime.value <= row.osEventTime.value
  }

  /** Once the hazard loop has stopped by itself every participant has died, so
      every row of the dataset is the row of a participant who has died. */
  lemma HazardRowsAfterCompletion(treatment: seq<HazardParticipant>, control: seq<HazardParticipant>, t: nat)
    requires HazardCohortValid(treatment, t) && HazardAllDead(treatment)
    requires HazardCohortValid(control, t) && HazardAllDead(control)
    ensures forall i :: 0 <= i < |HazardBuildRecords(treatment, control)| ==>
      DiedRow(HazardBuildRecords(treatment, control)[i])
  {
    var rows := HazardBuildRecords(treatment, control);
    forall i | 0 <= i < |rows| ensures DiedRow(rows[i]) {
      var id := rows[i].participant;
      var p := if i < |treatment| then treatment[i] else control[i - |treatment|];
      assert rows[i] == HazardMakeRecord(id, p);
      assert HazardValid(p, t) && Truthy(Lift(p).deathTime);
      HazardEndpointsAfterDeath(id, p, t);
    }
  }
}
