/** The event-time dataset of the probability-per-step engine: one record per
    participant, treatment arm first, with the derived PFS and OS columns of
    `simulate_trial`.

  A record copies the participant's three optional times and the trial duration.
  PFS takes the first present value among censor, progression, death and the
  duration; OS takes the death time, else the duration.
 */
module EventTimes {
  import opened Times
  import opened StateMachine

  datatype Arm = Treatment | Control

  /** The `participant` column: `t_<i>` or `c_<i>`, kept as arm and index. */
  datatype ParticipantId = ParticipantId(arm: Arm, index: nat)

  /** The `group` column: 1 for treatment, 0 for control. */
  function Group(arm: Arm): int
  {
    if arm == Treatment then 1 else 0
  }

  datatype Record = Record(
    participant: ParticipantId,
    group: int,
    tProgression: Option<nat>,
    tDeath: Option<nat>,
    tCensor: Option<nat>,
    duration: int,
    pfsEventTime: int,
    hasPfsEvent: int,
    osEventTime: int,
    hasOsEvent: int)

  /** `x` is the value of the present time `o`. */
  predicate IsTimeOf(x: int, o: Option<nat>)
  {
    o.Some? && o.value == x
  }

  /** The value of `o`, or `fallback` when it is missing. */
  function ValueOr(o: Option<nat>, fallback: int): int
  {
    if o.Some? then o.value else fallback
  }

  /** One row of the dataset with its PFS and OS columns. PFS is an event (flag 1)
      exactly when its time is a progression or a death; it is censored (flag 0)
      at the censor time, or administratively at the duration when nothing
      happened. OS is an event exactly when a death time is present. */
  function MakeRecord(id: ParticipantId, p: Participant, duration: int): (r: Record)
    ensures r.participant == id && r.group == Group(id.arm) && r.duration == duration
    ensures r.tProgression == p.progressTime && r.tDeath == p.deathTime && r.tCensor == p.censorTime
    ensures r.hasPfsEvent == 0 || r.hasPfsEvent == 1
    ensures r.hasPfsEvent == 0 <==> r.tCensor.Some? || (r.tProgression.None? && r.tDeath.None?)
    ensures r.tCensor.Some? ==> IsTimeOf(r.pfsEventTime, r.tCensor)
    ensures r.hasPfsEvent == 1 ==> IsTimeOf(r.pfsEventTime, r.tProgression) || IsTimeOf(r.pfsEventTime, r.tDeath)
    ensures r.tProgression.Some? && r.tCensor.None? ==> IsTimeOf(r.pfsEventTime, r.tProgression)
    ensures r.hasPfsEvent == 0 && r.tCensor.None? ==> r.pfsEventTime == duration
    ensures r.hasOsEvent == 0 || r.hasOsEvent == 1
    ensures r.hasOsEvent == 1 <==> r.tDeath.Some?
    ensures r.hasOsEvent == 1 ==> IsTimeOf(r.osEventTime, r.tDeath)
    ensures r.hasOsEvent == 0 ==> r.osEventTime == duration
  {
    var pfs := ValueOr(OrElse(OrElse(p.censorTime, p.progressTime), p.deathTime), duration);
    var hasPfs :=
      if p.censorTime.Some? || (p.censorTime.None? && p.progressTime.None? && p.deathTime.None?) then 0 else 1;
    var os := ValueOr(p.deathTime, duration);
    var hasOs := if p.deathTime.Some? then 1 else 0;
    Record(id, Group(id.arm), p.progressTime, p.deathTime, p.censorTime, duration, pfs, hasPfs, os, hasOs)
  }

  /** The earliest present time among `ts`, or `horizon` if that is earlier or
      none is present. */
  function Earliest(ts: seq<Option<nat>>, horizon: int): int
  {
    if |ts| == 0 then horizon
    else if ts[0].Some? && ts[0].value < Earliest(ts[1..], horizon) then ts[0].value
    else Earliest(ts[1..], horizon)
  }

  lemma {:induction false} EarliestIsLowerBound(ts: seq<Option<nat>>, horizon: int)
    ensures Earliest(ts, horizon) <= horizon
    ensures forall i :: 0 <= i < |ts| && ts[i].Some? ==> Earliest(ts, horizon) <= ts[i].value
    ensures Earliest(ts, horizon) == horizon || exists i :: 0 <= i < |ts| && IsTimeOf(Earliest(ts, horizon), ts[i])
  {
    if |ts| > 0 {
      EarliestIsLowerBound(ts[1..], horizon);
      var rest := Earliest(ts[1..], horizon);
      forall i | 0 <= i < |ts| && ts[i].Some? ensures Earliest(ts, horizon) <= ts[i].value {
        if i > 0 {
          assert ts[i] == ts[1..][i - 1];
        }
      }
      if rest != horizon && Earliest(ts, horizon) == rest {
        var j :| 0 <= j < |ts[1..]| && IsTimeOf(rest, ts[1..][j]);
        assert IsTimeOf(Earliest(ts, horizon), ts[j + 1]);
      }
      if Earliest(ts, horizon) != rest {
        assert IsTimeOf(Earliest(ts, horizon), ts[0]);
      }
    }
  }

  /** For a participant of a run whose clock has not passed the duration, the PFS
      time of the first-present rule is the earliest of all its event times and
      the duration, and the OS time is no earlier. */
  lemma PfsIsEarliestEvent(id: ParticipantId, p: Participant, t: nat, duration: int)
    requires Valid(p, t) && t <= duration
    ensures MakeRecord(id, p, duration).pfsEventTime == Earliest([p.progressTime, p.deathTime, p.censorTime], duration)
    ensures MakeRecord(id, p, duration).pfsEventTime <= MakeRecord(id, p, duration).osEventTime <= duration
  {
    var ts := [p.progressTime, p.deathTime, p.censorTime];
    var r := MakeRecord(id, p, duration);
    EarliestIsLowerBound(ts, duration);
    var e := Earliest(ts, duration);
    assert ts[0] == p.progressTime && ts[1] == p.deathTime && ts[2] == p.censorTime;
    if e != duration {
      var i :| 0 <= i < 3 && IsTimeOf(e, ts[i]);
    }
  }

  /** The rows of one arm, in cohort order. */
  function ArmRecords(arm: Arm, ps: seq<Participant>, duration: int): (rows: seq<Record>)
    ensures |rows| == |ps|
    ensures forall i :: 0 <= i < |ps| ==> rows[i] == MakeRecord(ParticipantId(arm, i), ps[i], duration)
    ensures forall i :: 0 <= i < |ps| ==> rows[i].group == Group(arm)
  {
    seq(|ps|, i requires 0 <= i < |ps| => MakeRecord(ParticipantId(arm, i), ps[i], duration))
  }

  /** `data_treatment + data_control` with the `duration` column: 2n rows,
      treatment participants first in cohort order with group 1, then control
      participants in cohort order with group 0. */
  function BuildRecords(treatment: seq<Participant>, control: seq<Participant>, duration: int): (rows: seq<Record>)
    ensures |rows| == |treatment| + |control|
    ensures forall i :: 0 <= i < |treatment| ==>
      rows[i].participant == ParticipantId(Treatment, i) && rows[i].group == 1
      && rows[i] == MakeRecord(ParticipantId(Treatment, i), treatment[i], duration)
    ensures forall j :: 0 <= j < |control| ==>
      rows[|treatment| + j].participant == ParticipantId(Control, j) && rows[|treatment| + j].group == 0
      && rows[|treatment| + j] == MakeRecord(ParticipantId(Control, j), control[j], duration)
  {
    var rt := ArmRecords(Treatment, treatment, duration);
    var rc := ArmRecords(Control, control, duration);
    assert forall i :: 0 <= i < |rt| ==> (rt + rc)[i] == rt[i];
    assert forall j :: 0 <= j < |rc| ==> (rt + rc)[|rt| + j] == rc[j];
    rt + rc
  }

  /** `data[data[group_col] == g]`: the rows of one group, order kept. */
  function SelectGroup(rows: seq<Record>, g: int): seq<Record>
  {
    if |rows| == 0 then []
    else if rows[0].group == g then [rows[0]] + SelectGroup(rows[1..], g)
    else SelectGroup(rows[1..], g)
  }

  lemma {:induction false} SelectGroupAppend(a: seq<Record>, b: seq<Record>, g: int)
    ensures SelectGroup(a + b, g) == SelectGroup(a, g) + SelectGroup(b, g)
  {
    if |a| > 0 {
      assert (a + b)[1..] == a[1..] + b;
      SelectGroupAppend(a[1..], b, g);
    } else {
      assert a + b == b;
    }
  }

  lemma {:induction false} SelectGroupUniform(rows: seq<Record>, g: int)
    ensures (forall i :: 0 <= i < |rows| ==> rows[i].group == g) ==> SelectGroup(rows, g) == rows
    ensures (forall i :: 0 <= i < |rows| ==> rows[i].group != g) ==> SelectGroup(rows, g) == []
  {
    if |rows| > 0 {
      SelectGroupUniform(rows[1..], g);
      if forall i :: 0 <= i < |rows| ==> rows[i].group == g {
        assert forall i :: 0 <= i < |rows[1..]| ==> rows[1..][i].group == g;
        assert [rows[0]] + rows[1..] == rows;
      }
      if forall i :: 0 <= i < |rows| ==> rows[i].group != g {
        assert forall i :: 0 <= i < |rows[1..]| ==> rows[1..][i].group != g;
      }
    }
  }

  /** Selecting either group of a dataset made of a block of one group followed
      by a block of another gives back that block. */
  lemma SelectGroupOfBlocks(a: seq<Record>, b: seq<Record>, ga: int, gb: int)
    requires ga != gb
    requires forall i :: 0 <= i < |a| ==> a[i].group == ga
    requires forall i :: 0 <= i < |b| ==> b[i].group == gb
    ensures SelectGroup(a + b, ga) == a
    ensures SelectGroup(a + b, gb) == b
  {
    SelectGroupAppend(a, b, ga);
    SelectGroupAppend(a, b, gb);
    SelectGroupUniform(a, ga);
    SelectGroupUniform(a, gb);
    SelectGroupUniform(b, ga);
    SelectGroupUniform(b, gb);
    assert a + [] == a && [] + b == b;
  }

  /** Stratifying the dataset by `group` gives back each arm's rows in cohort
      order: group 1 is exactly the treatment arm, group 0 the control arm. */
  lemma SelectGroupRecoversArms(treatment: seq<Participant>, control: seq<Participant>, duration: int)
    ensures SelectGroup(BuildRecords(treatment, control, duration), 1) == ArmRecords(Treatment, treatment, duration)
    ensures SelectGroup(BuildRecords(treatment, control, duration), 0) == ArmRecords(Control, control, duration)
  {
    var rt := ArmRecords(Treatment, treatment, duration);
    var rc := ArmRecords(Control, control, duration);
    assert BuildRecords(treatment, control, duration) == rt + rc;
    SelectGroupOfBlocks(rt, rc, 1, 0);
  }

  /** The dataset of two arms whose participants are valid at a clock within the
      horizon: progression and censoring never share a row, every time lies in
      `1..max(duration, 1)`, and with a positive duration the PFS time is the
      earliest event time (or the duration) and no later than the OS time. */
  lemma RecordsOfValidCohorts(treatment: seq<Participant>, control: seq<Participant>, t: nat, duration: int)
    requires forall i :: 0 <= i < |treatment| ==> Valid(treatment[i], t)
    requires forall i :: 0 <= i < |control| ==> Valid(control[i], t)
    requires t <= Max(duration, 1)
    ensures forall i :: 0 <= i < |BuildRecords(treatment, control, duration)| ==>
      var row := BuildRecords(treatment, control, duration)[i];
      && !(row.tProgression.Some? && row.tCensor.Some?)
      && Within(row.tProgression, 1, Max(duration, 1))
      && Within(row.tCensor, 1, Max(duration, 1))
      && Within(row.tDeath, 1, Max(duration, 1))
    ensures duration >= 1 ==> forall i :: 0 <= i < |BuildRecords(treatment, control, duration)| ==>
      var row := BuildRecords(treatment, control, duration)[i];
      && row.pfsEventTime == Earliest([row.tProgression, row.tDeath, row.tCensor], duration)
      && 1 <= row.pfsEventTime <= row.osEventTime <= duration
  {
    var rows := BuildRecords(treatment, control, duration);
    forall i | 0 <= i < |rows|
      ensures !(rows[i].tProgression.Some? && rows[i].tCensor.Some?)
      ensures Within(rows[i].tProgression, 1, Max(duration, 1))
      ensures Within(rows[i].tCensor, 1, Max(duration, 1))
      ensures Within(rows[i].tDeath, 1, Max(duration, 1))
      ensures duration >= 1 ==>
        && rows[i].pfsEventTime == Earliest([rows[i].tProgression, rows[i].tDeath, rows[i].tCensor], duration)
        && 1 <= rows[i].pfsEventTime <= rows[i].osEventTime <= duration
    {
      var id := rows[i].participant;
      var p := if i < |treatment| then treatment[i] else control[i - |treatment|];
      assert rows[i] == MakeRecord(id, p, duration);
      if duration >= 1 {
        PfsIsEarliestEvent(id, p, t, duration);
      }
    }
  }
}
