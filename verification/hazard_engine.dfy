/** The hazard-rate trial engine of `simulation.py`: a participant without a state
    field, a step that draws three independent booleans, and a study that runs
    until every participant has died, with no duration bound.

  The booleans are parameters of the step. From NoProgression all three are drawn
  and death wins over censoring, which wins over progression; from Censored or
  Progressed only death is drawn.
 */
module HazardEngine {
  import opened Times
  import opened StateMachine
  import opened CohortStepper

  datatype HazardParticipant = HazardParticipant(
    progressTime: Option<nat>,
    deathTime: Option<nat>,
    censorTime: Option<nat>)

  const HazardEnrolled: HazardParticipant := HazardParticipant(None, None, None)

  /** The booleans `has_progression`, `has_death`, `has_censor` as the random source
      would return them; the step ignores the ones it does not draw. */
  datatype Draw = Draw(progression: bool, death: bool, censor: bool)

  /** `draw_events` of the hazard engine at step `t`. */
  function HazardDrawEvents(t: nat, p: HazardParticipant, d: Draw): (r: HazardParticipant)
    ensures Truthy(p.deathTime) ==> r == p
    ensures !Truthy(p.deathTime) && d.death ==> r == p.(deathTime := Some(t))
    ensures Truthy(p.censorTime) || Truthy(p.progressTime) ==>
      r.censorTime == p.censorTime && r.progressTime == p.progressTime
    ensures r.censorTime != p.censorTime ==>
      !d.death && d.censor && r == p.(censorTime := Some(t))
    ensures r.progressTime != p.progressTime ==>
      !d.death && !d.censor && d.progression && r == p.(progressTime := Some(t))
  {
    if Truthy(p.deathTime) then p
    else
      var (hasProgression, hasDeath, hasCensor) :=
        if Truthy(p.censorTime) then (false, d.death, false)
        else if Truthy(p.progressTime) then (false, d.death, false)
        else (d.progression, d.death, d.censor);
      if hasDeath then p.(deathTime := Some(t))
      else if hasCensor then p.(censorTime := Some(t))
      else if hasProgression then p.(progressTime := Some(t))
      else p
  }

  /** What holds of every participant after `t` steps: the time constraints of
      the probability engine's participants (progression and censoring exclude
      each other, times are step indices in `1..t`, and death comes strictly after
      the other event). */
  predicate HazardValid(p: HazardParticipant, t: nat)
  {
    TimesValid(Lift(p), t)
  }

  /** One step keeps a participant valid: no time is overwritten, censoring and
      progression are never both set. */
  lemma HazardDrawEventsPreservesValid(t: nat, p: HazardParticipant, d: Draw)
    requires HazardValid(p, t)
    ensures HazardValid(HazardDrawEvents(t + 1, p, d), t + 1)
    ensures p.progressTime.Some? ==> HazardDrawEvents(t + 1, p, d).progressTime == p.progressTime
    ensures p.censorTime.Some? ==> HazardDrawEvents(t + 1, p, d).censorTime == p.censorTime
    ensures p.deathTime.Some? ==> HazardDrawEvents(t + 1, p, d) == p
  {
    TruthyIsPresence(p.deathTime, t);
    TruthyIsPresence(p.censorTime, t);
    TruthyIsPresence(p.progressTime, t);
  }

  /** The state a hazard participant is in, read off its times. */
  function StateOf(p: HazardParticipant): State
  {
    if p.deathTime.Some? then Dead
    else if p.censorTime.Some? then Censored
    else if p.progressTime.Some? then Progressed
    else NoProgression
  }

  /** The hazard participant seen as a participant of the probability engine. */
  function Lift(p: HazardParticipant): Participant
  {
    Participant(StateOf(p), p.progressTime, p.deathTime, p.censorTime)
  }

  /** The single outcome the three booleans amount to for a living participant. */
  function Resolve(p: HazardParticipant, d: Draw): State
  {
    if d.death then Dead
    else if p.censorTime.Some? || p.progressTime.Some? then StateOf(p)
    else if d.censor then Censored
    else if d.progression then Progressed
    else NoProgression
  }

  /** Both engines share one transition topology: a hazard step is the probability
      engine's step on the outcome the booleans resolve to, and that outcome is one
      the probability engine's draw can return. */
  lemma HazardStepIsProbabilityStep(t: nat, p: HazardParticipant, d: Draw)
    requires HazardValid(p, t)
    ensures Valid(Lift(p), t)
    ensures Drawable(Lift(p), Resolve(p, d))
    ensures Lift(HazardDrawEvents(t + 1, p, d)) == DrawEvents(t + 1, Lift(p), Resolve(p, d))
  {
    TruthyIsPresence(p.deathTime, t);
    TruthyIsPresence(p.censorTime, t);
    TruthyIsPresence(p.progressTime, t);
    OutcomesByState(Lift(p), t);
  }

  /** Conversely every outcome the probability engine can draw for a living
      participant is reached by some hazard draw. */
  lemma HazardCoversOutcomes(t: nat, p: HazardParticipant, s: State)
    requires HazardValid(p, t) && p.deathTime.None? && s in Outcomes(Lift(p))
    ensures exists d :: Resolve(p, d) == s
  {
    TruthyIsPresence(p.censorTime, t);
    TruthyIsPresence(p.progressTime, t);
    match s
    case Dead => assert Resolve(p, Draw(false, true, false)) == s;
    case Censored => assert Resolve(p, Draw(false, false, true)) == s;
    case Progressed => assert Resolve(p, Draw(true, false, false)) == s;
    case NoProgression => assert Resolve(p, Draw(false, false, false)) == s;
  }

  datatype HazardStudy = HazardStudy(
    t: nat,
    treatment: seq<HazardParticipant>,
    control: seq<HazardParticipant>,
    complete: bool)

  /** `Study.__init__` of the hazard engine: two arms of `n` freshly enrolled
      participants, clock at 0, not yet complete. */
  function HazardNewStudy(n: nat): HazardStudy
  {
    HazardStudy(0, seq(n, _ => HazardEnrolled), seq(n, _ => HazardEnrolled), false)
  }

  /** An arm seen as an arm of the probability engine. */
  function LiftAll(ps: seq<HazardParticipant>): (r: seq<Participant>)
    ensures |r| == |ps| && forall i :: 0 <= i < |ps| ==> r[i] == Lift(ps[i])
  {
    seq(|ps|, i requires 0 <= i < |ps| => Lift(ps[i]))
  }

  /** Every participant of the arm has a (truthy) death time. */
  predicate HazardAllDead(ps: seq<HazardParticipant>)
  {
    AllDead(LiftAll(ps))
  }

  /** `check_complete` of the hazard engine: everyone in both arms has died. There
      is no duration. */
  function HazardCheckComplete(s: HazardStudy): (r: bool)
    ensures r <==> HazardAllDead(s.treatment) && HazardAllDead(s.control)
  {
    EveryoneDiedOfBothArms(LiftAll(s.treatment), LiftAll(s.control));
    EveryoneDied(DeathTimes(LiftAll(s.treatment) + LiftAll(s.control)))
  }

  function HazardStepCohort(t: nat, ps: seq<HazardParticipant>, draws: seq<Draw>): (r: seq<HazardParticipant>)
    requires |draws| == |ps|
    ensures |r| == |ps|
    ensures forall i :: 0 <= i < |ps| ==> r[i] == HazardDrawEvents(t, ps[i], draws[i])
  {
    seq(|ps|, i requires 0 <= i < |ps| => HazardDrawEvents(t, ps[i], draws[i]))
  }

  /** The body of the hazard engine's `simulate_period` before its completion
      test: advance the clock, then step both arms with the new clock. */
  function HazardAdvance(s: HazardStudy, drawsT: seq<Draw>, drawsC: seq<Draw>): (r: HazardStudy)
    requires |drawsT| == |s.treatment| && |drawsC| == |s.control|
    ensures r.t == s.t + 1 && r.complete == s.complete
    ensures |r.treatment| == |s.treatment| && |r.control| == |s.control|
  {
    var t := s.t + 1;
    s.(t := t, treatment := HazardStepCohort(t, s.treatment, drawsT), control := HazardStepCohort(t, s.control, drawsC))
  }

  /** `simulate_period` of the hazard engine. */
  function HazardSimulatePeriod(s: HazardStudy, drawsT: seq<Draw>, drawsC: seq<Draw>): (r: HazardStudy)
    requires |drawsT| == |s.treatment| && |drawsC| == |s.control|
    ensures r.t == s.t + 1
    ensures |r.treatment| == |s.treatment| && |r.control| == |s.control|
    ensures r.complete <==> HazardAllDead(r.treatment) && HazardAllDead(r.control)
  {
    var stepped := HazardAdvance(s, drawsT, drawsC);
    stepped.(complete := HazardCheckComplete(stepped))
  }

  /** Every participant of the arm is valid at clock `t`. */
  predicate HazardCohortValid(ps: seq<HazardParticipant>, t: nat)
  {
    forall i :: 0 <= i < |ps| ==> HazardValid(ps[i], t)
  }

  predicate HazardStudyValid(s: HazardStudy)
  {
    HazardCohortValid(s.treatment, s.t) && HazardCohortValid(s.control, s.t)
  }

  /** Stepping one arm keeps each of its participants valid. */
  lemma HazardStepCohortPreservesValid(t: nat, ps: seq<HazardParticipant>, draws: seq<Draw>)
    requires HazardCohortValid(ps, t) && |draws| == |ps|
    ensures HazardCohortValid(HazardStepCohort(t + 1, ps, draws), t + 1)
  {
    var r := HazardStepCohort(t + 1, ps, draws);
    forall i | 0 <= i < |ps| ensures HazardValid(r[i], t + 1) {
      HazardDrawEventsPreservesValid(t, ps[i], draws[i]);
    }
  }

  lemma HazardAdvancePreservesValid(s: HazardStudy, drawsT: seq<Draw>, drawsC: seq<Draw>)
    requires HazardStudyValid(s)
    requires |drawsT| == |s.treatment| && |drawsC| == |s.control|
    ensures HazardStudyValid(HazardStudy(s.t + 1, HazardStepCohort(s.t + 1, s.treatment, drawsT), HazardStepCohort(s.t + 1, s.control, drawsC), s.complete))
  {
    HazardStepCohortPreservesValid(s.t, s.treatment, drawsT);
    HazardStepCohortPreservesValid(s.t, s.control, drawsC);
  }

  /** One period keeps every participant of both arms valid. */
  lemma HazardSimulatePeriodPreservesValid(s: HazardStudy, drawsT: seq<Draw>, drawsC: seq<Draw>)
    requires HazardStudyValid(s)
    requires |drawsT| == |s.treatment| && |drawsC| == |s.control|
    ensures HazardStudyValid(HazardSimulatePeriod(s, drawsT, drawsC))
  {
    HazardAdvancePreservesValid(s, drawsT, drawsC);
    assert HazardAdvance(s, drawsT, drawsC).treatment == HazardStepCohort(s.t + 1, s.treatment, drawsT);
    assert HazardAdvance(s, drawsT, drawsC).control == HazardStepCohort(s.t + 1, s.control, drawsC);
  }

  /** A new study has two arms of `n` valid participants, clock 0, not complete. */
  lemma HazardNewStudyValid(n: nat)
    ensures HazardStudyValid(HazardNewStudy(n))
    ensures |HazardNewStudy(n).treatment| == n && |HazardNewStudy(n).control| == n
    ensures HazardNewStudy(n).t == 0 && !HazardNewStudy(n).complete
  {
  }

  /** Draws of the random source that exist for any arm. */
  function NoEventDraws(ps: seq<HazardParticipant>): (draws: seq<Draw>)
    ensures |draws| == |ps|
  {
    seq(|ps|, _ => Draw(false, false, false))
  }

  /** `s'` is one period after `s`, for some booleans the random source can draw. */
  ghost predicate HazardStep(s: HazardStudy, s': HazardStudy)
  {
    exists drawsT, drawsC ::
      |drawsT| == |s.treatment| && |drawsC| == |s.control| && s' == HazardSimulatePeriod(s, drawsT, drawsC)
  }

  /** A prefix of the hazard engine's `while not study.complete` loop: it starts
      from a fresh study and steps only while the study is incomplete. */
  ghost predicate IsHazardPartialRun(trace: seq<HazardStudy>, n: nat)
  {
    && |trace| >= 1
    && trace[0] == HazardNewStudy(n)
    && forall i :: 0 <= i < |trace| - 1 ==> !trace[i].complete && HazardStep(trace[i], trace[i + 1])
  }

  lemma ExtendHazardPartialRun(trace: seq<HazardStudy>, n: nat, next: HazardStudy)
    requires IsHazardPartialRun(trace, n)
    requires !trace[|trace| - 1].complete && HazardStep(trace[|trace| - 1], next)
    ensures IsHazardPartialRun(trace + [next], n)
  {
    var longer := trace + [next];
    forall i | 0 <= i < |longer| - 1
      ensures !longer[i].complete && HazardStep(longer[i], longer[i + 1])
    {
      if i < |trace| - 1 {
        assert longer[i] == trace[i] && longer[i + 1] == trace[i + 1];
      }
    }
  }

  /** Along a partial run, every study after the first is complete exactly when
      everyone in both arms has died. */
  lemma HazardPartialRunFlags(trace: seq<HazardStudy>, n: nat)
    requires IsHazardPartialRun(trace, n)
    ensures forall i :: 0 < i < |trace| ==>
      (trace[i].complete <==> HazardAllDead(trace[i].treatment) && HazardAllDead(trace[i].control))
  {
    forall i | 0 < i < |trace|
      ensures trace[i].complete <==> HazardAllDead(trace[i].treatment) && HazardAllDead(trace[i].control)
    {
      assert HazardStep(trace[i - 1], trace[i]);
      var drawsT, drawsC :| |drawsT| == |trace[i - 1].treatment| && |drawsC| == |trace[i - 1].control|
        && trace[i] == HazardSimulatePeriod(trace[i - 1], drawsT, drawsC);
    }
  }

  /** The loop `while not study.complete: study.simulate_period()` of the hazard
      engine, cut off after `fuel` periods. The result is the last study of a
      prefix of the loop, one period per step; the loop stops at the first period
      after which everyone has died, or at the cut-off. Every recorded time is a
      step index no later than the clock. */
  method HazardRun(n: nat, fuel: nat) returns (s: HazardStudy, ghost trace: seq<HazardStudy>)
    ensures IsHazardPartialRun(trace, n) && s == trace[|trace| - 1]
    ensures s.t == |trace| - 1 && s.t <= fuel
    ensures |s.treatment| == n && |s.control| == n
    ensures HazardStudyValid(s)
    ensures s.complete <==> s.t >= 1 && HazardAllDead(s.treatment) && HazardAllDead(s.control)
    ensures !s.complete ==> s.t == fuel
    ensures forall i :: 0 < i < |trace| - 1 ==>
      !(HazardAllDead(trace[i].treatment) && HazardAllDead(trace[i].control))
  {
    s := HazardNewStudy(n);
    HazardNewStudyValid(n);
    trace := [s];
    while !s.complete && s.t < fuel
      invariant IsHazardPartialRun(trace, n) && s == trace[|trace| - 1]
      invariant s.t == |trace| - 1 && s.t <= fuel
      invariant |s.treatment| == n && |s.control| == n
      invariant HazardStudyValid(s)
      invariant s.complete <==> s.t >= 1 && HazardAllDead(s.treatment) && HazardAllDead(s.control)
      decreases fuel - s.t
    {
      assert |NoEventDraws(s.treatment)| == |s.treatment| && |NoEventDraws(s.control)| == |s.control|;
      var drawsT :| |drawsT| == |s.treatment|;
      var drawsC :| |drawsC| == |s.control|;
      HazardSimulatePeriodPreservesValid(s, drawsT, drawsC);
      var next := HazardSimulatePeriod(s, drawsT, drawsC);
      assert HazardStep(s, next);
      ExtendHazardPartialRun(trace, n, next);
      trace := trace + [next];
      s := next;
    }
    HazardPartialRunFlags(trace, n);
  }
}
