/** The probability-per-step trial engine: `Study` with its completion test, one
    period of the simulation, and the run loop of `simulate_trial`.

  The random draws of a period are parameters: one drawn state per participant of
  each arm, each a member of the population the source would draw from.
 */
module CohortStepper {
  import opened Times
  import opened StateMachine

  datatype Study = Study(
    t: nat,
    duration: int,
    treatment: seq<Participant>,
    control: seq<Participant>,
    complete: bool)

  /** `Study.__init__`: two arms of `n` freshly enrolled participants, clock at 0,
      not yet complete. */
  function NewStudy(n: nat, duration: int): Study
  {
    Study(0, duration, seq(n, _ => Enrolled), seq(n, _ => Enrolled), false)
  }

  function DeathTimes(ps: seq<Participant>): (r: seq<Option<nat>>)
    ensures |r| == |ps| && forall i :: 0 <= i < |ps| ==> r[i] == ps[i].deathTime
  {
    seq(|ps|, i requires 0 <= i < |ps| => ps[i].deathTime)
  }

  /** Every participant of the arm has a (truthy) death time. */
  predicate AllDead(ps: seq<Participant>)
  {
    forall i :: 0 <= i < |ps| ==> Truthy(ps[i].deathTime)
  }

  /** `check_complete`: the clock has reached the duration, or everyone in both
      arms has died. */
  function CheckComplete(s: Study): (r: bool)
    ensures r <==> s.t >= s.duration || (AllDead(s.treatment) && AllDead(s.control))
  {
    if s.t >= s.duration then true
    else
      EveryoneDiedOfBothArms(s.treatment, s.control);
      EveryoneDied(DeathTimes(s.treatment + s.control))
  }

  /** The loop over `treatment_group + control_group` finds everyone dead exactly
      when each arm is all dead. */
  lemma EveryoneDiedOfBothArms(treatment: seq<Participant>, control: seq<Participant>)
    ensures EveryoneDied(DeathTimes(treatment + control)) <==> AllDead(treatment) && AllDead(control)
  {
    var everyone := treatment + control;
    assert forall i :: 0 <= i < |treatment| ==> treatment[i] == everyone[i];
    assert forall i :: 0 <= i < |control| ==> control[i] == everyone[|treatment| + i];
  }

  /** One drawn state per participant, each one the draw can return. */
  predicate DrawsFor(ps: seq<Participant>, draws: seq<State>)
  {
    |draws| == |ps| && forall i :: 0 <= i < |ps| ==> Drawable(ps[i], draws[i])
  }

  /** The `for participant in ...: draw_events(...)` loop over one arm. */
  function StepCohort(t: nat, ps: seq<Participant>, draws: seq<State>): (r: seq<Participant>)
    requires DrawsFor(ps, draws)
    ensures |r| == |ps|
    ensures forall i :: 0 <= i < |ps| ==> r[i] == DrawEvents(t, ps[i], draws[i])
  {
    seq(|ps|, i requires 0 <= i < |ps| => DrawEvents(t, ps[i], draws[i]))
  }

  /** The body of `simulate_period` before its completion test: advance the clock,
      then step the treatment arm and the control arm with the new clock. */
  function Advance(s: Study, drawsT: seq<State>, drawsC: seq<State>): (r: Study)
    requires DrawsFor(s.treatment, drawsT) && DrawsFor(s.control, drawsC)
    ensures r.t == s.t + 1 && r.duration == s.duration && r.complete == s.complete
    ensures |r.treatment| == |s.treatment| && |r.control| == |s.control|
  {
    var t := s.t + 1;
    s.(t := t, treatment := StepCohort(t, s.treatment, drawsT), control := StepCohort(t, s.control, drawsC))
  }

  /** `simulate_period`: advance, then record whether the study is now complete. */
  function SimulatePeriod(s: Study, drawsT: seq<State>, drawsC: seq<State>): (r: Study)
    requires DrawsFor(s.treatment, drawsT) && DrawsFor(s.control, drawsC)
    ensures r.t == s.t + 1 && r.duration == s.duration
    ensures |r.treatment| == |s.treatment| && |r.control| == |s.control|
    ensures r.complete <==> r.t >= r.duration || (AllDead(r.treatment) && AllDead(r.control))
  {
    var advanced := Advance(s, drawsT, drawsC);
    advanced.(complete := CheckComplete(advanced))
  }

  /** Every participant of both arms is valid at the study's clock. */
  predicate StudyValid(s: Study)
  {
    CohortValid(s.treatment, s.t) && CohortValid(s.control, s.t)
  }

  /** Draws that always exist: every participant can be drawn Dead. */
  function AllDeathDraws(ps: seq<Participant>): (draws: seq<State>)
    ensures DrawsFor(ps, draws)
  {
    seq(|ps|, _ => Dead)
  }

  lemma NewStudyValid(n: nat, duration: int)
    ensures StudyValid(NewStudy(n, duration))
    ensures |NewStudy(n, duration).treatment| == n == |NewStudy(n, duration).control|
  {
    EnrolledIsValid();
  }

  /** Stepping one arm keeps each of its participants valid. */
  lemma StepCohortPreservesValid(t: nat, ps: seq<Participant>, draws: seq<State>)
    requires CohortValid(ps, t)
    requires DrawsFor(ps, draws)
    ensures CohortValid(StepCohort(t + 1, ps, draws), t + 1)
  {
    var r := StepCohort(t + 1, ps, draws);
    forall i | 0 <= i < |ps| ensures Valid(r[i], t + 1) {
      DrawEventsPreservesValid(t, ps[i], draws[i]);
    }
  }

  lemma AdvancePreservesValid(s: Study, drawsT: seq<State>, drawsC: seq<State>)
    requires StudyValid(s)
    requires DrawsFor(s.treatment, drawsT) && DrawsFor(s.control, drawsC)
    ensures StudyValid(Advance(s, drawsT, drawsC))
  {
    StepCohortPreservesValid(s.t, s.treatment, drawsT);
    StepCohortPreservesValid(s.t, s.control, drawsC);
  }

  /** One period keeps every participant of both arms valid: states follow the
      table, times are write-once and stay within `1..t`. */
  lemma SimulatePeriodPreservesValid(s: Study, drawsT: seq<State>, drawsC: seq<State>)
    requires StudyValid(s)
    requires DrawsFor(s.treatment, drawsT) && DrawsFor(s.control, drawsC)
    ensures StudyValid(SimulatePeriod(s, drawsT, drawsC))
  {
    AdvancePreservesValid(s, drawsT, drawsC);
  }

  /** A participant with a death time is frozen through a period. */
  lemma SimulatePeriodFreezesDead(s: Study, drawsT: seq<State>, drawsC: seq<State>)
    requires DrawsFor(s.treatment, drawsT) && DrawsFor(s.control, drawsC)
    ensures forall i :: 0 <= i < |s.treatment| && Truthy(s.treatment[i].deathTime) ==>
      SimulatePeriod(s, drawsT, drawsC).treatment[i] == s.treatment[i]
    ensures forall i :: 0 <= i < |s.control| && Truthy(s.control[i].deathTime) ==>
      SimulatePeriod(s, drawsT, drawsC).control[i] == s.control[i]
  {
  }

  /** `s'` is one period after `s`, for some draws the random source can make. */
  ghost predicate Step(s: Study, s': Study)
  {
    exists drawsT, drawsC ::
      DrawsFor(s.treatment, drawsT) && DrawsFor(s.control, drawsC) && s' == SimulatePeriod(s, drawsT, drawsC)
  }

  /** A prefix of the `while not study.complete` loop of `simulate_trial`: it starts
      from a fresh study and steps only while the study is incomplete. */
  ghost predicate IsPartialRun(trace: seq<Study>, n: nat, duration: int)
  {
    && |trace| >= 1
    && trace[0] == NewStudy(n, duration)
    && forall i :: 0 <= i < |trace| - 1 ==> !trace[i].complete && Step(trace[i], trace[i + 1])
  }

  /** A whole run: the loop has stopped. */
  ghost predicate IsRun(trace: seq<Study>, n: nat, duration: int)
  {
    IsPartialRun(trace, n, duration) && trace[|trace| - 1].complete
  }

  /** Along any partial run the clock counts the periods, the arms keep their size,
      every participant stays valid, and past the first study the stored flag is
      exactly `check_complete`. */
  lemma {:induction false} PartialRunInvariant(trace: seq<Study>, n: nat, duration: int)
    requires IsPartialRun(trace, n, duration)
    ensures var last := trace[|trace| - 1];
      && last.t == |trace| - 1
      && last.duration == duration
      && |last.treatment| == n && |last.control| == n
      && StudyValid(last)
      && (|trace| >= 2 ==> (last.complete <==> CheckComplete(last)))
  {
    if |trace| == 1 {
      NewStudyValid(n, duration);
    } else {
      var prefix := trace[..|trace| - 1];
      assert IsPartialRun(prefix, n, duration) by {
        forall i | 0 <= i < |prefix| - 1
          ensures !prefix[i].complete && Step(prefix[i], prefix[i + 1])
        {
          assert prefix[i] == trace[i] && prefix[i + 1] == trace[i + 1];
        }
      }
      PartialRunInvariant(prefix, n, duration);
      var prev := trace[|trace| - 2];
      assert prev == prefix[|prefix| - 1];
      assert Step(prev, trace[|trace| - 1]);
      var drawsT, drawsC :| DrawsFor(prev.treatment, drawsT) && DrawsFor(prev.control, drawsC)
        && trace[|trace| - 1] == SimulatePeriod(prev, drawsT, drawsC);
      SimulatePeriodPreservesValid(prev, drawsT, drawsC);
    }
  }

  /** The loop runs at least one period and at most `max(duration, 1)`; it stops
      exactly when the clock reaches the duration or everyone has died, and every
      recorded time then lies in `1..max(duration, 1)`. */
  lemma RunBounds(trace: seq<Study>, n: nat, duration: int)
    requires IsRun(trace, n, duration)
    ensures var last := trace[|trace| - 1];
      && 1 <= last.t <= Max(duration, 1)
      && last.t == |trace| - 1
      && CheckComplete(last)
      && StudyValid(last)
      && |last.treatment| == n && |last.control| == n
  {
    PartialRunInvariant(trace, n, duration);
    assert !trace[0].complete;
    var k := |trace| - 1;
    var prefix := trace[..k];
    assert IsPartialRun(prefix, n, duration) by {
      forall i | 0 <= i < |prefix| - 1
        ensures !prefix[i].complete && Step(prefix[i], prefix[i + 1])
      {
        assert prefix[i] == trace[i] && prefix[i + 1] == trace[i + 1];
      }
    }
    PartialRunInvariant(prefix, n, duration);
    var prev := trace[k - 1];
    assert prev == prefix[|prefix| - 1];
    assert !prev.complete;
    assert prev.t == k - 1;
  }

  lemma ExtendPartialRun(trace: seq<Study>, n: nat, duration: int, next: Study)
    requires IsPartialRun(trace, n, duration)
    requires !trace[|trace| - 1].complete && Step(trace[|trace| - 1], next)
    ensures IsPartialRun(trace + [next], n, duration)
  {
    var longer := trace + [next];
    forall i | 0 <= i < |longer| - 1
      ensures !longer[i].complete && Step(longer[i], longer[i + 1])
    {
      if i < |trace| - 1 {
        assert longer[i] == trace[i] && longer[i + 1] == trace[i + 1];
      }
    }
  }

  /** The loop `while not study.complete: study.simulate_period()`, with each draw
      chosen nondeterministically among the values the random source can return. */
  method Run(n: nat, duration: int) returns (s: Study, ghost trace: seq<Study>)
    ensures IsRun(trace, n, duration) && s == trace[|trace| - 1]
    ensures s.complete
    ensures 1 <= s.t <= Max(duration, 1)
    ensures StudyValid(s)
    ensures |s.treatment| == n && |s.control| == n
  {
    s := NewStudy(n, duration);
    trace := [s];
    while !s.complete
      invariant IsPartialRun(trace, n, duration) && s == trace[|trace| - 1]
      invariant s.duration == duration
      decreases (if s.complete then 0 else 1) + (if s.t < duration then duration - s.t else 0)
    {
      assert DrawsFor(s.treatment, AllDeathDraws(s.treatment));
      assert DrawsFor(s.control, AllDeathDraws(s.control));
      var drawsT :| DrawsFor(s.treatment, drawsT);
      var drawsC :| DrawsFor(s.control, drawsC);
      var next := SimulatePeriod(s, drawsT, drawsC);
      assert Step(s, next);
      ExtendPartialRun(trace, n, duration, next);
      trace := trace + [next];
      s := next;
    }
    RunBounds(trace, n, duration);
  }
}
