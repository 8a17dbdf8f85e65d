/** The participant of the probability-per-step engine (`StudyParticipant` and the
    per-participant `draw_events` of `Study.simulate_period`).

  A participant holds a current state and the step at which it first entered
  Progressed, Censored and Dead. One step draws the next state from a population
  that depends on which times are already set; the draw itself is random in the
  source and is a parameter here.
 */
module StateMachine {
  import opened Times

  datatype State = NoProgression | Progressed | Censored | Dead

  datatype Participant = Participant(
    state: State,
    progressTime: Option<nat>,
    deathTime: Option<nat>,
    censorTime: Option<nat>)

  /** A participant as enrolled at trial start. */
  const Enrolled: Participant := Participant(NoProgression, None, None, None)

  /** The time the participant holds for entering `s`; NoProgression has none. */
  function TimeOf(p: Participant, s: State): Option<nat>
  {
    match s
    case NoProgression => None
    case Progressed => p.progressTime
    case Censored => p.censorTime
    case Dead => p.deathTime
  }

  /** The transition table of the trial: Dead is terminal, Progressed and Censored
      can only stay or die, NoProgression can go anywhere. */
  predicate Transition(from: State, to: State)
  {
    match from
    case NoProgression => true
    case Progressed => to == Progressed || to == Dead
    case Censored => to == Censored || to == Dead
    case Dead => to == Dead
  }

  /** `update_state`: enter `s` at step `t`, stamping exactly the time that belongs
      to `s` and leaving the other two untouched. */
  function UpdateState(p: Participant, s: State, t: nat): (r: Participant)
    ensures r.state == s
    ensures s != NoProgression ==> TimeOf(r, s) == Some(t)
    ensures forall e :: e != s ==> TimeOf(r, e) == TimeOf(p, e)
  {
    if s == Progressed then p.(state := s, progressTime := Some(t))
    else if s == Censored then p.(state := s, censorTime := Some(t))
    else if s == Dead then p.(state := s, deathTime := Some(t))
    else p.(state := s)
  }

  /** The population `draw_events` hands to the random draw, chosen by the
      truthiness of the stored times (not by `state`). */
  function Outcomes(p: Participant): seq<State>
  {
    if Truthy(p.censorTime) then [Dead, Censored]
    else if Truthy(p.progressTime) then [Dead, Progressed]
    else [Dead, Progressed, Censored, NoProgression]
  }

  /** `s` is a value the random draw can return for `p`; a dead participant is not
      drawn for, so any value stands in for the absent draw. */
  predicate Drawable(p: Participant, s: State)
  {
    Truthy(p.deathTime) || s in Outcomes(p)
  }

  /** `draw_events` at step `t` with the drawn state `s`. */
  function DrawEvents(t: nat, p: Participant, s: State): (r: Participant)
    requires Drawable(p, s)
    ensures Truthy(p.deathTime) ==> r == p
    ensures s == p.state ==> r == p
    ensures !Truthy(p.deathTime) ==> r.state == s
    ensures forall e :: e != s ==> TimeOf(r, e) == TimeOf(p, e)
  {
    if Truthy(p.deathTime) then p
    else if s != p.state then UpdateState(p, s, t)
    else p
  }

  /** What holds of every participant after `t` steps: the state agrees with the
      stored times, progression and censoring exclude each other, every time is a
      step index in `1..t`, and death comes strictly after the other event. */
  predicate Valid(p: Participant, t: nat)
  {
    StateAgrees(p) && TimesValid(p, t)
  }

  /** The state agrees with the stored times. */
  predicate StateAgrees(p: Participant)
  {
    && (p.state == Dead <==> p.deathTime.Some?)
    && (p.state == Progressed ==> p.progressTime.Some?)
    && (p.state == Censored ==> p.censorTime.Some?)
    && (p.state == NoProgression ==> p.progressTime.None? && p.censorTime.None?)
  }

  /** Progression and censoring exclude each other, every time is a step index in
      `1..t`, and death comes strictly after the other event. */
  predicate TimesValid(p: Participant, t: nat)
  {
    && !(p.progressTime.Some? && p.censorTime.Some?)
    && Within(p.progressTime, 1, t) && Within(p.censorTime, 1, t) && Within(p.deathTime, 1, t)
    && Before(p.progressTime, p.deathTime) && Before(p.censorTime, p.deathTime)
  }

  lemma EnrolledIsValid()
    ensures Valid(Enrolled, 0)
    ensures forall s :: Drawable(Enrolled, s)
  {
    forall s ensures Drawable(Enrolled, s) {
      assert Outcomes(Enrolled) == [Dead, Progressed, Censored, NoProgression];
      match s
      case Dead => assert Outcomes(Enrolled)[0] == s;
      case Progressed => assert Outcomes(Enrolled)[1] == s;
      case Censored => assert Outcomes(Enrolled)[2] == s;
      case NoProgression => assert Outcomes(Enrolled)[3] == s;
    }
  }

  /** On a valid participant the source's truthiness tests mean "is set": the
      branch `draw_events` takes is decided by the state alone. */
  lemma OutcomesByState(p: Participant, t: nat)
    requires Valid(p, t)
    ensures Truthy(p.deathTime) <==> p.state == Dead
    ensures p.state == Censored ==> Outcomes(p) == [Dead, Censored]
    ensures p.state == Progressed ==> Outcomes(p) == [Dead, Progressed]
    ensures p.state == NoProgression ==> Outcomes(p) == [Dead, Progressed, Censored, NoProgression]
  {
    TruthyIsPresence(p.deathTime, t);
    TruthyIsPresence(p.censorTime, t);
    TruthyIsPresence(p.progressTime, t);
  }

  /** A step moves a valid participant only along the transition table. */
  lemma DrawEventsFollowsTable(t: nat, p: Participant, s: State)
    requires Valid(p, t) && Drawable(p, s)
    ensures Transition(p.state, DrawEvents(t + 1, p, s).state)
  {
    OutcomesByState(p, t);
  }

  /** Event times are write-once: a set time is never changed, and a time that
      becomes set holds the index of the step that set it. At most one time is
      written per step, the one of the drawn state. */
  lemma DrawEventsWritesOnce(t: nat, p: Participant, s: State)
    requires Valid(p, t) && Drawable(p, s)
    ensures forall e :: TimeOf(p, e).Some? ==> TimeOf(DrawEvents(t + 1, p, s), e) == TimeOf(p, e)
    ensures forall e :: TimeOf(DrawEvents(t + 1, p, s), e) != TimeOf(p, e) ==> e == s && TimeOf(DrawEvents(t + 1, p, s), e) == Some(t + 1)
  {
    OutcomesByState(p, t);
  }

  /** One step keeps a participant valid, with the clock advanced by one. */
  lemma DrawEventsPreservesValid(t: nat, p: Participant, s: State)
    requires Valid(p, t) && Drawable(p, s)
    ensures Valid(DrawEvents(t + 1, p, s), t + 1)
  {
    OutcomesByState(p, t);
  }

  /** Every participant of the arm is valid at clock `t`. */
  predicate CohortValid(ps: seq<Participant>, t: nat)
  {
    forall i :: 0 <= i < |ps| ==> Valid(ps[i], t)
  }
}
