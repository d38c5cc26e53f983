/**
 * The onboarding tour of the web client: a provider that holds whether the
 * tour is shown, the list of steps and the index of the current step, and
 * moves through the steps on request.
 */
module Tour {
  import opened Wrappers

  datatype TourStep = TourStep(id: string, title: string, content: string)

  /** A snapshot of the provider's three state fields. */
  datatype TourState = TourState(showTour: bool, steps: seq<TourStep>, index: int)

  /** The requests the provider answers. */
  datatype Request = Start | End | Next | Previous | SetSteps(steps: seq<TourStep>)

  /** The index is a position in the list whenever the tour is on screen. */
  predicate InRange(s: TourState) {
    0 <= s.index && (s.showTour ==> s.index < |s.steps|)
  }

  /** The state after one request. */
  function Apply(s: TourState, q: Request): (r: TourState)
    ensures 0 <= s.index ==> 0 <= r.index
    ensures !q.SetSteps? ==> r.steps == s.steps
    ensures InRange(s) && !q.SetSteps? && (q.Start? ==> |s.steps| > 0) ==> InRange(r)
  {
    match q
    case Start => s.(showTour := true, index := 0)
    case End => s.(showTour := false, index := 0)
    case Next =>
      if s.index < |s.steps| - 1 then s.(index := s.index + 1)
      else s.(showTour := false, index := 0)
    case Previous => if s.index > 0 then s.(index := s.index - 1) else s
    case SetSteps(steps) => s.(steps := steps)
  }

  /** The state after a series of requests, in order. */
  function Run(s: TourState, qs: seq<Request>): TourState
    decreases |qs|
  {
    if |qs| == 0 then s else Run(Apply(s, qs[0]), qs[1..])
  }

  /** The id of the step on screen; none while the tour is hidden or the index is past the list. */
  function CurrentStep(s: TourState): (r: Option<string>)
    ensures r.Some? <==> s.showTour && 0 <= s.index < |s.steps|
    ensures r.Some? ==> r.value == s.steps[s.index].id
  {
    if s.showTour && 0 <= s.index < |s.steps| then Some(s.steps[s.index].id) else None
  }

  /** No request, in any number, makes the index negative. */
  lemma {:induction false} RunKeepsIndexNatural(s: TourState, qs: seq<Request>)
    requires 0 <= s.index
    ensures 0 <= Run(s, qs).index
    decreases |qs|
  {
    if |qs| > 0 {
      RunKeepsIndexNatural(Apply(s, qs[0]), qs[1..]);
    }
  }

  /**
   * While the steps are not replaced, the shown tour always points at an
   * existing step, so its current step is always defined.
   */
  lemma {:induction false} RunKeepsInRange(s: TourState, qs: seq<Request>)
    requires InRange(s) && |s.steps| > 0
    requires forall i :: 0 <= i < |qs| ==> !qs[i].SetSteps?
    ensures InRange(Run(s, qs)) && Run(s, qs).steps == s.steps
    ensures Run(s, qs).showTour ==> CurrentStep(Run(s, qs)).Some?
    decreases |qs|
  {
    if |qs| > 0 {
      RunKeepsInRange(Apply(s, qs[0]), qs[1..]);
    }
  }

  /** Starting a tour with no steps shows it with no current step. */
  lemma StartWithoutSteps(s: TourState)
    requires s.steps == []
    ensures Apply(s, Start).showTour && CurrentStep(Apply(s, Start)).None?
  {
  }

  /** k Next requests in a row. */
  function Nexts(k: nat): (r: seq<Request>)
    ensures |r| == k && forall i :: 0 <= i < k ==> r[i] == Next
  {
    if k == 0 then [] else [Next] + Nexts(k - 1)
  }

  /** Going forward k times from a step at least k before the last one moves exactly k steps on. */
  lemma {:induction false} WalkThrough(s: TourState, k: nat)
    requires 0 <= s.index && s.index + k < |s.steps|
    ensures Run(s, Nexts(k)) == s.(index := s.index + k)
    decreases k
  {
    if k > 0 {
      assert Nexts(k)[1..] == Nexts(k - 1);
      WalkThrough(Apply(s, Next), k - 1);
    }
  }

  /** Going forward past the last step closes the tour and resets the index. */
  lemma {:induction false} WalkOff(s: TourState)
    requires 0 <= s.index < |s.steps|
    ensures !Run(s, Nexts(|s.steps| - s.index)).showTour
    ensures Run(s, Nexts(|s.steps| - s.index)).index == 0
    decreases |s.steps| - s.index
  {
    var k := |s.steps| - s.index;
    assert Nexts(k)[1..] == Nexts(k - 1);
    if s.index < |s.steps| - 1 {
      WalkOff(Apply(s, Next));
    }
  }

  /** Previous undoes Next inside the tour. */
  lemma NextThenPrevious(s: TourState)
    requires 0 <= s.index < |s.steps| - 1
    ensures Apply(Apply(s, Next), Previous) == s
  {
  }

  /** The provider's state, updated in place by its callbacks. */
  class TourProvider {
    var showTour: bool
    var steps: seq<TourStep>
    var currentStepIndex: int

    function State(): TourState
      reads this
    {
      TourState(showTour, steps, currentStepIndex)
    }

    /** The initial state: hidden, no steps, index 0. */
    constructor()
      ensures State() == TourState(false, [], 0)
    {
      showTour := false;
      steps := [];
      currentStepIndex := 0;
    }

    method StartTour()
      modifies this
      ensures showTour && currentStepIndex == 0 && steps == old(steps)
      ensures State() == Apply(old(State()), Start)
    {
      showTour := true;
      currentStepIndex := 0;
    }

    method EndTour()
      modifies this
      ensures !showTour && currentStepIndex == 0 && steps == old(steps)
      ensures State() == Apply(old(State()), End)
    {
      showTour := false;
      currentStepIndex := 0;
    }

    method NextStep()
      modifies this
      ensures old(currentStepIndex) < |old(steps)| - 1 ==>
        currentStepIndex == old(currentStepIndex) + 1 && showTour == old(showTour)
      ensures old(currentStepIndex) >= |old(steps)| - 1 ==> !showTour && currentStepIndex == 0
      ensures steps == old(steps)
      ensures State() == Apply(old(State()), Next)
    {
      if currentStepIndex < |steps| - 1 {
        currentStepIndex := currentStepIndex + 1;
      } else {
        EndTour();
      }
    }

    method PreviousStep()
      modifies this
      ensures old(currentStepIndex) > 0 ==> currentStepIndex == old(currentStepIndex) - 1
      ensures old(currentStepIndex) <= 0 ==> currentStepIndex == old(currentStepIndex)
      ensures showTour == old(showTour) && steps == old(steps)
      ensures State() == Apply(old(State()), Previous)
    {
      if currentStepIndex > 0 {
        currentStepIndex := currentStepIndex - 1;
      }
    }

    method SetSteps(newSteps: seq<TourStep>)
      modifies this
      ensures steps == newSteps && showTour == old(showTour) && currentStepIndex == old(currentStepIndex)
      ensures State() == Apply(old(State()), Request.SetSteps(newSteps))
    {
      steps := newSteps;
    }
  }
}
