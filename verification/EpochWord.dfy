/**
  The epoch-protected state machine (crates/tsavorite/src/checkpoint.rs:99-122,
  crates/tsavorite/src/store.rs:598-623): one word that only grows, published
  before an action is registered, and read by every thread after it publishes
  its epoch slot. When the action runs, whoever is inside entered after the
  word was published.
 */
module EpochWord {
  import Epoch = EpochMachine

  /** `floors` is history: the word when a thread last published its slot. */
  datatype State = State(ep: Epoch.State, word: nat, values: map<nat, nat>, floors: seq<nat>)

  datatype Step =
    | OfEpoch(step: Epoch.Step)
    | Publish(word: nat)
    | Register(id: nat)
    | RunAction(id: nat)

  function Init(threads: nat): State {
    State(Epoch.Init(threads), 0, map[], seq(threads, _ => 0))
  }

  predicate Inside(s: State, t: nat) {
    t < |s.floors| && Epoch.InSection(s.ep, t)
  }

  function EpochPart(step: Step): Epoch.Step
    requires !step.Publish?
  {
    match step
    case OfEpoch(e) => e
    case Register(id) => Epoch.LoadPrior(id)
    case RunAction(id) => Epoch.Run(id)
  }

  predicate Enabled(s: State, step: Step) {
    && (step.Publish? ==> s.word <= step.word)
    && (!step.Publish? ==> Epoch.Enabled(s.ep, EpochPart(step)))
    && (step.OfEpoch? ==> !step.step.LoadPrior? && !step.step.Run?)
  }

  function Do(s: State, step: Step): State
    requires Enabled(s, step)
  {
    match step
    case Publish(word) => s.(word := word)
    case OfEpoch(e) =>
      var s' := s.(ep := Epoch.Do(s.ep, e));
      if (e.EnterStore? || e.RefreshStore?) && e.thread < |s.floors| then
        s'.(floors := s.floors[e.thread := s.word])
      else s'
    case Register(id) => s.(ep := Epoch.Do(s.ep, EpochPart(step)), values := s.values[id := s.word])
    case RunAction(id) => s.(ep := Epoch.Do(s.ep, EpochPart(step)))
  }

  predicate Linked(s: State) {
    && Epoch.Inv(s.ep) && |s.floors| == |s.ep.pcs|
    && s.ep.actions.Keys == s.values.Keys
  }

  ghost predicate Published(s: State) {
    && (forall id :: id in s.values ==> s.values[id] <= s.word)
    && (forall t: nat :: Inside(s, t) ==> s.floors[t] <= s.word)
  }

  predicate Sees(s: State, t: nat, id: nat)
    requires Linked(s) && t < |s.floors| && id in s.values
  {
    s.ep.actions[id].stamp <= s.ep.born[t] ==> s.values[id] <= s.floors[t]
  }

  ghost predicate AllSee(s: State)
    requires Linked(s)
  {
    forall t: nat, id :: Inside(s, t) && id in s.values ==> Sees(s, t, id)
  }

  ghost predicate Inv(s: State) {
    Linked(s) && Published(s) && AllSee(s)
  }

  lemma InitInv(threads: nat)
    ensures Inv(Init(threads))
  {
    Epoch.InitInv(threads);
  }

  lemma StepLinked(s: State, step: Step)
    requires Linked(s) && Enabled(s, step)
    ensures Linked(Do(s, step))
  {
    if !step.Publish? {
      Epoch.StepInv(s.ep, EpochPart(step));
      Epoch.StepView(s.ep, EpochPart(step));
      assert Do(s, step).ep.actions.Keys == Do(s, step).values.Keys;
    }
  }

  lemma StepPublished(s: State, step: Step)
    requires Linked(s) && Published(s) && Enabled(s, step)
    ensures Published(Do(s, step))
  {
    if !step.Publish? {
      Epoch.StepView(s.ep, EpochPart(step));
    }
  }

  /** A thread that was inside before the step cannot have been overtaken by a new stamp. */
  lemma StayingSees(s: State, s': State, t: nat, id: nat)
    requires Linked(s) && Linked(s') && t < |s.floors| == |s'.floors| && id in s'.values
    requires s'.floors[t] == s.floors[t] && s'.ep.born[t] == s.ep.born[t]
    requires id in s.values ==>
               && Sees(s, t, id) && s'.values[id] == s.values[id]
               && s.ep.actions[id].stamp <= s'.ep.actions[id].stamp
    requires id !in s.values ==> s.ep.born[t] < s'.ep.actions[id].stamp
    ensures Sees(s', t, id)
  {
  }

  lemma StepSees(s: State, step: Step, t: nat, id: nat)
    requires Linked(s) && Published(s) && AllSee(s) && Enabled(s, step) && Linked(Do(s, step))
    requires Inside(Do(s, step), t) && id in Do(s, step).values
    ensures Sees(Do(s, step), t, id)
  {
    if step.Publish? {
      assert Sees(s, t, id);
    } else {
      var e := EpochPart(step);
      Epoch.StepView(s.ep, e);
      if e != Epoch.EnterStore(t) && e != Epoch.RefreshStore(t) {
        if id in s.values {
          assert Sees(s, t, id);
        }
        StayingSees(s, Do(s, step), t, id);
      }
    }
  }

  lemma StepInv(s: State, step: Step)
    requires Inv(s) && Enabled(s, step)
    ensures Inv(Do(s, step))
  {
    StepLinked(s, step);
    StepPublished(s, step);
    forall t: nat, id: nat | Inside(Do(s, step), t) && id in Do(s, step).values
      ensures Sees(Do(s, step), t, id)
    {
      StepSees(s, step, t, id);
    }
  }

  /** When an action may run, everyone inside entered under its value or a later one. */
  lemma RunFindsAll(s: State, id: nat, t: nat)
    requires Inv(s) && Enabled(s, RunAction(id)) && Inside(s, t)
    ensures id in s.values && s.values[id] <= s.floors[t]
  {
    assert Epoch.Grace(s.ep);
    assert Sees(s, t, id);
  }

  lemma StepShape(s: State, step: Step)
    requires Inv(s) && Enabled(s, step)
    ensures |Do(s, step).floors| == |s.floors|
  {
  }

  /** What a step does to the threads inside. */
  lemma StepInside(s: State, step: Step, t: nat)
    requires Inv(s) && Enabled(s, step) && Inside(Do(s, step), t)
    ensures |Do(s, step).floors| == |s.floors|
    ensures || (step.OfEpoch? && (step.step == Epoch.EnterStore(t) || step.step == Epoch.RefreshStore(t))
                && Do(s, step).floors[t] == s.word)
            || (Inside(s, t) && Do(s, step).floors[t] == s.floors[t])
  {
    if !step.Publish? {
      Epoch.StepView(s.ep, EpochPart(step));
    }
  }
}
