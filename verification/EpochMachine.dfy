/**
  Epoch protection as a concurrent protocol (crates/tsavorite/src/epoch.rs). One
  step is one atomic load, store or list operation: `protect` and `refresh` are
  a load of the current epoch and a later store into the thread's slot,
  `compute_safe_epoch` reads the slots one at a time, the safe epoch is fixed
  before the drain list is locked, and `bump_with_action` loads the epoch it
  tags its action with before it pushes the action. Any number of drains may be
  under way.

  `born`, `stamp` and `start` are history: the step at which a thread last
  published its slot, the last step up to which an action is known to hold the
  current epoch (its load, or its push if no bump came between), and the step
  at which a drain began.
 */
module EpochMachine {
  import opened Bytes

  datatype ThreadPc =
    | Outside
    | Entering(epoch: nat)
    | Inside
    | Refreshing(epoch: nat)

  datatype ActionPc = Loaded | Listed | Taken | Ran

  datatype Action = Action(epoch: nat, stamp: nat, pc: ActionPc)

  datatype DrainPc = Scanning(next: nat, min: nat) | Decided(safe: nat)

  datatype Drain = Drain(start: nat, current: nat, pc: DrainPc)

  datatype State = State(
    clock: nat,
    current: nat,
    slots: seq<nat>,
    pcs: seq<ThreadPc>,
    born: seq<nat>,
    actions: map<nat, Action>,
    drains: map<nat, Drain>)

  datatype Step =
    | EnterLoad(thread: nat)
    | EnterStore(thread: nat)
    | RefreshLoad(thread: nat)
    | RefreshStore(thread: nat)
    | Leave(thread: nat)
    | Bump
    | LoadPrior(id: nat)
    | Push(id: nat)
    | DrainStart(drain: nat)
    | DrainScan(drain: nat)
    | DrainDecide(drain: nat)
    | DrainTake(drain: nat)
    | DrainGiveUp(drain: nat)
    | Run(id: nat)

  function Init(threads: nat): State {
    State(0, 1, seq(threads, _ => 0), seq(threads, _ => Outside), seq(threads, _ => 0), map[], map[])
  }

  predicate InSection(s: State, t: nat) {
    t < |s.pcs| && (s.pcs[t].Inside? || s.pcs[t].Refreshing?)
  }

  predicate Shaped(s: State) {
    |s.slots| == |s.pcs| == |s.born|
  }

  predicate IsScanning(s: State, d: nat) {
    d in s.drains && s.drains[d].pc.Scanning?
  }

  predicate Enabled(s: State, step: Step) {
    && Shaped(s)
    && match step
       case EnterLoad(t) => t < |s.pcs| && s.pcs[t].Outside?
       case EnterStore(t) => t < |s.pcs| && s.pcs[t].Entering?
       case RefreshLoad(t) => t < |s.pcs| && s.pcs[t].Inside?
       case RefreshStore(t) => t < |s.pcs| && s.pcs[t].Refreshing?
       case Leave(t) => t < |s.pcs| && s.pcs[t].Inside?
       case Bump => true
       case LoadPrior(id) => id !in s.actions
       case Push(id) => id in s.actions && s.actions[id].pc.Loaded?
       case DrainStart(d) => d !in s.drains
       case DrainScan(d) => IsScanning(s, d) && s.drains[d].pc.next < |s.slots|
       case DrainDecide(d) => IsScanning(s, d) && s.drains[d].pc.next == |s.slots| && 0 < s.drains[d].pc.min
       case DrainTake(d) => d in s.drains && s.drains[d].pc.Decided?
       case DrainGiveUp(d) => d in s.drains
       case Run(id) => id in s.actions && s.actions[id].pc.Taken?
  }

  function TakeReady(actions: map<nat, Action>, safe: nat): map<nat, Action> {
    map id | id in actions ::
      if actions[id].pc.Listed? && actions[id].epoch <= safe then actions[id].(pc := Taken) else actions[id]
  }

  function Do(s: State, step: Step): State
    requires Enabled(s, step)
  {
    var s := s.(clock := s.clock + 1);
    var now := s.clock - 1;
    match step
    case EnterLoad(t) => s.(pcs := s.pcs[t := Entering(s.current)])
    case EnterStore(t) =>
      s.(slots := s.slots[t := s.pcs[t].epoch], pcs := s.pcs[t := Inside], born := s.born[t := now])
    case RefreshLoad(t) => s.(pcs := s.pcs[t := Refreshing(s.current)])
    case RefreshStore(t) =>
      s.(slots := s.slots[t := s.pcs[t].epoch], pcs := s.pcs[t := Inside], born := s.born[t := now])
    case Leave(t) => s.(slots := s.slots[t := 0], pcs := s.pcs[t := Outside])
    case Bump => s.(current := s.current + 1)
    case LoadPrior(id) => s.(actions := s.actions[id := Action(s.current, now, Loaded)])
    case Push(id) =>
      var a := s.actions[id];
      s.(actions := s.actions[id := Action(a.epoch, if a.epoch == s.current then now else a.stamp, Listed)])
    case DrainStart(d) => s.(drains := s.drains[d := Drain(now, s.current, Scanning(0, s.current))])
    case DrainScan(d) =>
      var i, min := s.drains[d].pc.next, s.drains[d].pc.min;
      var min' := if s.slots[i] != 0 && s.slots[i] < min then s.slots[i] else min;
      s.(drains := s.drains[d := s.drains[d].(pc := Scanning(i + 1, min'))])
    case DrainDecide(d) =>
      s.(drains := s.drains[d := s.drains[d].(pc := Decided(s.drains[d].pc.min - 1))])
    case DrainTake(d) =>
      s.(actions := TakeReady(s.actions, s.drains[d].pc.safe), drains := s.drains - {d})
    case DrainGiveUp(d) => s.(drains := s.drains - {d})
    case Run(id) => s.(actions := s.actions[id := s.actions[id].(pc := Ran)])
  }

  // ---------------------------------------------------------------------
  // The invariant
  // ---------------------------------------------------------------------

  predicate SlotsPublished(s: State)
    requires Shaped(s)
  {
    && 1 <= s.current
    && (forall t :: 0 <= t < |s.pcs| ==> (s.slots[t] != 0 <==> InSection(s, t)))
    && (forall t :: 0 <= t < |s.pcs| ==> s.slots[t] <= s.current)
    && (forall t :: 0 <= t < |s.pcs| && (s.pcs[t].Entering? || s.pcs[t].Refreshing?)
                    ==> 1 <= s.pcs[t].epoch <= s.current)
    && (forall t :: 0 <= t < |s.pcs| && InSection(s, t) ==> s.born[t] < s.clock)
  }

  /** Whoever was inside before an action's epoch was loaded published at most that epoch. */
  predicate ActionsTagged(s: State)
    requires Shaped(s)
  {
    forall id :: id in s.actions ==>
      && 1 <= s.actions[id].epoch <= s.current && s.actions[id].stamp < s.clock
      && forall t :: 0 <= t < |s.pcs| && InSection(s, t) && s.born[t] < s.actions[id].stamp
                     ==> s.slots[t] <= s.actions[id].epoch
  }

  /** Actions tagged after a drain began carry at least the epoch the drain began in. */
  predicate DrainsOrdered(s: State) {
    forall d, id :: d in s.drains && id in s.actions && s.drains[d].start <= s.actions[id].stamp
                    ==> s.drains[d].current <= s.actions[id].epoch
  }

  /** A drain's minimum is at most the slot of every older thread it has passed. */
  predicate DrainBounded(s: State, d: Drain)
    requires Shaped(s)
  {
    && d.start < s.clock && 1 <= d.current <= s.current
    && match d.pc
       case Scanning(next, min) =>
         && 1 <= min <= d.current && next <= |s.slots|
         && forall t :: 0 <= t < |s.pcs| && t < next && InSection(s, t) && s.born[t] < d.start
                        ==> min <= s.slots[t]
       case Decided(safe) =>
         && safe < d.current
         && forall t :: 0 <= t < |s.pcs| && InSection(s, t) && s.born[t] < d.start
                        ==> safe < s.slots[t]
  }

  predicate DrainsBounded(s: State)
    requires Shaped(s)
  {
    forall d :: d in s.drains ==> DrainBounded(s, s.drains[d])
  }

  /** The grace period: nobody is inside since before the epoch of a taken action was loaded. */
  predicate Grace(s: State)
    requires Shaped(s)
  {
    forall id, t :: id in s.actions && (s.actions[id].pc.Taken? || s.actions[id].pc.Ran?)
                    && 0 <= t < |s.pcs| && InSection(s, t)
                    ==> s.actions[id].stamp <= s.born[t]
  }

  /** An action is taken only after its epoch is over. */
  predicate TakenPassed(s: State) {
    forall id :: id in s.actions && (s.actions[id].pc.Taken? || s.actions[id].pc.Ran?) ==>
      s.actions[id].epoch < s.current
  }

  predicate Inv(s: State) {
    && Shaped(s) && SlotsPublished(s) && ActionsTagged(s) && DrainsOrdered(s) && DrainsBounded(s)
    && Grace(s) && TakenPassed(s)
  }

  lemma InitInv(threads: nat)
    ensures Inv(Init(threads))
  {
  }

  lemma StepSlotsPublished(s: State, step: Step)
    requires Inv(s) && Enabled(s, step)
    ensures Shaped(Do(s, step)) && SlotsPublished(Do(s, step))
  {
    hide ActionsTagged, DrainsOrdered, DrainsBounded, Grace, TakenPassed;
  }

  lemma StepActionsTagged(s: State, step: Step)
    requires Inv(s) && Enabled(s, step)
    ensures ActionsTagged(Do(s, step))
  {
    hide DrainsOrdered, DrainsBounded, Grace, TakenPassed;
  }

  lemma StepDrainsOrdered(s: State, step: Step)
    requires Inv(s) && Enabled(s, step)
    ensures DrainsOrdered(Do(s, step))
  {
    hide SlotsPublished, Grace;
  }

  lemma StepDrainBounded(s: State, step: Step, d: nat)
    requires Inv(s) && Enabled(s, step) && d in Do(s, step).drains
    ensures DrainBounded(Do(s, step), Do(s, step).drains[d])
  {
    hide ActionsTagged, DrainsOrdered, Grace, TakenPassed;
    if d in s.drains {
      assert DrainBounded(s, s.drains[d]);
    }
  }

  lemma StepGrace(s: State, step: Step)
    requires Inv(s) && Enabled(s, step)
    ensures Grace(Do(s, step))
  {
  }

  lemma StepTakenPassed(s: State, step: Step)
    requires Inv(s) && Enabled(s, step)
    ensures TakenPassed(Do(s, step))
  {
    hide SlotsPublished, ActionsTagged, DrainsOrdered, Grace;
    if step.DrainTake? {
      assert DrainBounded(s, s.drains[step.drain]);
    }
  }

  /** What a step does to threads and stamps, for machines built on this one. */
  lemma StepView(s: State, step: Step)
    requires Inv(s) && Enabled(s, step)
    ensures var s' := Do(s, step);
            && Shaped(s') && |s'.pcs| == |s.pcs|
            && (forall t :: 0 <= t < |s.pcs| && InSection(s', t) ==>
                  || step == EnterStore(t) || step == RefreshStore(t)
                  || (InSection(s, t) && s'.born[t] == s.born[t]))
            && (forall t :: 0 <= t < |s.pcs| && InSection(s, t) ==> s.born[t] < s.clock)
            && (forall id :: id in s.actions ==>
                  id in s'.actions && s.actions[id].stamp <= s'.actions[id].stamp)
            && (forall id :: id in s'.actions && id !in s.actions ==>
                  step == LoadPrior(id) && s'.actions[id].stamp == s.clock)
  {
  }

  lemma StepInv(s: State, step: Step)
    requires Inv(s) && Enabled(s, step)
    ensures Inv(Do(s, step))
  {
    hide Enabled, Do, SlotsPublished, ActionsTagged, DrainsOrdered, DrainBounded, Grace, TakenPassed;
    StepSlotsPublished(s, step);
    StepActionsTagged(s, step);
    StepDrainsOrdered(s, step);
    forall d | d in Do(s, step).drains
      ensures DrainBounded(Do(s, step), Do(s, step).drains[d])
    {
      StepDrainBounded(s, step, d);
    }
    StepGrace(s, step);
    StepTakenPassed(s, step);
  }

  // ---------------------------------------------------------------------
  // Whole runs
  // ---------------------------------------------------------------------

  /** The states of a run: one more than its steps. */
  ghost predicate IsRun(states: seq<State>, steps: seq<Step>) {
    && |states| == |steps| + 1
    && states[0] == Init(|states[0].slots|)
    && forall i :: 0 <= i < |steps| ==> Enabled(states[i], steps[i]) && states[i + 1] == Do(states[i], steps[i])
  }

  lemma {:induction false} RunInv(states: seq<State>, steps: seq<Step>, i: nat)
    requires IsRun(states, steps) && i < |states|
    ensures Inv(states[i]) && states[i].clock == i
  {
    if i == 0 {
      InitInv(|states[0].slots|);
    } else {
      RunInv(states, steps, i - 1);
      StepInv(states[i - 1], steps[i - 1]);
    }
  }

  predicate LeavesOrRefreshes(step: Step, t: nat) {
    step == Leave(t) || step == RefreshStore(t)
  }

  /** A thread that neither leaves nor refreshes stays inside with the same birth. */
  lemma {:induction false} StaysInside(states: seq<State>, steps: seq<Step>, i: nat, j: nat, t: nat)
    requires IsRun(states, steps) && i <= j < |states| && InSection(states[i], t)
    requires forall k :: i <= k < j ==> !LeavesOrRefreshes(steps[k], t)
    ensures InSection(states[j], t) && |states[i].born| == |states[j].born| == |states[j].pcs|
    ensures states[j].born[t] == states[i].born[t]
  {
    RunInv(states, steps, i);
    if i < j {
      StaysInside(states, steps, i, j - 1, t);
      RunInv(states, steps, j - 1);
      RunInv(states, steps, j);
      assert !LeavesOrRefreshes(steps[j - 1], t);
    }
  }

  /** A registered action keeps its stamp, or moves it to its push. */
  lemma {:induction false} KeepsStamp(states: seq<State>, steps: seq<Step>, i: nat, j: nat, id: nat)
    requires IsRun(states, steps) && i < j < |states| && steps[i] == LoadPrior(id)
    ensures id in states[j].actions && i <= states[j].actions[id].stamp
    ensures states[j].actions[id].epoch == states[i].current
  {
    RunInv(states, steps, i);
    if i + 1 < j {
      KeepsStamp(states, steps, i, j - 1, id);
      RunInv(states, steps, j - 1);
    }
  }

  lemma StampFixed(s: State, step: Step, id: nat)
    requires Enabled(s, step) && id in s.actions && !s.actions[id].pc.Loaded?
    ensures id in Do(s, step).actions && !Do(s, step).actions[id].pc.Loaded?
    ensures Do(s, step).actions[id].stamp == s.actions[id].stamp
  {
  }

  lemma {:induction false} KeepsPushStamp(states: seq<State>, steps: seq<Step>, i: nat, p: nat, j: nat, id: nat)
    requires IsRun(states, steps) && i < p < j < |states|
    requires steps[i] == LoadPrior(id) && steps[p] == Push(id) && states[p].current == states[i].current
    ensures id in states[j].actions && states[j].actions[id].stamp == p && !states[j].actions[id].pc.Loaded?
  {
    if p + 1 < j {
      KeepsPushStamp(states, steps, i, p, j - 1, id);
      StampFixed(states[j - 1], steps[j - 1], id);
    } else {
      KeepsStamp(states, steps, i, p, id);
      RunInv(states, steps, p);
    }
  }

  /**
    The epoch guarantee: an action runs only after every thread that was inside
    a section when the action's epoch was loaded has left it or refreshed.
   */
  lemma GracePeriod(states: seq<State>, steps: seq<Step>, i: nat, j: nat, id: nat, t: nat)
    requires IsRun(states, steps) && i < j < |steps|
    requires steps[i] == LoadPrior(id) && steps[j] == Run(id) && InSection(states[i], t)
    ensures exists k :: i <= k < j && LeavesOrRefreshes(steps[k], t)
  {
    if forall k :: i <= k < j ==> !LeavesOrRefreshes(steps[k], t) {
      StaysInside(states, steps, i, j, t);
      KeepsStamp(states, steps, i, j, id);
      RunInv(states, steps, i);
      RunInv(states, steps, j);
      assert false;
    }
  }

  /** A taken action is taken once, and once it has run it never runs again. */
  lemma {:induction false} RunsOnce(states: seq<State>, steps: seq<Step>, i: nat, j: nat, id: nat)
    requires IsRun(states, steps) && i < j < |states| && steps[i] == Run(id)
    ensures id in states[j].actions && states[j].actions[id].pc.Ran?
    ensures j < |steps| ==> steps[j] != Run(id)
  {
    if i + 1 < j {
      RunsOnce(states, steps, i, j - 1, id);
    }
  }

  /**
    What the three users of `bump_with_action` rely on. A word that only grows
    is published before the action's epoch is loaded, and a thread reads the
    word after it publishes its slot. When the action runs, whoever is inside
    has read a value at least as new as the published one.
   */
  lemma ObservedSincePublication(states: seq<State>, steps: seq<Step>, word: seq<int>,
                                 i: nat, j: nat, id: nat, t: nat)
    requires IsRun(states, steps) && i < j < |steps| && |word| == |states|
    requires forall p, q :: 0 <= p <= q < |word| ==> word[p] <= word[q]
    requires steps[i] == LoadPrior(id) && steps[j] == Run(id) && InSection(states[j], t)
    ensures |states[j].born| == |states[j].pcs| && states[j].born[t] < j
    ensures word[i] <= word[states[j].born[t]]
  {
    RunInv(states, steps, j);
    KeepsStamp(states, steps, i, j, id);
  }

  // ---------------------------------------------------------------------
  // Registration is the load, not the push
  // ---------------------------------------------------------------------

  /** If no bump came between load and push, whoever is inside at the push is waited for too. */
  lemma GraceFromPush(states: seq<State>, steps: seq<Step>, i: nat, p: nat, j: nat, id: nat, t: nat)
    requires IsRun(states, steps) && i < p < j < |steps|
    requires steps[i] == LoadPrior(id) && steps[p] == Push(id) && steps[j] == Run(id)
    requires InSection(states[p], t) && states[p].current == states[i].current
    ensures exists k :: p <= k < j && LeavesOrRefreshes(steps[k], t)
  {
    if forall k :: p <= k < j ==> !LeavesOrRefreshes(steps[k], t) {
      StaysInside(states, steps, p, j, t);
      KeepsPushStamp(states, steps, i, p, j, id);
      RunInv(states, steps, p);
      RunInv(states, steps, j);
      assert false;
    }
  }

  const TooLateSteps: seq<Step> :=
    [LoadPrior(7), Bump, EnterLoad(0), EnterStore(0), Push(7), Bump,
     DrainStart(0), DrainScan(0), DrainDecide(0), DrainTake(0), Run(7)]

  function TooLateStates(): seq<State> {
    var s1 := State(1, 1, [0], [Outside], [0], map[7 := Action(1, 0, Loaded)], map[]);
    var s2 := s1.(clock := 2, current := 2);
    var s3 := s2.(clock := 3, pcs := [Entering(2)]);
    var s4 := s3.(clock := 4, pcs := [Inside], slots := [2], born := [3]);
    var s5 := s4.(clock := 5, actions := map[7 := Action(1, 0, Listed)]);
    var s6 := s5.(clock := 6, current := 3);
    var s7 := s6.(clock := 7, drains := map[0 := Drain(6, 3, Scanning(0, 3))]);
    var s8 := s7.(clock := 8, drains := map[0 := Drain(6, 3, Scanning(1, 2))]);
    var s9 := s8.(clock := 9, drains := map[0 := Drain(6, 3, Decided(1))]);
    var s10 := s9.(clock := 10, drains := map[], actions := map[7 := Action(1, 0, Taken)]);
    [Init(1), s1, s2, s3, s4, s5, s6, s7, s8, s9, s10, s10.(clock := 11, actions := map[7 := Action(1, 0, Ran)])]
  }

  predicate TooLateFollows(i: nat)
    requires i < 11
  {
    var states := TooLateStates();
    Enabled(states[i], TooLateSteps[i]) && states[i + 1] == Do(states[i], TooLateSteps[i])
  }

  lemma TooLateFirstSteps()
    ensures forall i :: 0 <= i < 3 ==> TooLateFollows(i)
  {
    assert TooLateFollows(0) && TooLateFollows(1) && TooLateFollows(2);
  }

  lemma TooLateNextSteps()
    ensures forall i :: 3 <= i < 6 ==> TooLateFollows(i)
  {
    assert TooLateFollows(3) && TooLateFollows(4) && TooLateFollows(5);
  }

  lemma TooLateScan()
    ensures forall i :: 6 <= i < 9 ==> TooLateFollows(i)
  {
    assert TooLateFollows(6) && TooLateFollows(7) && TooLateFollows(8);
  }

  lemma TooLateLastSteps()
    ensures forall i :: 9 <= i < 11 ==> TooLateFollows(i)
  {
    assert TooLateFollows(9) && TooLateFollows(10);
  }

  /**
    With a bump in between it may not be: thread 0 enters after the load, is
    inside at the push, and is still inside when the action runs.
   */
  lemma PushIsTooLate()
    ensures var states, steps := TooLateStates(), TooLateSteps;
            && IsRun(states, steps)
            && steps[0] == LoadPrior(7) && steps[4] == Push(7) && steps[10] == Run(7)
            && InSection(states[4], 0) && InSection(states[10], 0)
            && forall k :: 4 <= k < 10 ==> !LeavesOrRefreshes(steps[k], 0)
  {
    TooLateFirstSteps();
    TooLateNextSteps();
    TooLateScan();
    TooLateLastSteps();
    forall i | 0 <= i < 11
      ensures Enabled(TooLateStates()[i], TooLateSteps[i])
      ensures TooLateStates()[i + 1] == Do(TooLateStates()[i], TooLateSteps[i])
    {
      assert TooLateFollows(i);
    }
  }
}
