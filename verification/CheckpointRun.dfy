/**
  The checkpoint driven through the epoch (crates/tsavorite/src/checkpoint.rs:99-176,
  crates/tsavorite/src/store.rs:604-623). `transition_and_wait` publishes a phase,
  registers an action with the epoch and waits for it; sessions publish their
  epoch slot, then read the phase, then work under the phase they read. All of
  them interleave one atomic step at a time.
 */
module CheckpointRun {
  import opened Bytes
  import opened Chains
  import opened Checkpoint
  import Epoch = EpochMachine
  import W = EpochWord

  /**
    `held[t]` is the phase that thread t read since it last published its slot.
    `waiting` is the action that the current phase change waits for.
   */
  datatype State = State(w: W.State, core: Core, held: seq<Option<nat>>, waiting: Option<nat>)

  datatype Move =
    | OfThread(epoch: Epoch.Step)
    | OtherAction(id: nat)
    | RunOther(id: nat)
    | ReadPhase(thread: nat)
    | Act(thread: nat, write: Step)
    | Background(step: Step)
    | ChangePhase
    | RegisterDrain(id: nat)
    | RunDrain(id: nat)

  predicate Shaped(s: State) {
    |s.held| == |s.w.floors|
  }

  function Init(threads: nat, core: Core): State {
    State(W.Init(threads), core, seq(threads, _ => None), None)
  }

  predicate Enabled(s: State, slotOf: Key -> nat, move: Move) {
    && Shaped(s)
    && match move
       case OfThread(e) => W.Enabled(s.w, W.OfEpoch(e))
       case OtherAction(id) => W.Enabled(s.w, W.Register(id))
       case RunOther(id) => s.waiting != Some(id) && W.Enabled(s.w, W.RunAction(id))
       case ReadPhase(t) => W.Inside(s.w, t)
       case Act(t, write) =>
         && W.Inside(s.w, t) && s.held[t].Some?
         && IsWrite(write) && write.phase == s.held[t].value && Guard(s.core, slotOf, write)
       case Background(step) =>
         !IsWrite(step) && !step.Advance? && !step.Settle? && Guard(s.core, slotOf, step)
       case ChangePhase => MayAdvance(s.core)
       case RegisterDrain(id) => !s.core.quiet && s.waiting.None? && W.Enabled(s.w, W.Register(id))
       case RunDrain(id) => s.waiting == Some(id) && W.Enabled(s.w, W.RunAction(id))
  }

  function Do(s: State, slotOf: Key -> nat, move: Move): State
    requires Enabled(s, slotOf, move)
  {
    match move
    case OfThread(e) =>
      var s' := s.(w := W.Do(s.w, W.OfEpoch(e)));
      if (e.EnterStore? || e.RefreshStore?) && e.thread < |s.held| then
        s'.(held := s.held[e.thread := None])
      else s'
    case OtherAction(id) => s.(w := W.Do(s.w, W.Register(id)))
    case RunOther(id) => s.(w := W.Do(s.w, W.RunAction(id)))
    case ReadPhase(t) => s.(held := s.held[t := Some(s.w.word)])
    case Act(t, write) => s.(core := Checkpoint.Do(s.core, slotOf, write))
    case Background(step) => s.(core := Checkpoint.Do(s.core, slotOf, step))
    case ChangePhase =>
      s.(core := Checkpoint.Do(s.core, slotOf, Advance), w := W.Do(s.w, W.Publish(s.w.word + 1)))
    case RegisterDrain(id) => s.(w := W.Do(s.w, W.Register(id)), waiting := Some(id))
    case RunDrain(id) =>
      s.(w := W.Do(s.w, W.RunAction(id)), core := Checkpoint.Do(s.core, slotOf, Settle), waiting := None)
  }

  // ---------------------------------------------------------------------
  // The invariant
  // ---------------------------------------------------------------------

  /** Whoever is inside entered at most one phase ago, and not before a change that has drained. */
  predicate EnteredLately(s: State, t: nat)
    requires Shaped(s)
  {
    W.Inside(s.w, t) ==>
      && s.w.floors[t] <= s.w.word <= s.w.floors[t] + 1
      && (s.core.quiet ==> s.w.floors[t] == s.w.word)
      && (s.held[t].Some? ==> s.w.floors[t] <= s.held[t].value <= s.w.word)
  }

  predicate Waits(s: State) {
    s.waiting.Some? ==>
      !s.core.quiet && s.waiting.value in s.w.values && s.w.values[s.waiting.value] == s.w.word
  }

  ghost predicate Inv(s: State, slotOf: Key -> nat) {
    && Shaped(s) && W.Inv(s.w) && Checkpoint.Inv(s.core, slotOf)
    && s.core.phase == s.w.word && Waits(s)
    && forall t: nat :: EnteredLately(s, t)
  }

  lemma InitInv(threads: nat, core: Core, slotOf: Key -> nat)
    requires AtRest(core, slotOf)
    ensures Inv(Init(threads, core), slotOf)
  {
    W.InitInv(threads);
    RestInv(core, slotOf);
  }

  /** Every session inside works under the current phase, or the one before while a change drains. */
  lemma HoldsPhase(s: State, slotOf: Key -> nat, t: nat)
    requires Inv(s, slotOf) && W.Inside(s.w, t) && s.held[t].Some?
    ensures PhaseHeld(s.core, s.held[t].value)
  {
    assert EnteredLately(s, t);
  }

  predicate OnEpoch(move: Move) {
    !move.Act? && !move.Background? && !move.ReadPhase?
  }

  function WordPart(s: State, move: Move): W.Step
    requires OnEpoch(move)
  {
    match move
    case OfThread(e) => W.OfEpoch(e)
    case OtherAction(id) => W.Register(id)
    case RunOther(id) => W.RunAction(id)
    case ChangePhase => W.Publish(s.w.word + 1)
    case RegisterDrain(id) => W.Register(id)
    case RunDrain(id) => W.RunAction(id)
  }

  /** The part of the checkpoint's own state that a move changes. */
  function CorePart(move: Move): Option<Step> {
    match move
    case Act(_, write) => Some(write)
    case Background(step) => Some(step)
    case ChangePhase => Some(Advance)
    case RunDrain(_) => Some(Settle)
    case _ => None
  }

  lemma StepWord(s: State, slotOf: Key -> nat, move: Move)
    requires Inv(s, slotOf) && Enabled(s, slotOf, move)
    ensures W.Inv(Do(s, slotOf, move).w)
    ensures Shaped(Do(s, slotOf, move))
  {
    if OnEpoch(move) {
      W.StepInv(s.w, WordPart(s, move));
      W.StepShape(s.w, WordPart(s, move));
    }
  }

  /** In the checkpoint's own terms, every move is one of its steps or leaves it alone. */
  lemma CoreStep(s: State, slotOf: Key -> nat, move: Move)
    requires Inv(s, slotOf) && Enabled(s, slotOf, move)
    ensures var part := CorePart(move);
            if part.Some? then
              && Checkpoint.Enabled(s.core, slotOf, part.value)
              && Do(s, slotOf, move).core == Checkpoint.Do(s.core, slotOf, part.value)
            else Do(s, slotOf, move).core == s.core
  {
    if move.Act? {
      HoldsPhase(s, slotOf, move.thread);
    }
  }

  lemma StepCore(s: State, slotOf: Key -> nat, move: Move)
    requires Inv(s, slotOf) && Enabled(s, slotOf, move)
    ensures Checkpoint.Inv(Do(s, slotOf, move).core, slotOf)
    ensures Do(s, slotOf, move).core.phase == Do(s, slotOf, move).w.word
  {
    hide Checkpoint.Inv;
    CoreStep(s, slotOf, move);
    if CorePart(move).Some? {
      Checkpoint.StepInv(s.core, slotOf, CorePart(move).value);
    }
  }

  /** Moves off the epoch leave the word, the floors and the state of the drain alone. */
  lemma OffEpoch(s: State, slotOf: Key -> nat, move: Move)
    requires Enabled(s, slotOf, move) && !OnEpoch(move)
    ensures Do(s, slotOf, move).w == s.w && Do(s, slotOf, move).core.quiet == s.core.quiet
    ensures Do(s, slotOf, move).waiting == s.waiting
    ensures !move.ReadPhase? ==> Do(s, slotOf, move).held == s.held
  {
    if CorePart(move).Some? {
      KeepsQuiet(s.core, slotOf, CorePart(move).value);
    }
  }

  lemma EnteredOnEpoch(s: State, slotOf: Key -> nat, move: Move, t: nat)
    requires Shaped(s) && W.Inv(s.w) && EnteredLately(s, t) && Waits(s)
    requires Enabled(s, slotOf, move) && OnEpoch(move) && Shaped(Do(s, slotOf, move))
    ensures EnteredLately(Do(s, slotOf, move), t)
  {
    if W.Inside(Do(s, slotOf, move).w, t) {
      W.StepInside(s.w, WordPart(s, move), t);
      if move.RunDrain? {
        W.RunFindsAll(s.w, move.id, t);
      }
    }
  }

  lemma StepEntered(s: State, slotOf: Key -> nat, move: Move, t: nat)
    requires Inv(s, slotOf) && Enabled(s, slotOf, move) && Shaped(Do(s, slotOf, move))
    ensures EnteredLately(Do(s, slotOf, move), t)
  {
    assert EnteredLately(s, t);
    if OnEpoch(move) {
      EnteredOnEpoch(s, slotOf, move, t);
    } else {
      OffEpoch(s, slotOf, move);
    }
  }

  lemma StepWaits(s: State, slotOf: Key -> nat, move: Move)
    requires Shaped(s) && W.Linked(s.w) && Waits(s) && Enabled(s, slotOf, move)
    ensures Waits(Do(s, slotOf, move))
  {
    if !OnEpoch(move) {
      OffEpoch(s, slotOf, move);
    }
  }

  lemma StepInv(s: State, slotOf: Key -> nat, move: Move)
    requires Inv(s, slotOf) && Enabled(s, slotOf, move)
    ensures Inv(Do(s, slotOf, move), slotOf)
  {
    StepWord(s, slotOf, move);
    StepCore(s, slotOf, move);
    StepWaits(s, slotOf, move);
    forall t: nat
      ensures EnteredLately(Do(s, slotOf, move), t)
    {
      StepEntered(s, slotOf, move, t);
    }
  }

  // ---------------------------------------------------------------------
  // Runs
  // ---------------------------------------------------------------------

  predicate StepAt(states: seq<State>, slotOf: Key -> nat, moves: seq<Move>, i: nat)
    requires i < |moves| && |states| == |moves| + 1
  {
    Enabled(states[i], slotOf, moves[i]) && states[i + 1] == Do(states[i], slotOf, moves[i])
  }

  /** A checkpoint begins at rest, with any number of threads and any contents of the store. */
  ghost predicate IsRun(states: seq<State>, slotOf: Key -> nat, moves: seq<Move>) {
    && |states| == |moves| + 1
    && (exists threads: nat, core: Core :: AtRest(core, slotOf) && states[0] == Init(threads, core))
    && forall i: nat :: i < |moves| ==> StepAt(states, slotOf, moves, i)
  }

  lemma {:induction false} RunInv(states: seq<State>, slotOf: Key -> nat, moves: seq<Move>, i: nat)
    requires IsRun(states, slotOf, moves) && i < |states|
    ensures Inv(states[i], slotOf)
  {
    if i == 0 {
      var threads: nat, core: Core :| AtRest(core, slotOf) && states[0] == Init(threads, core);
      InitInv(threads, core, slotOf);
    } else {
      RunInv(states, slotOf, moves, i - 1);
      assert StepAt(states, slotOf, moves, i - 1);
      StepInv(states[i - 1], slotOf, moves[i - 1]);
    }
  }

  /** When `transition_and_wait` has returned, no session inside holds an older phase. */
  lemma VersionDrain(states: seq<State>, slotOf: Key -> nat, moves: seq<Move>, i: nat, t: nat)
    requires IsRun(states, slotOf, moves) && i < |states| && states[i].core.quiet
    requires W.Inside(states[i].w, t) && t < |states[i].held| && states[i].held[t].Some?
    ensures states[i].held[t].value == states[i].core.phase
  {
    RunInv(states, slotOf, moves, i);
    HoldsPhase(states[i], slotOf, t);
  }

  /** A record of version v is as it was: same place, key, value and tombstone, still of version v. */
  predicate Frozen(c: Core, c': Core, a: nat) {
    && (IsOld(c', a) <==> IsOld(c, a))
    && (IsOld(c, a) ==>
          && SameFrame(c.log[a], c'.log[a])
          && c'.log[a].payload == c.log[a].payload && c'.log[a].tombstone == c.log[a].tombstone)
  }

  /** Once the shift to v+1 has drained, version v gains no record and none of its records changes. */
  lemma {:induction false} VersionFrozen(states: seq<State>, slotOf: Key -> nat, moves: seq<Move>,
                                         i: nat, j: nat, a: nat)
    requires IsRun(states, slotOf, moves) && i <= j < |states| && Closed(states[i].core)
    ensures Closed(states[j].core) && Frozen(states[i].core, states[j].core, a)
    ensures states[j].core.vmap == states[i].core.vmap
    decreases j
  {
    hide Inv, Do, Enabled, Checkpoint.Inv, Checkpoint.Do, Checkpoint.Enabled;
    if i < j {
      VersionFrozen(states, slotOf, moves, i, j - 1, a);
      var s, move := states[j - 1], moves[j - 1];
      RunInv(states, slotOf, moves, j - 1);
      assert StepAt(states, slotOf, moves, j - 1);
      CoreStep(s, slotOf, move);
      if CorePart(move).Some? {
        ClosedStep(s.core, slotOf, CorePart(move).value, a);
      }
    }
  }
}
