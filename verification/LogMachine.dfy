/**
  The boundaries of the log under concurrency (crates/tsavorite/src/log.rs),
  built on the epoch machine: every thread of the log is a thread of the epoch
  table, and the two kinds of deferred action are actions of its drain list.
  One step is one atomic load, store, CAS or fetch_max; flushing copies one
  record at a time while writers go on.

  `floor` and `headFloor` are history: ReadOnly and Head when a thread last
  published its epoch slot. `latest` is the last image written of each record.
 */
module LogMachine {
  import opened Bytes
  import opened HybridLogs
  import Epoch = EpochMachine

  /** Page size and number of buffer slots. */
  datatype Geometry = Geometry(ps: nat, buffer: nat)

  datatype Shift = ToReadOnly(addr: nat) | ToHead(addr: nat)

  /** A record image: its contents, and the Sealed bit of its header. */
  datatype Image = Image(body: nat, isSealed: bool)

  datatype Local = Local(floor: nat, headFloor: nat, readOnly: Option<nat>, head: Option<nat>, filling: set<nat>)

  datatype Flush = Flush(from: nat, at: nat, until: nat)

  datatype State = State(
    ep: Epoch.State,
    shifts: map<nat, Shift>,
    locals: seq<Local>,
    tail: nat,
    readOnly: nat,
    safeReadOnly: nat,
    flushed: nat,
    head: nat,
    safeHead: nat,
    closed: nat,
    toFlush: set<nat>,
    toClose: set<nat>,
    flush: Option<Flush>,
    memory: map<nat, Image>,
    device: map<nat, Image>,
    latest: map<nat, Image>)

  datatype LogStep =
    | PublishReadOnly(addr: nat)
    | PublishHead(addr: nat)
    | FlushStart(until: nat)
    | FlushCopy
    | FlushEnd
    | ClosePage(newHead: nat)
    | LoadReadOnly(thread: nat)
    | LoadHead(thread: nat)
    | Allocate(thread: nat, addr: nat, end: nat)
    | FillRecord(thread: nat, addr: nat, image: Image)
    | UpdateInPlace(thread: nat, addr: nat, image: Image)
    | SealRecord(addr: nat)
    | ZeroPage(next: nat)

  /** A step of the log alone, a step of the epoch table alone, or both at once. */
  datatype Step =
    | OfLog(step: LogStep)
    | OfEpoch(epochStep: Epoch.Step)
    | Register(id: nat, shift: Shift)
    | RunShift(id: nat)

  function Init(threads: nat): State {
    State(Epoch.Init(threads), map[], seq(threads, _ => Local(0, 0, None, None, {})),
          FIRST_VALID_ADDRESS, FIRST_VALID_ADDRESS, FIRST_VALID_ADDRESS, FIRST_VALID_ADDRESS,
          FIRST_VALID_ADDRESS, FIRST_VALID_ADDRESS, 0,
          {}, {}, None, map[], map[], map[])
  }

  /** Steps of the epoch table that are not tied to an action of the log. */
  predicate Free(step: Epoch.Step) {
    !step.LoadPrior? && !step.Run?
  }

  predicate CanWork(s: State, t: nat) {
    t < |s.locals| && Epoch.InSection(s.ep, t)
  }

  predicate PageFree(g: Geometry, s: State, page: nat) {
    page < g.buffer || PageAddress(page - g.buffer + 1, g.ps) <= s.closed
  }

  predicate LogEnabled(g: Geometry, s: State, step: LogStep) {
    match step
    case PublishReadOnly(addr) => s.readOnly < addr <= s.tail
    case PublishHead(addr) => s.head < addr <= s.flushed
    case FlushStart(until) => until in s.toFlush && s.flush.None?
    case FlushCopy => s.flush.Some? && s.flush.value.at < s.flush.value.until
    case FlushEnd => s.flush.Some? && s.flush.value.at == s.flush.value.until
    case ClosePage(newHead) => newHead in s.toClose && s.closed + g.ps <= newHead
    case LoadReadOnly(t) => CanWork(s, t)
    case LoadHead(t) => CanWork(s, t)
    case Allocate(t, addr, end) => CanWork(s, t) && s.tail <= addr < end
    case FillRecord(t, addr, _) => CanWork(s, t) && addr in s.locals[t].filling
    case UpdateInPlace(t, addr, _) =>
      && CanWork(s, t) && s.locals[t].readOnly.Some? && s.locals[t].readOnly.value <= addr
      && addr in s.latest
    case SealRecord(addr) => addr in s.memory && addr in s.latest
    case ZeroPage(next) => PageFree(g, s, next) && s.tail <= PageAddress(next, g.ps)
  }

  function WriteImage(s: State, addr: nat, image: Image): State {
    s.(memory := s.memory[addr := image], latest := s.latest[addr := image])
  }

  function DoLog(g: Geometry, s: State, step: LogStep): State
    requires 0 < g.ps && 0 < g.buffer && LogEnabled(g, s, step)
  {
    match step
    case PublishReadOnly(addr) => s.(readOnly := addr)
    case PublishHead(addr) => s.(head := addr)
    case FlushStart(until) =>
      if until <= s.flushed then s
      else s.(flush := Some(Flush(s.flushed, s.flushed, until)))
    case FlushCopy =>
      var at := s.flush.value.at;
      var s' := s.(flush := Some(s.flush.value.(at := at + 1)));
      if at in s.memory then s'.(device := s.device[at := s.memory[at]]) else s'
    case FlushEnd =>
      s.(flushed := Max(s.flushed, s.flush.value.until), flush := None)
    case ClosePage(newHead) => s.(closed := s.closed + g.ps)
    case LoadReadOnly(t) => s.(locals := s.locals[t := s.locals[t].(readOnly := Some(s.readOnly))])
    case LoadHead(t) => s.(locals := s.locals[t := s.locals[t].(head := Some(s.head))])
    case Allocate(t, addr, end) =>
      WriteImage(s, addr, Image(0, true))
        .(tail := end, locals := s.locals[t := s.locals[t].(filling := s.locals[t].filling + {addr})])
    case FillRecord(t, addr, image) => WriteImage(s, addr, image)
    case UpdateInPlace(t, addr, image) => WriteImage(s, addr, image)
    case SealRecord(addr) =>
      s.(memory := s.memory[addr := s.memory[addr].(isSealed := true)],
         latest := s.latest[addr := s.latest[addr].(isSealed := true)])
    case ZeroPage(next) =>
      s.(memory := map a | a in s.memory && a / g.ps % g.buffer != next % g.buffer :: s.memory[a])
  }

  /** The epoch table's part of a step, if it has one. */
  function EpochPart(step: Step): Epoch.Step
    requires !step.OfLog?
  {
    match step
    case OfEpoch(e) => e
    case Register(id, _) => Epoch.LoadPrior(id)
    case RunShift(id) => Epoch.Run(id)
  }

  predicate Enabled(g: Geometry, s: State, step: Step) {
    && FIRST_VALID_ADDRESS < g.ps && 2 <= g.buffer
    && (!step.OfLog? ==> Epoch.Enabled(s.ep, EpochPart(step)))
    && match step
       case OfLog(l) => LogEnabled(g, s, l)
       case OfEpoch(e) => Free(e)
       case Register(id, shift) => shift.addr <= if shift.ToReadOnly? then s.readOnly else s.head
       case RunShift(id) => id in s.shifts
  }

  /** A thread that publishes its slot will read the boundaries afresh. */
  function Enter(s: State, step: Epoch.Step): seq<Local> {
    if (step.EnterStore? || step.RefreshStore?) && step.thread < |s.locals| then
      s.locals[step.thread := Local(s.readOnly, s.head, None, None, {})]
    else
      s.locals
  }

  function RunAction(s: State, shift: Shift): State {
    match shift
    case ToReadOnly(addr) =>
      s.(safeReadOnly := Max(s.safeReadOnly, addr), toFlush := s.toFlush + {addr})
    case ToHead(addr) =>
      s.(safeHead := Max(s.safeHead, addr), toClose := s.toClose + {addr})
  }

  function Do(g: Geometry, s: State, step: Step): State
    requires Enabled(g, s, step)
  {
    match step
    case OfLog(l) => DoLog(g, s, l)
    case OfEpoch(e) => s.(ep := Epoch.Do(s.ep, e), locals := Enter(s, e))
    case Register(id, shift) => s.(ep := Epoch.Do(s.ep, EpochPart(step)), shifts := s.shifts[id := shift])
    case RunShift(id) => RunAction(s.(ep := Epoch.Do(s.ep, EpochPart(step))), s.shifts[id])
  }

  // ---------------------------------------------------------------------
  // The invariant
  // ---------------------------------------------------------------------

  predicate Linked(s: State) {
    && Epoch.Inv(s.ep) && |s.locals| == |s.ep.pcs|
    && s.ep.actions.Keys == s.shifts.Keys
  }

  /** The documented order of the boundaries, with every request behind the boundary it serves. */
  predicate Ordered(s: State) {
    && s.closed <= s.safeHead <= s.head <= s.flushed <= s.safeReadOnly <= s.readOnly <= s.tail
    && (forall id :: id in s.shifts ==>
          s.shifts[id].addr <= if s.shifts[id].ToReadOnly? then s.readOnly else s.head)
    && (forall v :: v in s.toFlush ==> v <= s.safeReadOnly)
    && (forall v :: v in s.toClose ==> v <= s.safeHead)
    && (s.flush.Some? ==>
          s.flush.value.from == s.flushed <= s.flush.value.at <= s.flush.value.until <= s.safeReadOnly)
  }

  /** Whoever entered after a shift was registered found its value published. */
  predicate SeesShift(s: State, t: nat, id: nat)
    requires Linked(s) && t < |s.locals| && id in s.shifts
  {
    s.ep.actions[id].stamp <= s.ep.born[t] ==>
      s.shifts[id].addr <= if s.shifts[id].ToReadOnly? then s.locals[t].floor else s.locals[t].headFloor
  }

  predicate FloorOk(s: State, t: nat)
    requires t < |s.locals|
  {
    var l := s.locals[t];
    && s.safeReadOnly <= l.floor <= s.readOnly
    && s.safeHead <= l.headFloor <= s.head
    && (l.readOnly.Some? ==> l.floor <= l.readOnly.value)
    && (l.head.Some? ==> l.headFloor <= l.head.value)
    && (forall a :: a in l.filling ==> l.floor <= a && a in s.latest)
  }

  predicate Floors(s: State) {
    forall t :: 0 <= t < |s.locals| && Epoch.InSection(s.ep, t) ==> FloorOk(s, t)
  }

  predicate AllSeeShifts(s: State)
    requires Linked(s)
  {
    forall t, id :: 0 <= t < |s.locals| && Epoch.InSection(s.ep, t) && id in s.shifts ==> SeesShift(s, t, id)
  }

  predicate InMemory(s: State) {
    forall a :: a in s.latest ==>
      a < s.tail && (s.closed <= a ==> a in s.memory && s.memory[a] == s.latest[a])
  }

  function CopiedUpTo(s: State): nat {
    if s.flush.Some? then s.flush.value.at else s.flushed
  }

  /** What the device holds is final, up to the Sealed bit. */
  predicate OnDevice(s: State) {
    forall a :: a in s.latest && a < CopiedUpTo(s) ==>
      a in s.device && s.device[a].body == s.latest[a].body
  }

  predicate Inv(s: State) {
    Linked(s) && Ordered(s) && Floors(s) && AllSeeShifts(s) && InMemory(s) && OnDevice(s)
  }

  lemma InitInv(threads: nat)
    ensures Inv(Init(threads))
  {
    Epoch.InitInv(threads);
  }

  // Steps of the log alone.

  lemma LogOrdered(g: Geometry, s: State, step: LogStep)
    requires 0 < g.ps && 0 < g.buffer && Ordered(s) && LogEnabled(g, s, step)
    ensures Ordered(DoLog(g, s, step))
  {
  }

  lemma LogFloor(g: Geometry, s: State, step: LogStep, t: nat)
    requires 0 < g.ps && 0 < g.buffer && Ordered(s) && LogEnabled(g, s, step)
    requires t < |s.locals| && FloorOk(s, t)
    ensures |DoLog(g, s, step).locals| == |s.locals| && FloorOk(DoLog(g, s, step), t)
  {
    hide Epoch.Inv, Epoch.InSection;
  }

  lemma LogFloors(g: Geometry, s: State, step: LogStep)
    requires 0 < g.ps && 0 < g.buffer && Ordered(s) && Floors(s) && LogEnabled(g, s, step)
    ensures Floors(DoLog(g, s, step))
  {
    LogKeepsFloors(g, s, step);
    forall t: nat | t < |s.locals| && Epoch.InSection(s.ep, t) ensures FloorOk(DoLog(g, s, step), t) {
      LogFloor(g, s, step, t);
    }
  }

  lemma LogKeepsFloors(g: Geometry, s: State, step: LogStep)
    requires 0 < g.ps && 0 < g.buffer && LogEnabled(g, s, step)
    ensures var s' := DoLog(g, s, step);
            && s'.ep == s.ep && s'.shifts == s.shifts && |s'.locals| == |s.locals|
            && forall t :: 0 <= t < |s.locals| ==>
                 s'.locals[t].floor == s.locals[t].floor && s'.locals[t].headFloor == s.locals[t].headFloor
  {
  }

  lemma LogSeesShifts(g: Geometry, s: State, s': State)
    requires Linked(s) && AllSeeShifts(s)
    requires s'.ep == s.ep && s'.shifts == s.shifts && |s'.locals| == |s.locals|
    requires forall t :: 0 <= t < |s.locals| ==>
               s'.locals[t].floor == s.locals[t].floor && s'.locals[t].headFloor == s.locals[t].headFloor
    ensures Linked(s') && AllSeeShifts(s')
  {
    forall t, id | 0 <= t < |s.locals| && Epoch.InSection(s.ep, t) && id in s.shifts
      ensures SeesShift(s', t, id)
    {
      assert SeesShift(s, t, id);
    }
  }

  lemma LogInMemory(g: Geometry, s: State, step: LogStep)
    requires 0 < g.ps && 0 < g.buffer && LogEnabled(g, s, step)
    requires Linked(s) && Floors(s) && InMemory(s)
    ensures InMemory(DoLog(g, s, step))
  {
    hide Epoch.Inv, Epoch.InSection;
    if step.ZeroPage? {
      forall a | a in s.latest && a / g.ps % g.buffer == step.next % g.buffer ensures a < s.closed {
        PageBelow(a, g.ps, step.next);
        SlotReuse(a / g.ps, step.next, g.buffer);
        PageStart(a, g.ps, step.next - g.buffer + 1);
      }
    }
  }

  lemma LogOnDevice(g: Geometry, s: State, step: LogStep)
    requires 0 < g.ps && 0 < g.buffer && LogEnabled(g, s, step)
    requires Linked(s) && Floors(s) && Ordered(s) && InMemory(s) && OnDevice(s)
    ensures OnDevice(DoLog(g, s, step))
  {
    hide Epoch.Inv;
  }

  lemma LogInv(g: Geometry, s: State, step: LogStep)
    requires 0 < g.ps && 0 < g.buffer && Inv(s) && LogEnabled(g, s, step)
    ensures Inv(DoLog(g, s, step))
  {
    LogOrdered(g, s, step);
    LogFloors(g, s, step);
    LogKeepsFloors(g, s, step);
    LogSeesShifts(g, s, DoLog(g, s, step));
    LogInMemory(g, s, step);
    LogOnDevice(g, s, step);
  }

  // Steps of the epoch table.

  lemma EpochLinked(g: Geometry, s: State, step: Step)
    requires Linked(s) && Enabled(g, s, step) && !step.OfLog?
    ensures Linked(Do(g, s, step))
  {
    hide Epoch.Inv;
    Epoch.StepInv(s.ep, EpochPart(step));
    EpochKeys(s.ep, EpochPart(step));
  }

  lemma EpochKeys(ep: Epoch.State, step: Epoch.Step)
    requires Epoch.Enabled(ep, step)
    ensures Epoch.Do(ep, step).actions.Keys == ep.actions.Keys + if step.LoadPrior? then {step.id} else {}
    ensures |Epoch.Do(ep, step).pcs| == |ep.pcs|
  {
  }

  lemma EpochOrdered(g: Geometry, s: State, step: Step)
    requires Ordered(s) && Enabled(g, s, step) && !step.OfLog?
    ensures Ordered(Do(g, s, step))
  {
    hide Epoch.Do, Epoch.Enabled;
  }

  /** An action that may run finds every thread inside with the new boundary. */
  lemma RunnableIsSeen(s: State, id: nat, t: nat)
    requires Linked(s) && AllSeeShifts(s) && id in s.shifts && Epoch.Enabled(s.ep, Epoch.Run(id))
    requires t < |s.locals| && Epoch.InSection(s.ep, t)
    ensures s.shifts[id].addr <= if s.shifts[id].ToReadOnly? then s.locals[t].floor else s.locals[t].headFloor
  {
    assert Epoch.Grace(s.ep);
    assert SeesShift(s, t, id);
  }

  lemma RunFloors(g: Geometry, s: State, step: Step, t: nat)
    requires Linked(s) && Ordered(s) && AllSeeShifts(s) && Floors(s)
    requires Enabled(g, s, step) && step.RunShift?
    requires t < |s.locals| && Epoch.InSection(s.ep, t)
    ensures FloorOk(Do(g, s, step), t)
  {
    RunnableIsSeen(s, step.id, t);
    assert FloorOk(s, t);
  }

  lemma OtherFloors(g: Geometry, s: State, step: Step, t: nat)
    requires |s.locals| == |s.ep.pcs| && Ordered(s)
    requires Enabled(g, s, step) && !step.OfLog? && !step.RunShift?
    requires t < |s.locals|
    requires FloorOk(s, t) || step == OfEpoch(Epoch.EnterStore(t)) || step == OfEpoch(Epoch.RefreshStore(t))
    ensures FloorOk(Do(g, s, step), t)
  {
  }

  lemma EpochFloors(g: Geometry, s: State, step: Step, t: nat)
    requires Linked(s) && Ordered(s) && Floors(s) && AllSeeShifts(s)
    requires Enabled(g, s, step) && !step.OfLog?
    requires t < |s.locals| && Epoch.InSection(Do(g, s, step).ep, t)
    ensures FloorOk(Do(g, s, step), t)
  {
    Epoch.StepView(s.ep, EpochPart(step));
    if step.RunShift? {
      RunFloors(g, s, step, t);
    } else {
      assert Epoch.InSection(s.ep, t) ==> FloorOk(s, t);
      OtherFloors(g, s, step, t);
    }
  }

  /** A thread that was inside before the step cannot have been overtaken by a new stamp. */
  lemma StayingSeesShift(s: State, s': State, t: nat, id: nat)
    requires Linked(s) && Linked(s') && t < |s.locals| == |s'.locals| && id in s'.shifts
    requires s'.locals[t] == s.locals[t] && s'.ep.born[t] == s.ep.born[t]
    requires id in s.shifts ==>
               && SeesShift(s, t, id) && s'.shifts[id] == s.shifts[id]
               && s.ep.actions[id].stamp <= s'.ep.actions[id].stamp
    requires id !in s.shifts ==> s.ep.born[t] < s'.ep.actions[id].stamp
    ensures SeesShift(s', t, id)
  {
  }

  /** A thread that publishes its slot finds every registered value published. */
  lemma EnteringSeesShift(g: Geometry, s: State, step: Step, t: nat, id: nat)
    requires Linked(s) && Ordered(s) && Enabled(g, s, step) && Linked(Do(g, s, step))
    requires step == OfEpoch(Epoch.EnterStore(t)) || step == OfEpoch(Epoch.RefreshStore(t))
    requires t < |s.locals| == |Do(g, s, step).locals| && id in Do(g, s, step).shifts
    ensures SeesShift(Do(g, s, step), t, id)
  {
  }

  lemma EpochSeesShift(g: Geometry, s: State, step: Step, t: nat, id: nat)
    requires Linked(s) && Enabled(g, s, step) && !step.OfLog? && Linked(Do(g, s, step))
    requires t < |s.locals| && Epoch.InSection(Do(g, s, step).ep, t) && id in Do(g, s, step).shifts
    requires EpochPart(step) != Epoch.EnterStore(t) && EpochPart(step) != Epoch.RefreshStore(t)
    requires Epoch.InSection(s.ep, t) && id in s.shifts ==> SeesShift(s, t, id)
    ensures SeesShift(Do(g, s, step), t, id)
  {
    hide Epoch.Inv, Epoch.Do;
    Epoch.StepView(s.ep, EpochPart(step));
    StayingSeesShift(s, Do(g, s, step), t, id);
  }

  lemma EpochShiftSeen(g: Geometry, s: State, step: Step, t: nat, id: nat)
    requires Linked(s) && Ordered(s) && AllSeeShifts(s)
    requires Enabled(g, s, step) && !step.OfLog? && Linked(Do(g, s, step))
    requires t < |s.locals| == |Do(g, s, step).locals|
    requires Epoch.InSection(Do(g, s, step).ep, t) && id in Do(g, s, step).shifts
    ensures SeesShift(Do(g, s, step), t, id)
  {
    if EpochPart(step) == Epoch.EnterStore(t) || EpochPart(step) == Epoch.RefreshStore(t) {
      EnteringSeesShift(g, s, step, t, id);
    } else {
      EpochSeesShift(g, s, step, t, id);
    }
  }

  lemma EpochInv(g: Geometry, s: State, step: Step)
    requires Inv(s) && Enabled(g, s, step) && !step.OfLog?
    ensures Inv(Do(g, s, step))
  {
    hide Epoch.Inv, Epoch.Do, Epoch.Enabled, SeesShift, FloorOk;
    var s' := Do(g, s, step);
    EpochLinked(g, s, step);
    EpochOrdered(g, s, step);
    forall t: nat | t < |s.locals| && Epoch.InSection(s'.ep, t) ensures FloorOk(s', t) {
      EpochFloors(g, s, step, t);
    }
    forall t: nat, id: nat | t < |s.locals| && Epoch.InSection(s'.ep, t) && id in s'.shifts
      ensures SeesShift(s', t, id)
    {
      EpochShiftSeen(g, s, step, t, id);
    }
  }

  lemma StepInv(g: Geometry, s: State, step: Step)
    requires Inv(s) && Enabled(g, s, step)
    ensures Inv(Do(g, s, step))
  {
    if step.OfLog? {
      LogInv(g, s, step.step);
    } else {
      EpochInv(g, s, step);
    }
  }

  // ---------------------------------------------------------------------
  // Whole runs
  // ---------------------------------------------------------------------

  ghost predicate StepAt(g: Geometry, states: seq<State>, steps: seq<Step>, i: int)
    requires |states| == |steps| + 1 && 0 <= i < |steps|
  {
    Enabled(g, states[i], steps[i]) && states[i + 1] == Do(g, states[i], steps[i])
  }

  ghost predicate IsRun(g: Geometry, states: seq<State>, steps: seq<Step>) {
    && |states| == |steps| + 1 && states[0] == Init(|states[0].locals|)
    && forall i :: 0 <= i < |steps| ==> StepAt(g, states, steps, i)
  }

  /** ClosedUntil <= SafeHead <= Head <= FlushedUntil <= SafeReadOnly <= ReadOnly <= Tail, always. */
  lemma {:induction false} RunInv(g: Geometry, states: seq<State>, steps: seq<Step>, i: nat)
    requires IsRun(g, states, steps) && i < |states|
    ensures Inv(states[i])
  {
    if i == 0 {
      InitInv(|states[0].locals|);
    } else {
      RunInv(g, states, steps, i - 1);
      assert StepAt(g, states, steps, i - 1);
      StepInv(g, states[i - 1], steps[i - 1]);
    }
  }

  predicate NotBelow(s: State, s': State) {
    && s.tail <= s'.tail && s.readOnly <= s'.readOnly && s.safeReadOnly <= s'.safeReadOnly
    && s.flushed <= s'.flushed && s.head <= s'.head && s.safeHead <= s'.safeHead && s.closed <= s'.closed
  }

  lemma LogNotBelow(g: Geometry, s: State, step: LogStep)
    requires 0 < g.ps && 0 < g.buffer && LogEnabled(g, s, step)
    ensures NotBelow(s, DoLog(g, s, step))
  {
  }

  lemma NextNotBelow(g: Geometry, states: seq<State>, steps: seq<Step>, i: nat)
    requires IsRun(g, states, steps) && i < |steps|
    ensures NotBelow(states[i], states[i + 1])
  {
    assert StepAt(g, states, steps, i);
    if steps[i].OfLog? {
      LogNotBelow(g, states[i], steps[i].step);
    }
  }

  /** No boundary ever moves back, whatever order the deferred actions run in. */
  lemma {:induction false} BoundariesMonotone(g: Geometry, states: seq<State>, steps: seq<Step>, i: nat, j: nat)
    requires IsRun(g, states, steps) && i <= j < |states|
    ensures NotBelow(states[i], states[j])
  {
    if i < j {
      BoundariesMonotone(g, states, steps, i, j - 1);
      NextNotBelow(g, states, steps, j - 1);
    }
  }

  predicate ClosesPage(step: Step) {
    step.OfLog? && step.step.ClosePage?
  }

  /**
    Begin <= ClosedUntil, the lower end of the documented order, holds in exactly
    the states that some page has been closed before, so not at the start.
   */
  lemma {:induction false} BeginIff(g: Geometry, states: seq<State>, steps: seq<Step>, i: nat)
    requires IsRun(g, states, steps) && i < |states|
    ensures FIRST_VALID_ADDRESS <= states[i].closed <==> exists j :: 0 <= j < i && ClosesPage(steps[j])
  {
    if 0 < i {
      BeginIff(g, states, steps, i - 1);
      NextNotBelow(g, states, steps, i - 1);
      assert StepAt(g, states, steps, i - 1);
    }
  }

  lemma LogKeepsFlushed(g: Geometry, s: State, step: LogStep, a: nat)
    requires 0 < g.ps && 0 < g.buffer && LogEnabled(g, s, step)
    requires Floors(s) && Ordered(s) && InMemory(s) && a in s.latest && a < s.flushed
    ensures a in DoLog(g, s, step).latest && DoLog(g, s, step).latest[a].body == s.latest[a].body
  {
  }

  lemma NextKeepsFlushed(g: Geometry, states: seq<State>, steps: seq<Step>, i: nat, a: nat)
    requires IsRun(g, states, steps) && i < |steps|
    requires a in states[i].latest && a < states[i].flushed
    ensures a in states[i + 1].latest && states[i + 1].latest[a].body == states[i].latest[a].body
  {
    RunInv(g, states, steps, i);
    assert StepAt(g, states, steps, i);
    if steps[i].OfLog? {
      LogKeepsFlushed(g, states[i], steps[i].step, a);
    }
  }

  /**
    Flushed bytes are final: once a record lies below FlushedUntil, its contents
    never change again, and the device holds them, up to the Sealed bit.
   */
  lemma {:induction false} FlushedIsFinal(g: Geometry, states: seq<State>, steps: seq<Step>,
                                          i: nat, j: nat, a: nat)
    requires IsRun(g, states, steps) && i <= j < |states|
    requires a in states[i].latest && a < states[i].flushed
    ensures a in states[j].latest && a in states[j].device && a < states[j].flushed
    ensures states[j].device[a].body == states[j].latest[a].body == states[i].latest[a].body
  {
    RunInv(g, states, steps, j);
    if i < j {
      FlushedIsFinal(g, states, steps, i, j - 1, a);
      NextKeepsFlushed(g, states, steps, j - 1, a);
      NextNotBelow(g, states, steps, j - 1);
    }
  }

  /** An address that shares the slot of the page to come lies on or below the page that left it. */
  lemma SlotHeldBelow(g: Geometry, a: nat, next: nat)
    requires 0 < g.ps && 0 < g.buffer && a < PageAddress(next, g.ps)
    requires a / g.ps % g.buffer == next % g.buffer
    ensures g.buffer <= next && a < PageAddress(next - g.buffer + 1, g.ps)
  {
    PageBelow(a, g.ps, next);
    SlotReuse(a / g.ps, next, g.buffer);
    PageStart(a, g.ps, next - g.buffer + 1);
  }

  /**
    When a page turn zeroes a buffer slot, every address of the pages that had
    the slot is closed, and below every Head that a thread inside has read: no
    one will look for it in memory, whether or not a record is there.
   */
  lemma OldPageIsBelowHeads(g: Geometry, states: seq<State>, steps: seq<Step>, i: nat, a: nat)
    requires IsRun(g, states, steps) && i < |steps| && 0 < g.ps && 0 < g.buffer
    requires steps[i].OfLog? && steps[i].step.ZeroPage?
    requires a < PageAddress(steps[i].step.next, g.ps) && a / g.ps % g.buffer == steps[i].step.next % g.buffer
    ensures a < states[i].closed
    ensures forall t ::
              (0 <= t < |states[i].locals| && Epoch.InSection(states[i].ep, t)
               && states[i].locals[t].head.Some?) ==> a < states[i].locals[t].head.value
  {
    RunInv(g, states, steps, i);
    assert StepAt(g, states, steps, i);
    SlotHeldBelow(g, a, steps[i].step.next);
    forall t: nat | t < |states[i].locals| && Epoch.InSection(states[i].ep, t) && states[i].locals[t].head.Some?
      ensures a < states[i].locals[t].head.value
    {
      assert FloorOk(states[i], t);
    }
  }

  /** And every record the slot held is on the device. */
  lemma PageReuseIsSafe(g: Geometry, states: seq<State>, steps: seq<Step>, i: nat, a: nat)
    requires IsRun(g, states, steps) && i < |steps| && 0 < g.ps && 0 < g.buffer
    requires steps[i].OfLog? && steps[i].step.ZeroPage?
    requires a in states[i].latest && a / g.ps % g.buffer == steps[i].step.next % g.buffer
    ensures a in states[i].device && states[i].device[a].body == states[i].latest[a].body
    ensures a < states[i].closed
    ensures forall t ::
              (0 <= t < |states[i].locals| && Epoch.InSection(states[i].ep, t)
               && states[i].locals[t].head.Some?) ==> a < states[i].locals[t].head.value
  {
    RunInv(g, states, steps, i);
    assert StepAt(g, states, steps, i);
    OldPageIsBelowHeads(g, states, steps, i, a);
  }

  /** Nobody inside can be writing below SafeReadOnly, in place or filling a fresh record. */
  lemma NoWriterBelowSafeReadOnly(g: Geometry, states: seq<State>, steps: seq<Step>, i: nat, t: nat)
    requires IsRun(g, states, steps) && i < |states|
    requires t < |states[i].locals| && Epoch.InSection(states[i].ep, t)
    ensures forall a :: a in states[i].locals[t].filling ==> states[i].safeReadOnly <= a
    ensures states[i].locals[t].readOnly.Some? ==>
              states[i].safeReadOnly <= states[i].locals[t].readOnly.value
  {
    RunInv(g, states, steps, i);
    assert FloorOk(states[i], t);
  }
}
