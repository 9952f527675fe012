/**
  The fold-over checkpoint (crates/tsavorite/src/checkpoint.rs:124-176, with the
  version rules of crates/tsavorite/src/store.rs:643-661). Sessions keep writing
  while the checkpoint goes through its phases. A latched operation body is one
  step, taken under the phase its session read when it entered. `vmap` and
  `vtop` are history: the map that the operations of version v built, and the
  record of version v that was written last for each key.
 */
module Checkpoint {
  import opened Bytes
  import opened HybridLogs
  import opened Chains

  type Payload = seq<Byte>

  // The phases in order: Rest(v), Prepare(v), InProgress(v+1), WaitFlush(v+1), Rest(v+1).
  const REST: nat := 0
  const PREPARE: nat := 1
  const IN_PROGRESS: nat := 2
  const WAIT_FLUSH: nat := 3
  const REST_NEXT: nat := 4

  /**
    `quiet`: the last phase change has drained, so every session has observed
    it. `ro` is SafeReadOnly: what lies below it may be on the device.
   */
  datatype Core = Core(
    phase: nat,
    quiet: bool,
    start: Option<nat>,
    final: Option<nat>,
    saved: bool,
    tail: nat,
    ro: nat,
    log: Log<Payload>,
    index: Index,
    device: Log<Payload>,
    vmap: map<Key, Payload>,
    vtop: map<Key, nat>)

  /** `floor` is the address at which an operation stops tracing its chain back. */
  datatype Step =
    | CaptureStart
    | Advance
    | Settle
    | CaptureFinal
    | ShiftReadOnly(addr: nat)
    | Flush(addr: nat)
    | Save
    | Update(phase: nat, addr: nat, payload: Payload, tombstone: bool)
    | Append(phase: nat, floor: nat, addr: nat, end: nat, key: Key, payload: Payload, tombstone: bool)
    | Waste(addr: nat, end: nat, key: Key, prev: nat)
    | SealRecord(addr: nat)

  predicate NewVersionPhase(phase: nat) {
    phase == IN_PROGRESS || phase == WAIT_FLUSH
  }

  predicate Valid(log: Log<Payload>, a: nat) {
    a in log && log[a].valid
  }

  /** `record_in_new_version` (store.rs:332-337). */
  predicate IsNew(c: Core, a: nat) {
    Valid(c.log, a) && c.log[a].newVersion && c.start.Some? && c.start.value <= a
  }

  /** A record of version v: not marked new, and below `final` once that is known. */
  predicate IsOld(c: Core, a: nat) {
    Valid(c.log, a) && !IsNew(c, a) && (c.final.Some? ==> a < c.final.value)
  }

  function Head(c: Core, slotOf: Key -> nat, key: Key): nat {
    HeadOf(c.index, slotOf(key))
  }

  function Found(c: Core, slotOf: Key -> nat, key: Key): Option<nat> {
    Lookup(c.log, Head(c, slotOf, key), key)
  }

  /** A session is at most one phase behind, and not behind once the phase has drained. */
  predicate PhaseHeld(c: Core, phase: nat) {
    phase <= c.phase <= phase + 1 && (c.quiet ==> phase == c.phase)
  }

  /** `cpr_gate`: a session in PREPARE turns back at a v+1 record, if it looks that far. */
  predicate Gate(c: Core, phase: nat, floor: nat, found: Option<nat>) {
    phase == PREPARE && found.Some? && floor <= found.value ==> !IsNew(c, found.value)
  }

  /** `cpr_blocks_in_place`: a session in v+1 leaves records of version v alone. */
  predicate MayWrite(c: Core, phase: nat, a: nat) {
    NewVersionPhase(phase) ==> IsNew(c, a)
  }

  /** Assumed: ReadOnly, and with it every floor, stays at or below `start` until WAIT_FLUSH. */
  predicate FloorLow(c: Core, phase: nat, floor: nat) {
    phase == PREPARE && c.start.Some? ==> floor <= c.start.value
  }

  predicate MayAdvance(c: Core) {
    && c.quiet && c.start.Some? && c.phase < REST_NEXT
    && (c.phase == IN_PROGRESS ==> c.final.Some?)
    && (c.phase == WAIT_FLUSH ==> c.saved)
  }

  predicate Guard(c: Core, slotOf: Key -> nat, step: Step) {
    match step
    case CaptureStart => c.start.None? && c.phase == REST && c.quiet
    case Advance => MayAdvance(c)
    case Settle => true
    case CaptureFinal => c.phase == IN_PROGRESS && c.quiet && c.final.None?
    case ShiftReadOnly(r) => c.ro <= r <= c.tail
    case Flush(a) => a in c.log && a < c.ro
    case Save =>
      && c.phase == WAIT_FLUSH && c.quiet && c.final.Some? && c.final.value <= c.ro
      && forall a :: a in c.log && a < c.final.value ==> a in c.device
    case Update(p, a, _, _) =>
      && a in c.log && c.ro <= a
      && Found(c, slotOf, c.log[a].key) == Some(a) && c.log[a].valid
      && Gate(c, p, a, Some(a)) && MayWrite(c, p, a)
    case Append(p, floor, a, end, key, _, _) =>
      && c.tail <= a < end && FloorLow(c, p, floor) && Gate(c, p, floor, Found(c, slotOf, key))
    case Waste(a, end, _, prev) => c.tail <= a < end && prev < a
    case SealRecord(a) => a in c.log
  }

  predicate IsWrite(step: Step) {
    step.Update? || step.Append?
  }

  predicate Enabled(c: Core, slotOf: Key -> nat, step: Step) {
    Guard(c, slotOf, step) && (IsWrite(step) ==> PhaseHeld(c, step.phase))
  }

  function SetCell(m: map<Key, Payload>, key: Key, payload: Payload, tombstone: bool): map<Key, Payload> {
    if tombstone then m - {key} else m[key := payload]
  }

  function Updated(c: Core, step: Step): Record<Payload>
    requires step.Update? && step.addr in c.log
  {
    c.log[step.addr].(payload := step.payload, tombstone := step.tombstone, modified := true)
  }

  function Appended(c: Core, slotOf: Key -> nat, step: Step): Record<Payload>
    requires step.Append?
  {
    Record(Head(c, slotOf, step.key), step.key, step.payload, step.tombstone,
           true, NewVersionPhase(step.phase), false, false)
  }

  function DoAppend(c: Core, slotOf: Key -> nat, step: Step): Core
    requires step.Append?
  {
    var c' := c.(log := c.log[step.addr := Appended(c, slotOf, step)], tail := step.end,
                 index := c.index[slotOf(step.key) := step.addr]);
    if step.phase <= PREPARE then
      c'.(vmap := SetCell(c.vmap, step.key, step.payload, step.tombstone),
          vtop := c.vtop[step.key := step.addr])
    else c'
  }

  function DoUpdate(c: Core, step: Step): Core
    requires step.Update? && step.addr in c.log
  {
    var c' := c.(log := c.log[step.addr := Updated(c, step)]);
    if step.phase <= PREPARE then
      c'.(vmap := SetCell(c.vmap, c.log[step.addr].key, step.payload, step.tombstone))
    else c'
  }

  function Do(c: Core, slotOf: Key -> nat, step: Step): Core
    requires Guard(c, slotOf, step)
  {
    match step
    case CaptureStart => c.(start := Some(c.tail))
    case Advance => c.(phase := c.phase + 1, quiet := false)
    case Settle => c.(quiet := true)
    case CaptureFinal => c.(final := Some(c.tail))
    case ShiftReadOnly(r) => c.(ro := r)
    case Flush(a) => c.(device := c.device[a := c.log[a]])
    case Save => c.(saved := true)
    case Update(_, _, _, _) => DoUpdate(c, step)
    case Append(_, _, _, _, _, _, _) => DoAppend(c, slotOf, step)
    case Waste(a, end, key, prev) =>
      c.(log := c.log[a := Record(prev, key, [], false, false, false, false, true)], tail := end)
    case SealRecord(a) => c.(log := c.log[a := Sealed(c.log[a])])
  }

  // ---------------------------------------------------------------------
  // Chains
  // ---------------------------------------------------------------------

  /** `prev` is where a chain continues to the next valid record of the slot below `bound`. */
  ghost predicate LeadsOn(log: Log<Payload>, slotOf: Key -> nat, slot: nat, bound: nat, prev: nat) {
    && (FIRST_VALID_ADDRESS <= prev ==> Valid(log, prev) && slotOf(log[prev].key) == slot)
    && forall b: nat :: Valid(log, b) && b < bound && slotOf(log[b].key) == slot ==> b <= prev
  }

  ghost predicate Linked(log: Log<Payload>, slotOf: Key -> nat, a: nat)
    requires a in log
  {
    log[a].prev < a && LeadsOn(log, slotOf, slotOf(log[a].key), a, log[a].prev)
  }

  ghost predicate AllLinked(log: Log<Payload>, slotOf: Key -> nat) {
    && (forall a: nat :: a in log ==> FIRST_VALID_ADDRESS <= a && log[a].prev < a)
    && (forall a: nat :: Valid(log, a) ==> Linked(log, slotOf, a))
  }

  /** Every valid record is on the chain of its slot, in address order. */
  ghost predicate ChainsLinked(c: Core, slotOf: Key -> nat) {
    && FIRST_VALID_ADDRESS <= c.tail
    && AllLinked(c.log, slotOf)
    && (forall a: nat :: a in c.log ==> a < c.tail)
    && (forall slot: nat :: LeadsOn(c.log, slotOf, slot, c.tail, HeadOf(c.index, slot)))
  }

  /** The first record for a key on a chain is the highest valid one. */
  lemma {:induction false} ChainFinds(log: Log<Payload>, slotOf: Key -> nat, h: nat, key: Key)
    requires AllLinked(log, slotOf)
    requires FIRST_VALID_ADDRESS <= h ==> Valid(log, h) && slotOf(log[h].key) == slotOf(key)
    ensures Lookup(log, h, key).Some? ==> Valid(log, Lookup(log, h, key).value)
    ensures forall b: nat :: Valid(log, b) && b <= h && log[b].key == key ==>
              Lookup(log, h, key).Some? && b <= Lookup(log, h, key).value
    decreases h
  {
    if FIRST_VALID_ADDRESS <= h && log[h].key != key {
      assert Linked(log, slotOf, h);
      ChainFinds(log, slotOf, log[h].prev, key);
    }
  }

  lemma FoundIsNewest(c: Core, slotOf: Key -> nat, key: Key)
    requires ChainsLinked(c, slotOf)
    ensures Found(c, slotOf, key).Some? ==>
              Valid(c.log, Found(c, slotOf, key).value) && c.log[Found(c, slotOf, key).value].key == key
    ensures forall b: nat :: Valid(c.log, b) && c.log[b].key == key ==>
              Found(c, slotOf, key).Some? && b <= Found(c, slotOf, key).value
  {
    assert LeadsOn(c.log, slotOf, slotOf(key), c.tail, Head(c, slotOf, key));
    ChainFinds(c.log, slotOf, Head(c, slotOf, key), key);
  }

  predicate SameFrame(image: Record<Payload>, rec: Record<Payload>) {
    image.key == rec.key && image.prev == rec.prev && image.valid == rec.valid && image.newVersion == rec.newVersion
  }

  /** Rewriting a record without moving it leaves the chains as they were. */
  lemma ReframeLinked(log: Log<Payload>, slotOf: Key -> nat, a: nat, rec: Record<Payload>)
    requires AllLinked(log, slotOf) && a in log && SameFrame(log[a], rec)
    ensures AllLinked(log[a := rec], slotOf)
    ensures forall slot: nat, bound: nat, prev: nat ::
              LeadsOn(log, slotOf, slot, bound, prev) ==> LeadsOn(log[a := rec], slotOf, slot, bound, prev)
  {
    var log' := log[a := rec];
    assert forall b: nat :: Valid(log', b) <==> Valid(log, b);
    assert forall b: nat :: b in log ==> SameFrame(log[b], log'[b]);
    forall b: nat | Valid(log', b)
      ensures Linked(log', slotOf, b)
    {
      assert Linked(log, slotOf, b);
    }
  }

  /** A record beyond every other leaves the links below it as they were. */
  lemma ExtendLinked(log: Log<Payload>, slotOf: Key -> nat, a: nat, rec: Record<Payload>)
    requires AllLinked(log, slotOf) && FIRST_VALID_ADDRESS <= a && rec.prev < a
    requires forall b: nat :: b in log ==> b < a
    requires rec.valid ==> LeadsOn(log, slotOf, slotOf(rec.key), a, rec.prev)
    ensures AllLinked(log[a := rec], slotOf)
  {
    var log' := log[a := rec];
    assert forall b: nat :: b < a ==> (Valid(log', b) <==> Valid(log, b));
    forall b: nat | Valid(log', b)
      ensures Linked(log', slotOf, b)
    {
      if b < a {
        assert Linked(log, slotOf, b);
      }
    }
  }

  /** A record prepended to its own chain leaves every other chain alone. */
  lemma HeadAppended(log: Log<Payload>, slotOf: Key -> nat, slot: nat, tail: nat, end: nat, head: nat,
                     a: nat, rec: Record<Payload>)
    requires LeadsOn(log, slotOf, slot, tail, head) && tail <= a < end && rec.valid
    requires forall b: nat :: b in log ==> b < tail
    ensures LeadsOn(log[a := rec], slotOf, slot, end, if slot == slotOf(rec.key) then a else head)
  {
    assert forall b: nat :: b != a ==> (Valid(log[a := rec], b) <==> Valid(log, b));
  }

  lemma HeadsAppended(c: Core, c': Core, slotOf: Key -> nat, a: nat, rec: Record<Payload>)
    requires ChainsLinked(c, slotOf) && c.tail <= a < c'.tail && rec.valid
    requires c'.log == c.log[a := rec] && c'.index == c.index[slotOf(rec.key) := a]
    ensures forall slot: nat :: LeadsOn(c'.log, slotOf, slot, c'.tail, HeadOf(c'.index, slot))
  {
    forall slot: nat
      ensures LeadsOn(c'.log, slotOf, slot, c'.tail, HeadOf(c'.index, slot))
    {
      assert LeadsOn(c.log, slotOf, slot, c.tail, HeadOf(c.index, slot));
      HeadAppended(c.log, slotOf, slot, c.tail, c'.tail, HeadOf(c.index, slot), a, rec);
    }
  }

  lemma HeadsWasted(c: Core, c': Core, slotOf: Key -> nat, a: nat)
    requires ChainsLinked(c, slotOf) && c.tail <= a
    requires a in c'.log && !c'.log[a].valid && c'.log == c.log[a := c'.log[a]] && c'.index == c.index
    ensures forall slot: nat :: LeadsOn(c'.log, slotOf, slot, c'.tail, HeadOf(c'.index, slot))
  {
    forall slot: nat
      ensures LeadsOn(c'.log, slotOf, slot, c'.tail, HeadOf(c'.index, slot))
    {
      assert LeadsOn(c.log, slotOf, slot, c.tail, HeadOf(c.index, slot));
      assert forall b: nat :: Valid(c'.log, b) <==> Valid(c.log, b);
    }
  }

  lemma AppendChains(c: Core, slotOf: Key -> nat, step: Step)
    requires ChainsLinked(c, slotOf) && step.Append? && Enabled(c, slotOf, step)
    ensures ChainsLinked(DoAppend(c, slotOf, step), slotOf)
  {
    hide Lookup;
    assert LeadsOn(c.log, slotOf, slotOf(step.key), c.tail, Head(c, slotOf, step.key));
    ExtendLinked(c.log, slotOf, step.addr, Appended(c, slotOf, step));
    HeadsAppended(c, DoAppend(c, slotOf, step), slotOf, step.addr, Appended(c, slotOf, step));
  }

  lemma WasteChains(c: Core, slotOf: Key -> nat, step: Step)
    requires ChainsLinked(c, slotOf) && step.Waste? && Enabled(c, slotOf, step)
    ensures ChainsLinked(Do(c, slotOf, step), slotOf)
  {
    var c' := Do(c, slotOf, step);
    ExtendLinked(c.log, slotOf, step.addr, c'.log[step.addr]);
    HeadsWasted(c, c', slotOf, step.addr);
  }

  lemma StepChains(c: Core, slotOf: Key -> nat, step: Step)
    requires ChainsLinked(c, slotOf) && Enabled(c, slotOf, step)
    ensures ChainsLinked(Do(c, slotOf, step), slotOf)
  {
    if step.Append? {
      AppendChains(c, slotOf, step);
    } else if step.Waste? {
      WasteChains(c, slotOf, step);
    } else if step.Update? {
      ReframeLinked(c.log, slotOf, step.addr, Updated(c, step));
    } else if step.SealRecord? {
      ReframeLinked(c.log, slotOf, step.addr, Sealed(c.log[step.addr]));
    }
  }

  // ---------------------------------------------------------------------
  // The invariant
  // ---------------------------------------------------------------------

  predicate PhasesOk(c: Core) {
    && c.phase <= REST_NEXT && c.ro <= c.tail
    && (c.start.None? ==> c.phase == REST)
    && (c.start.Some? ==> c.start.value <= c.tail)
    && (c.final.Some? ==>
          && c.start.Some? && c.start.value <= c.final.value <= c.tail
          && IN_PROGRESS <= c.phase && (c.phase == IN_PROGRESS ==> c.quiet))
    && (IN_PROGRESS < c.phase ==> c.final.Some?)
    && (c.saved ==> WAIT_FLUSH <= c.phase && c.final.value <= c.ro)
    && (c.phase == REST_NEXT ==> c.saved)
  }

  ghost predicate NewIsLate(c: Core) {
    forall a: nat :: IsNew(c, a) ==> IN_PROGRESS <= c.phase
  }

  /** For each key, the records of version v+1 lie above those of version v. */
  ghost predicate Separated(c: Core) {
    forall a: nat, b: nat :: IsNew(c, a) && IsOld(c, b) && c.log[a].key == c.log[b].key ==> b < a
  }

  /** The last record of version v for a key, and what it says. */
  ghost predicate TopHeld(c: Core, key: Key) {
    if key in c.vtop then
      var a := c.vtop[key];
      && IsOld(c, a) && c.log[a].key == key
      && (if c.log[a].tombstone then key !in c.vmap else key in c.vmap && c.vmap[key] == c.log[a].payload)
    else key !in c.vmap
  }

  ghost predicate VersionHeld(c: Core) {
    && (forall key: Key :: TopHeld(c, key))
    && (forall a: nat :: IsOld(c, a) ==> c.log[a].key in c.vtop && a <= c.vtop[c.log[a].key])
  }

  ghost predicate DeviceHeld(c: Core) {
    && (forall a: nat :: a in c.device ==> a in c.log && a < c.ro && SameOnDisk(c.device[a], c.log[a]))
    && (c.saved && c.final.Some? ==> forall a: nat :: a in c.log && a < c.final.value ==> a in c.device)
  }

  ghost predicate Inv(c: Core, slotOf: Key -> nat) {
    && ChainsLinked(c, slotOf) && PhasesOk(c) && NewIsLate(c)
    && Separated(c) && VersionHeld(c) && DeviceHeld(c)
  }

  /** A store at rest in version v, with nothing of a checkpoint begun. */
  ghost predicate AtRest(c: Core, slotOf: Key -> nat) {
    && ChainsLinked(c, slotOf) && VersionHeld(c) && DeviceHeld(c) && c.ro <= c.tail
    && c.phase == REST && c.quiet && c.start.None? && c.final.None? && !c.saved
  }

  function Empty(): Core {
    Core(REST, true, None, None, false, FIRST_VALID_ADDRESS, 0, map[], map[], map[], map[], map[])
  }

  lemma EmptyAtRest(slotOf: Key -> nat)
    ensures AtRest(Empty(), slotOf)
  {
  }

  lemma RestInv(c: Core, slotOf: Key -> nat)
    requires AtRest(c, slotOf)
    ensures Inv(c, slotOf)
  {
  }

  lemma StepPhases(c: Core, slotOf: Key -> nat, step: Step)
    requires PhasesOk(c) && Enabled(c, slotOf, step)
    ensures PhasesOk(Do(c, slotOf, step))
  {
  }

  lemma KeepsQuiet(c: Core, slotOf: Key -> nat, step: Step)
    requires Guard(c, slotOf, step) && !step.Advance? && !step.Settle?
    ensures Do(c, slotOf, step).quiet == c.quiet && Do(c, slotOf, step).phase == c.phase
  {
  }

  /** A new record belongs to the version of the phase it was written under. */
  lemma AppendKind(c: Core, slotOf: Key -> nat, step: Step)
    requires ChainsLinked(c, slotOf) && PhasesOk(c) && step.Append? && Enabled(c, slotOf, step)
    ensures var c' := DoAppend(c, slotOf, step);
            && Valid(c'.log, step.addr) && c'.log[step.addr].key == step.key
            && (IsNew(c', step.addr) <==> NewVersionPhase(step.phase))
            && (IsOld(c', step.addr) <==> step.phase <= PREPARE)
  {
    hide LeadsOn, Lookup;
  }

  lemma DoesUpdate(c: Core, slotOf: Key -> nat, step: Step)
    requires Enabled(c, slotOf, step) && step.Update?
    ensures step.addr in c.log && Do(c, slotOf, step) == DoUpdate(c, step)
  {
  }

  lemma UpdateKeepsKind(c: Core, slotOf: Key -> nat, step: Step, a: nat)
    requires ChainsLinked(c, slotOf) && PhasesOk(c) && Enabled(c, slotOf, step)
    requires step.Update?
    ensures var c' := Do(c, slotOf, step);
            && (IsNew(c', a) <==> IsNew(c, a)) && (IsOld(c', a) <==> IsOld(c, a))
            && (Valid(c.log, a) ==> a in c'.log && c'.log[a].key == c.log[a].key)
  {
    DoesUpdate(c, slotOf, step);
    hide Enabled, Do, ChainsLinked, PhasesOk;
  }

  lemma AppendKeepsKind(c: Core, slotOf: Key -> nat, step: Step, a: nat)
    requires ChainsLinked(c, slotOf) && PhasesOk(c) && Enabled(c, slotOf, step)
    requires step.Append? && a != step.addr
    ensures var c' := Do(c, slotOf, step);
            && (IsNew(c', a) <==> IsNew(c, a)) && (IsOld(c', a) <==> IsOld(c, a))
            && (Valid(c.log, a) ==> a in c'.log && c'.log[a].key == c.log[a].key)
  {
    hide LeadsOn, Lookup, AllLinked;
  }

  lemma OtherKeepsKind(c: Core, slotOf: Key -> nat, step: Step, a: nat)
    requires ChainsLinked(c, slotOf) && PhasesOk(c) && Enabled(c, slotOf, step)
    requires !step.Update? && !step.Append?
    ensures var c' := Do(c, slotOf, step);
            && (IsNew(c', a) <==> IsNew(c, a)) && (IsOld(c', a) <==> IsOld(c, a))
            && (Valid(c.log, a) ==> a in c'.log && c'.log[a].key == c.log[a].key)
  {
    hide LeadsOn, Lookup, AllLinked;
  }

  /** Every other record keeps its version and its key. */
  lemma KeepsKind(c: Core, slotOf: Key -> nat, step: Step, a: nat)
    requires ChainsLinked(c, slotOf) && PhasesOk(c) && Enabled(c, slotOf, step)
    requires !(step.Append? && a == step.addr)
    ensures var c' := Do(c, slotOf, step);
            && (IsNew(c', a) <==> IsNew(c, a)) && (IsOld(c', a) <==> IsOld(c, a))
            && (Valid(c.log, a) ==> a in c'.log && c'.log[a].key == c.log[a].key)
  {
    hide ChainsLinked, PhasesOk, Enabled, Do, IsNew, IsOld;
    if step.Update? {
      UpdateKeepsKind(c, slotOf, step, a);
    } else if step.Append? {
      AppendKeepsKind(c, slotOf, step, a);
    } else {
      OtherKeepsKind(c, slotOf, step, a);
    }
  }

  /** What a step does to the version a record belongs to. */
  lemma StepKind(c: Core, slotOf: Key -> nat, step: Step, a: nat)
    requires ChainsLinked(c, slotOf) && PhasesOk(c) && Enabled(c, slotOf, step)
    ensures var c' := Do(c, slotOf, step);
            if step.Append? && a == step.addr then
              && Valid(c'.log, a) && c'.log[a].key == step.key
              && (IsNew(c', a) <==> NewVersionPhase(step.phase))
              && (IsOld(c', a) <==> step.phase <= PREPARE)
            else
              && (IsNew(c', a) <==> IsNew(c, a)) && (IsOld(c', a) <==> IsOld(c, a))
              && (Valid(c.log, a) ==> a in c'.log && c'.log[a].key == c.log[a].key)
  {
    if step.Append? && a == step.addr {
      AppendKind(c, slotOf, step);
    } else {
      KeepsKind(c, slotOf, step, a);
    }
  }

  lemma StepNew(c: Core, slotOf: Key -> nat, step: Step)
    requires ChainsLinked(c, slotOf) && PhasesOk(c) && NewIsLate(c) && Enabled(c, slotOf, step)
    ensures NewIsLate(Do(c, slotOf, step))
  {
    forall a: nat | IsNew(Do(c, slotOf, step), a)
      ensures IN_PROGRESS <= Do(c, slotOf, step).phase
    {
      StepKind(c, slotOf, step, a);
    }
  }

  /** A session of version v that may append meets no v+1 record of its key. */
  lemma GateHolds(c: Core, slotOf: Key -> nat, step: Step, x: nat)
    requires ChainsLinked(c, slotOf) && PhasesOk(c) && NewIsLate(c) && Separated(c) && Enabled(c, slotOf, step)
    requires step.Append? && step.phase <= PREPARE
    requires Valid(c.log, x) && c.log[x].key == step.key
    ensures !IsNew(c, x)
  {
    FoundIsNewest(c, slotOf, step.key);
    if IsNew(c, x) {
      assert false;
    }
  }

  lemma StepSeparated(c: Core, slotOf: Key -> nat, step: Step)
    requires ChainsLinked(c, slotOf) && PhasesOk(c) && NewIsLate(c) && Separated(c) && Enabled(c, slotOf, step)
    ensures Separated(Do(c, slotOf, step))
  {
    var c' := Do(c, slotOf, step);
    forall a: nat, b: nat | IsNew(c', a) && IsOld(c', b) && c'.log[a].key == c'.log[b].key
      ensures b < a
    {
      StepKind(c, slotOf, step, a);
      StepKind(c, slotOf, step, b);
      if step.Append? && b == step.addr {
        GateHolds(c, slotOf, step, a);
      }
    }
  }

  /** The record a session of version v updates in place is the last one of its version. */
  lemma UpdatesTop(c: Core, slotOf: Key -> nat, step: Step)
    requires ChainsLinked(c, slotOf) && PhasesOk(c) && NewIsLate(c) && VersionHeld(c) && Enabled(c, slotOf, step)
    requires step.Update?
    ensures step.phase <= PREPARE ==> IsOld(c, step.addr) && c.vtop[c.log[step.addr].key] == step.addr
    ensures PREPARE < step.phase ==> !IsOld(c, step.addr)
  {
    if step.phase <= PREPARE {
      var key := c.log[step.addr].key;
      FoundIsNewest(c, slotOf, key);
      assert IsOld(c, step.addr);
      assert TopHeld(c, key);
    }
  }

  lemma UpdateTop(c: Core, slotOf: Key -> nat, step: Step, key: Key)
    requires ChainsLinked(c, slotOf) && PhasesOk(c) && NewIsLate(c) && VersionHeld(c) && Enabled(c, slotOf, step)
    requires step.Update?
    ensures TopHeld(DoUpdate(c, step), key)
  {
    assert TopHeld(c, key);
    UpdatesTop(c, slotOf, step);
    if key in c.vtop {
      StepKind(c, slotOf, step, c.vtop[key]);
    }
  }

  lemma AppendTop(c: Core, slotOf: Key -> nat, step: Step, key: Key)
    requires ChainsLinked(c, slotOf) && PhasesOk(c) && VersionHeld(c) && Enabled(c, slotOf, step)
    requires step.Append?
    ensures TopHeld(DoAppend(c, slotOf, step), key)
  {
    hide LeadsOn, Lookup, Gate, FloorLow;
    assert TopHeld(c, key);
    StepKind(c, slotOf, step, step.addr);
    if key in c.vtop {
      StepKind(c, slotOf, step, c.vtop[key]);
    }
  }

  lemma StepTop(c: Core, slotOf: Key -> nat, step: Step, key: Key)
    requires ChainsLinked(c, slotOf) && PhasesOk(c) && NewIsLate(c) && VersionHeld(c) && Enabled(c, slotOf, step)
    ensures TopHeld(Do(c, slotOf, step), key)
  {
    hide Lookup, LeadsOn, ChainsLinked;
    if step.Update? {
      UpdateTop(c, slotOf, step, key);
    } else if step.Append? {
      AppendTop(c, slotOf, step, key);
    } else {
      assert TopHeld(c, key);
      if key in c.vtop {
        StepKind(c, slotOf, step, c.vtop[key]);
      }
    }
  }

  lemma StepVersion(c: Core, slotOf: Key -> nat, step: Step)
    requires ChainsLinked(c, slotOf) && PhasesOk(c) && NewIsLate(c) && VersionHeld(c) && Enabled(c, slotOf, step)
    ensures VersionHeld(Do(c, slotOf, step))
  {
    var c' := Do(c, slotOf, step);
    forall key: Key
      ensures TopHeld(c', key)
    {
      StepTop(c, slotOf, step, key);
    }
    forall a: nat | IsOld(c', a)
      ensures c'.log[a].key in c'.vtop && a <= c'.vtop[c'.log[a].key]
    {
      StepKind(c, slotOf, step, a);
    }
  }

  /** A record written at or above ReadOnly is not on the device yet. */
  lemma WriteAboveDevice(c: Core, c': Core, a: nat, rec: Record<Payload>)
    requires DeviceHeld(c) && c'.log == c.log[a := rec] && c'.device == c.device && c'.ro == c.ro <= a
    requires c'.saved == c.saved && c'.final == c.final
    requires c.saved && c.final.Some? ==> c.final.value <= a
    ensures DeviceHeld(c')
  {
  }

  lemma UpdateDevice(c: Core, slotOf: Key -> nat, step: Step)
    requires PhasesOk(c) && DeviceHeld(c) && step.Update? && step.addr in c.log && c.ro <= step.addr
    ensures DeviceHeld(DoUpdate(c, step))
  {
    hide DeviceHeld;
    WriteAboveDevice(c, DoUpdate(c, step), step.addr, Updated(c, step));
  }

  lemma AppendDevice(c: Core, slotOf: Key -> nat, step: Step)
    requires PhasesOk(c) && DeviceHeld(c) && step.Append? && c.tail <= step.addr
    ensures DeviceHeld(DoAppend(c, slotOf, step))
  {
    hide DeviceHeld;
    WriteAboveDevice(c, DoAppend(c, slotOf, step), step.addr, Appended(c, slotOf, step));
  }

  lemma OtherDevice(c: Core, slotOf: Key -> nat, step: Step)
    requires ChainsLinked(c, slotOf) && PhasesOk(c) && DeviceHeld(c) && Enabled(c, slotOf, step)
    requires !step.Update? && !step.Append?
    ensures DeviceHeld(Do(c, slotOf, step))
  {
    hide Lookup, LeadsOn, AllLinked;
  }

  lemma StepDevice(c: Core, slotOf: Key -> nat, step: Step)
    requires ChainsLinked(c, slotOf) && PhasesOk(c) && DeviceHeld(c) && Enabled(c, slotOf, step)
    ensures DeviceHeld(Do(c, slotOf, step))
  {
    hide Lookup, ChainsLinked, DeviceHeld;
    if step.Update? {
      UpdateDevice(c, slotOf, step);
    } else if step.Append? {
      AppendDevice(c, slotOf, step);
    } else {
      OtherDevice(c, slotOf, step);
    }
  }

  lemma StepInv(c: Core, slotOf: Key -> nat, step: Step)
    requires Inv(c, slotOf) && Enabled(c, slotOf, step)
    ensures Inv(Do(c, slotOf, step), slotOf)
  {
    StepChains(c, slotOf, step);
    StepPhases(c, slotOf, step);
    StepNew(c, slotOf, step);
    StepSeparated(c, slotOf, step);
    StepVersion(c, slotOf, step);
    StepDevice(c, slotOf, step);
  }

  /** Version v is closed: the change to InProgress has drained, or a later one was made. */
  predicate Closed(c: Core) {
    IN_PROGRESS <= c.phase && (c.phase == IN_PROGRESS ==> c.quiet)
  }

  /** Once version v is closed, none of its records changes and none is added. */
  lemma ClosedStep(c: Core, slotOf: Key -> nat, step: Step, a: nat)
    requires Inv(c, slotOf) && Closed(c) && Enabled(c, slotOf, step)
    ensures var c' := Do(c, slotOf, step);
            && Closed(c') && c'.vmap == c.vmap && c'.vtop == c.vtop
            && (IsOld(c', a) <==> IsOld(c, a))
            && (IsOld(c, a) ==>
                  && SameFrame(c.log[a], c'.log[a])
                  && c'.log[a].payload == c.log[a].payload && c'.log[a].tombstone == c.log[a].tombstone)
  {
    StepKind(c, slotOf, step, a);
    if step.Update? {
      UpdatesTop(c, slotOf, step);
    }
  }
}
