/**
  The tentative two-phase insert of the hash index
  (crates/tsavorite/src/index.rs:190-324) for one bucket chain, with any number
  of threads. One step is one atomic load, store or compare-and-exchange of one
  word. `cells` are the entry words of the chain in walking order, seven to a
  bucket. A link, once set, stays set, so loading one that is set is no step of
  its own: a walker may go on exactly while there are cells ahead of it.

  `owner` is history: the thread that last claimed a cell. `seen` is history:
  the published cell of the tag, if there was one when the walk began.
 */
module IndexMachine {
  import opened Bytes
  import opened Chains

  const ENTRIES_PER_BUCKET: nat := 7

  datatype Cell = Empty | Entry(tag: nat, address: nat, tentative: bool)

  datatype Pc =
    | Idle
    | Scanning(tag: nat, next: nat, vacant: Option<nat>, seen: Option<nat>)
    | Linking(tag: nat, last: nat, seen: Option<nat>)
    | Claiming(tag: nat, chosen: nat)
    | Rescanning(tag: nat, mine: nat, next: nat)
    | Clearing(tag: nat, mine: nat)
    | Publishing(tag: nat, mine: nat)
    | Holding(tag: nat, slot: nat)
    | Finding(tag: nat, next: nat, seen: Option<nat>)
    | NotFound(tag: nat, seen: Option<nat>)

  datatype State = State(cells: seq<Cell>, owner: seq<nat>, pcs: seq<Pc>)

  /** `FindOrCreate` and `Find` begin a call; `Install` is `SlotRef::try_cas` when it succeeds. */
  datatype Step =
    | FindOrCreate(thread: nat, tag: nat, seen: Option<nat>)
    | Find(thread: nat, tag: nat, seen: Option<nat>)
    | Advance(thread: nat)
    | Install(thread: nat, address: nat)
    | Return(thread: nat)

  function Init(threads: nat): State {
    State(seq(ENTRIES_PER_BUCKET, _ => Empty), seq(ENTRIES_PER_BUCKET, _ => 0), seq(threads, _ => Idle))
  }

  predicate Occupied(s: State, p: nat, tag: nat) {
    p < |s.cells| && s.cells[p].Entry? && s.cells[p].tag == tag
  }

  /** An entry that readers see. */
  predicate Published(s: State, p: nat, tag: nat) {
    Occupied(s, p, tag) && !s.cells[p].tentative
  }

  /** History: the published cell of a tag when a call begins, or none. */
  ghost predicate TrueSeen(s: State, tag: nat, seen: Option<nat>) {
    if seen.Some? then Published(s, seen.value, tag) else forall p: nat :: !Published(s, p, tag)
  }

  predicate MayAdvance(s: State, pc: Pc) {
    match pc
    case Scanning(_, _, _, _) => true
    case Linking(_, _, _) => true
    case Claiming(_, vacant) => vacant < |s.cells|
    case Rescanning(_, _, _) => true
    case Clearing(_, mine) => mine < |s.cells|
    case Publishing(_, mine) => mine < |s.cells|
    case Finding(_, _, _) => true
    case _ => false
  }

  ghost predicate Enabled(s: State, step: Step) {
    && |s.owner| == |s.cells| && step.thread < |s.pcs|
    && match step
       case FindOrCreate(t, tag, seen) => s.pcs[t].Idle? && TrueSeen(s, tag, seen)
       case Find(t, tag, seen) => s.pcs[t].Idle? && TrueSeen(s, tag, seen)
       case Advance(t) => MayAdvance(s, s.pcs[t])
       case Install(t, _) => s.pcs[t].Holding? && s.pcs[t].slot < |s.cells|
       case Return(t) => s.pcs[t].Holding? || s.pcs[t].NotFound?
  }

  /** One load of `find_tag_or_free` (index.rs:214-267). */
  function ScanNext(s: State, pc: Pc): Pc
    requires pc.Scanning?
  {
    if pc.next < |s.cells| then
      var cell := s.cells[pc.next];
      if cell.Empty? then
        Scanning(pc.tag, pc.next + 1, if pc.vacant.None? then Some(pc.next) else pc.vacant, pc.seen)
      else if cell.tag == pc.tag && !cell.tentative then Holding(pc.tag, pc.next)
      else Scanning(pc.tag, pc.next + 1, pc.vacant, pc.seen)
    else if pc.vacant.Some? then Claiming(pc.tag, pc.vacant.value)
    else Linking(pc.tag, pc.next, pc.seen)
  }

  /** One load of `other_slot_with_tag` (index.rs:270-286). */
  function RescanNext(s: State, pc: Pc): Pc
    requires pc.Rescanning?
  {
    if pc.next < |s.cells| then
      if pc.next != pc.mine && s.cells[pc.next].Entry? && s.cells[pc.next].tag == pc.tag
      then Clearing(pc.tag, pc.mine)
      else Rescanning(pc.tag, pc.mine, pc.next + 1)
    else Publishing(pc.tag, pc.mine)
  }

  /** One load of `find_tag` (index.rs:191-210). */
  function FindNext(s: State, pc: Pc): Pc
    requires pc.Finding?
  {
    if pc.next < |s.cells| then
      var cell := s.cells[pc.next];
      if cell.Entry? && cell.tag == pc.tag && !cell.tentative then Holding(pc.tag, pc.next)
      else Finding(pc.tag, pc.next + 1, pc.seen)
    else NotFound(pc.tag, pc.seen)
  }

  function WithPc(s: State, t: nat, pc: Pc): State
    requires t < |s.pcs|
  {
    s.(pcs := s.pcs[t := pc])
  }

  function WithCell(s: State, p: nat, cell: Cell): State
    requires p < |s.cells|
  {
    s.(cells := s.cells[p := cell])
  }

  /** Overflow linking: the first to find no link appends an empty bucket. */
  function LinkBucket(s: State, last: nat): State {
    if last == |s.cells| then
      s.(cells := s.cells + seq(ENTRIES_PER_BUCKET, _ => Empty), owner := s.owner + seq(ENTRIES_PER_BUCKET, _ => 0))
    else s
  }

  function DoAdvance(s: State, t: nat): State
    requires |s.owner| == |s.cells| && t < |s.pcs| && MayAdvance(s, s.pcs[t])
  {
    var pc := s.pcs[t];
    match pc
    case Scanning(_, _, _, _) => WithPc(s, t, ScanNext(s, pc))
    case Linking(tag, last, seen) =>
      // The loop goes on with the bucket that was the last, from its first entry.
      var again := if last < ENTRIES_PER_BUCKET then 0 else last - ENTRIES_PER_BUCKET;
      WithPc(LinkBucket(s, last), t, Scanning(tag, again, None, seen))
    case Claiming(tag, vacant) =>
      if s.cells[vacant].Empty? then
        WithPc(WithCell(s, vacant, Entry(tag, TEMP_INVALID_ADDRESS, true)).(owner := s.owner[vacant := t]), t,
               Rescanning(tag, vacant, 0))
      else WithPc(s, t, Scanning(tag, 0, None, None))
    case Rescanning(_, _, _) => WithPc(s, t, RescanNext(s, pc))
    case Clearing(tag, mine) => WithPc(WithCell(s, mine, Empty), t, Scanning(tag, 0, None, None))
    case Publishing(tag, mine) =>
      WithPc(WithCell(s, mine, Entry(tag, TEMP_INVALID_ADDRESS, false)), t, Holding(tag, mine))
    case Finding(_, _, _) => WithPc(s, t, FindNext(s, pc))
  }

  function Do(s: State, step: Step): State
    requires Enabled(s, step)
  {
    match step
    case FindOrCreate(t, tag, seen) => WithPc(s, t, Scanning(tag, 0, None, seen))
    case Find(t, tag, seen) => WithPc(s, t, Finding(tag, 0, seen))
    case Advance(t) => DoAdvance(s, t)
    case Install(t, address) => WithCell(s, s.pcs[t].slot, Entry(s.pcs[t].tag, address, false))
    case Return(t) => WithPc(s, t, Idle)
  }

  // ---------------------------------------------------------------------
  // The invariant
  // ---------------------------------------------------------------------

  predicate Owns(pc: Pc) {
    pc.Rescanning? || pc.Clearing? || pc.Publishing?
  }

  /** A thread that has claimed a cell is the only one to write it. */
  predicate OwnsCell(s: State, t: nat) {
    t < |s.pcs| && Owns(s.pcs[t]) ==>
      var p := s.pcs[t].mine;
      Occupied(s, p, s.pcs[t].tag) && s.cells[p].tentative && p < |s.owner| && s.owner[p] == t
  }

  /** The owner of `p` will still look at `q`, or is about to give `p` up. */
  predicate Yields(s: State, p: nat, q: nat)
    requires p < |s.owner|
  {
    && s.owner[p] < |s.pcs|
    && var pc := s.pcs[s.owner[p]];
       || (pc.Rescanning? && pc.mine == p && pc.next <= q)
       || (pc.Clearing? && pc.mine == p)
  }

  /** Of two entries with one tag, at least one is tentative and will give way. */
  predicate OneYields(s: State, p: nat, q: nat, tag: nat)
    requires |s.owner| == |s.cells|
  {
    Occupied(s, p, tag) && Occupied(s, q, tag) && p != q ==>
      || (s.cells[p].tentative && Yields(s, p, q))
      || (s.cells[q].tentative && Yields(s, q, p))
  }

  /** A walker has not passed the published entry that was there when it began. */
  predicate StillAhead(s: State, tag: nat, next: nat, seen: Option<nat>) {
    seen.Some? ==> next <= seen.value && Published(s, seen.value, tag)
  }

  predicate PcOk(s: State, t: nat) {
    t < |s.pcs| ==>
      var pc := s.pcs[t];
      match pc
      case Scanning(tag, next, vacant, seen) =>
        StillAhead(s, tag, next, seen) && (vacant.Some? ==> vacant.value < |s.cells|) && next <= |s.cells|
      case Linking(tag, last, seen) => StillAhead(s, tag, last, seen) && last <= |s.cells|
      case Claiming(_, vacant) => vacant < |s.cells|
      case Holding(tag, slot) => Published(s, slot, tag)
      case Finding(tag, next, seen) => StillAhead(s, tag, next, seen)
      case NotFound(_, seen) => seen.None?
      case _ => true
  }

  ghost predicate Inv(s: State) {
    && |s.owner| == |s.cells|
    && (forall t: nat :: OwnsCell(s, t))
    && (forall t: nat :: PcOk(s, t))
    && (forall p: nat, q: nat, tag: nat :: OneYields(s, p, q, tag))
  }

  lemma InitInv(threads: nat)
    ensures Inv(Init(threads))
  {
  }

  lemma StepOwns(s: State, step: Step, t: nat)
    requires Inv(s) && Enabled(s, step)
    ensures OwnsCell(Do(s, step), t)
  {
    assert OwnsCell(s, t);
    assert OwnsCell(s, step.thread) && PcOk(s, step.thread);
  }

  /** A published entry is never taken away: only its address changes. */
  lemma StepPublished(s: State, step: Step, p: nat, tag: nat)
    requires Enabled(s, step) && OwnsCell(s, step.thread) && PcOk(s, step.thread)
    requires Published(s, p, tag)
    ensures Published(Do(s, step), p, tag)
  {
  }

  lemma StepOthers(s: State, step: Step, t: nat)
    requires Enabled(s, step) && OwnsCell(s, step.thread) && PcOk(s, step.thread) && PcOk(s, t)
    requires t != step.thread
    ensures PcOk(Do(s, step), t)
  {
    if t < |s.pcs| {
      assert Do(s, step).pcs[t] == s.pcs[t] && |Do(s, step).cells| >= |s.cells|;
      match s.pcs[t]
      case Scanning(tag, _, _, Some(p)) => StepPublished(s, step, p, tag);
      case Linking(tag, _, Some(p)) => StepPublished(s, step, p, tag);
      case Finding(tag, _, Some(p)) => StepPublished(s, step, p, tag);
      case Holding(tag, slot) => StepPublished(s, step, slot, tag);
      case _ =>
    }
  }

  lemma StepSelf(s: State, step: Step)
    requires Enabled(s, step) && OwnsCell(s, step.thread) && PcOk(s, step.thread)
    ensures PcOk(Do(s, step), step.thread)
  {
  }

  lemma StepPcOk(s: State, step: Step, t: nat)
    requires Inv(s) && Enabled(s, step)
    ensures PcOk(Do(s, step), t)
  {
    assert PcOk(s, t);
    assert OwnsCell(s, step.thread) && PcOk(s, step.thread);
    if t == step.thread {
      StepSelf(s, step);
    } else {
      StepOthers(s, step, t);
    }
  }

  lemma StepYields(s: State, step: Step, p: nat, q: nat, tag: nat)
    requires Inv(s) && Enabled(s, step) && |Do(s, step).owner| == |Do(s, step).cells|
    ensures OneYields(Do(s, step), p, q, tag)
  {
    assert OneYields(s, p, q, tag);
    assert OwnsCell(s, step.thread) && PcOk(s, step.thread);
  }

  lemma StepInv(s: State, step: Step)
    requires Inv(s) && Enabled(s, step)
    ensures Inv(Do(s, step))
  {
    var s' := Do(s, step);
    forall t: nat
      ensures OwnsCell(s', t) && PcOk(s', t)
    {
      StepOwns(s, step, t);
      StepPcOk(s, step, t);
    }
    forall p: nat, q: nat, tag: nat
      ensures OneYields(s', p, q, tag)
    {
      StepYields(s, step, p, q, tag);
    }
  }

  // ---------------------------------------------------------------------
  // Runs
  // ---------------------------------------------------------------------

  ghost predicate StepAt(states: seq<State>, steps: seq<Step>, i: nat)
    requires i < |steps| && |states| == |steps| + 1
  {
    Enabled(states[i], steps[i]) && states[i + 1] == Do(states[i], steps[i])
  }

  ghost predicate IsRun(states: seq<State>, steps: seq<Step>) {
    && |states| == |steps| + 1
    && (exists threads: nat :: states[0] == Init(threads))
    && forall i: nat :: i < |steps| ==> StepAt(states, steps, i)
  }

  lemma {:induction false} RunInv(states: seq<State>, steps: seq<Step>, i: nat)
    requires IsRun(states, steps) && i < |states|
    ensures Inv(states[i])
  {
    if i == 0 {
      var threads: nat :| states[0] == Init(threads);
      InitInv(threads);
    } else {
      RunInv(states, steps, i - 1);
      assert StepAt(states, steps, i - 1);
      StepInv(states[i - 1], steps[i - 1]);
    }
  }

  /** A bucket chain never holds two entries with one tag that readers can see. */
  lemma OnePerTag(states: seq<State>, steps: seq<Step>, i: nat, p: nat, q: nat, tag: nat)
    requires IsRun(states, steps) && i < |states|
    requires Published(states[i], p, tag) && Published(states[i], q, tag)
    ensures p == q
  {
    RunInv(states, steps, i);
    assert OneYields(states[i], p, q, tag);
  }

  /** Once published, an entry stays where it is. */
  lemma {:induction false} StaysPublished(states: seq<State>, steps: seq<Step>, i: nat, j: nat, p: nat, tag: nat)
    requires IsRun(states, steps) && i <= j < |states| && Published(states[i], p, tag)
    ensures Published(states[j], p, tag)
    decreases j
  {
    if i < j {
      StaysPublished(states, steps, i, j - 1, p, tag);
      RunInv(states, steps, j - 1);
      assert StepAt(states, steps, j - 1);
      var t := steps[j - 1].thread;
      assert OwnsCell(states[j - 1], t) && PcOk(states[j - 1], t);
      StepPublished(states[j - 1], steps[j - 1], p, tag);
    }
  }

  /** Whatever two calls return for one tag, at whatever times, is one and the same cell. */
  lemma SameSlot(states: seq<State>, steps: seq<Step>, i: nat, j: nat, t: nat, u: nat)
    requires IsRun(states, steps) && i <= j < |states| && t < |states[i].pcs| && u < |states[j].pcs|
    requires states[i].pcs[t].Holding? && states[j].pcs[u].Holding?
    requires states[i].pcs[t].tag == states[j].pcs[u].tag
    ensures states[i].pcs[t].slot == states[j].pcs[u].slot
  {
    var tag := states[i].pcs[t].tag;
    RunInv(states, steps, i);
    RunInv(states, steps, j);
    assert PcOk(states[i], t) && PcOk(states[j], u);
    StaysPublished(states, steps, i, j, states[i].pcs[t].slot, tag);
    OnePerTag(states, steps, j, states[i].pcs[t].slot, states[j].pcs[u].slot, tag);
  }

  /** `find_tag` returns nothing only if there was no published entry when it began. */
  lemma FindsPublished(states: seq<State>, steps: seq<Step>, i: nat, j: nat, t: nat, tag: nat, p: nat)
    requires IsRun(states, steps) && i < |steps| && i < j < |states| && t < |states[j].pcs|
    requires steps[i].Find? && steps[i].thread == t && steps[i].tag == tag && Published(states[i], p, tag)
    requires forall k: nat :: i < k < j ==> steps[k].thread == t ==> steps[k].Advance?
    ensures states[j].pcs[t] == Holding(tag, p)
            || (states[j].pcs[t].Finding? && states[j].pcs[t].tag == tag && states[j].pcs[t].next <= p)
  {
    FindKeepsLooking(states, steps, i, j, t, tag);
    RunInv(states, steps, i);
    RunInv(states, steps, j);
    assert StepAt(states, steps, i);
    assert steps[i].seen.Some?;
    OnePerTag(states, steps, i, p, steps[i].seen.value, tag);
    assert PcOk(states[j], t);
    StaysPublished(states, steps, i, j, p, tag);
    if states[j].pcs[t].Holding? {
      OnePerTag(states, steps, j, p, states[j].pcs[t].slot, tag);
    }
  }

  /** A walker under way carries its tag and what was published when it began. */
  lemma {:induction false} FindKeepsLooking(states: seq<State>, steps: seq<Step>, i: nat, j: nat, t: nat, tag: nat)
    requires IsRun(states, steps) && i < |steps| && i < j < |states|
    requires steps[i].Find? && steps[i].thread == t && steps[i].tag == tag
    requires forall k: nat :: i < k < j ==> steps[k].thread == t ==> steps[k].Advance?
    ensures t < |states[j].pcs|
    ensures var pc := states[j].pcs[t];
            || (pc.Holding? && pc.tag == tag)
            || (pc.Finding? && pc.tag == tag && pc.seen == steps[i].seen)
            || (pc.NotFound? && pc.tag == tag && pc.seen == steps[i].seen)
    decreases j
  {
    assert StepAt(states, steps, j - 1);
    if i + 1 < j {
      FindKeepsLooking(states, steps, i, j - 1, t, tag);
    }
  }
}
