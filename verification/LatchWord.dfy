/**
  Entry 7 of a bucket (crates/tsavorite/src/index.rs:236-267, 326-407): the low
  48 bits link the overflow bucket, the next 15 count the readers of the bucket
  latch, and the top bit is its exclusive bit. Loads, compare-and-exchanges and
  fetch operations of any number of sessions and linkers interleave freely. The
  bounded spins are left open: an attempt may give up whenever the code could.
 */
module LatchWord {
  import opened Bytes

  const LINK_LIMIT: nat := 0x1_0000_0000_0000
  const SHARED_ONE: nat := 0x1_0000_0000_0000
  const SHARED_LIMIT: nat := 0x8000
  const EXCLUSIVE_BIT: nat := 0x8000_0000_0000_0000
  const WORD_LIMIT: nat := 0x1_0000_0000_0000_0000

  /** The overflow link: `w & ADDRESS_MASK`. */
  function Link(w: nat): nat {
    w % LINK_LIMIT
  }

  /** The reader count: the bits under SHARED_MASK, shifted down. */
  function Shared(w: nat): nat {
    w / SHARED_ONE % SHARED_LIMIT
  }

  predicate Exclusive(w: nat) {
    EXCLUSIVE_BIT <= w
  }

  function Pack(exclusive: bool, shared: nat, link: nat): nat {
    (if exclusive then EXCLUSIVE_BIT else 0) + shared * SHARED_ONE + link
  }

  predicate IsWord(w: nat, exclusive: bool, shared: nat, link: nat) {
    shared < SHARED_LIMIT && link < LINK_LIMIT && w == Pack(exclusive, shared, link)
  }

  /** The three fields of a word are independent of one another. */
  lemma Fields(w: nat, exclusive: bool, shared: nat, link: nat)
    requires IsWord(w, exclusive, shared, link)
    ensures w < WORD_LIMIT && Exclusive(w) == exclusive && Shared(w) == shared && Link(w) == link
  {
    var high := w / SHARED_ONE;
    assert high == (if exclusive then SHARED_LIMIT else 0) + shared;
  }

  /** Every word is made of its three fields. */
  lemma Unpacked(w: nat)
    requires w < WORD_LIMIT
    ensures IsWord(w, Exclusive(w), Shared(w), Link(w))
  {
    var high := w / SHARED_ONE;
    assert w == high * SHARED_ONE + Link(w);
    assert high < 2 * SHARED_LIMIT;
  }

  datatype Pc =
    | Idle
    | SharedLoaded(cur: nat)
    | Reading
    | ExclusiveLoaded(cur: nat)
    | Draining
    | Writing

  /** `linkers` hold the word they will compare with and the bucket they allocated. */
  datatype Linker = Linker(bucket: nat, cur: nat)

  /** `holder` is history: the thread that set the exclusive bit. */
  datatype State = State(word: nat, pcs: seq<Pc>, linkers: map<nat, Linker>, holder: Option<nat>)

  datatype Step =
    | LoadShared(thread: nat)
    | CasShared(thread: nat)
    | UnlockShared(thread: nat)
    | LoadExclusive(thread: nat)
    | CasExclusive(thread: nat)
    | CheckReaders(thread: nat)
    | GiveUp(thread: nat)
    | UnlockExclusive(thread: nat)
    | StartLink(linker: nat, bucket: nat)
    | CasLink(linker: nat)

  function Init(threads: nat): State {
    State(0, seq(threads, _ => Idle), map[], None)
  }

  function PcOf(s: State, t: nat): Pc {
    if t < |s.pcs| then s.pcs[t] else Idle
  }

  predicate Enabled(s: State, step: Step) {
    match step
    case LoadShared(t) => t < |s.pcs| && s.pcs[t].Idle?
    case CasShared(t) => PcOf(s, t).SharedLoaded?
    case UnlockShared(t) => PcOf(s, t).Reading?
    case LoadExclusive(t) => t < |s.pcs| && s.pcs[t].Idle?
    case CasExclusive(t) => PcOf(s, t).ExclusiveLoaded?
    case CheckReaders(t) => PcOf(s, t).Draining?
    case GiveUp(t) => PcOf(s, t).Draining?
    case UnlockExclusive(t) => PcOf(s, t).Writing?
    case StartLink(l, bucket) => l !in s.linkers && 0 < bucket < LINK_LIMIT
    case CasLink(l) => l in s.linkers
  }

  /** `fetch_and(!EXCLUSIVE_BIT)`. */
  function ClearExclusive(w: nat): nat {
    if Exclusive(w) then w - EXCLUSIVE_BIT else w
  }

  /** `fetch_sub(SHARED_ONE)`, which wraps at 64 bits. */
  function SubShared(w: nat): nat
    requires w < WORD_LIMIT
  {
    (w + WORD_LIMIT - SHARED_ONE) % WORD_LIMIT
  }

  function WithPc(s: State, t: nat, pc: Pc): State {
    if t < |s.pcs| then s.(pcs := s.pcs[t := pc]) else s
  }

  function DoLink(s: State, l: nat): State
    requires l in s.linkers
  {
    var cur := s.linkers[l].cur;
    if Link(cur) != 0 then s.(linkers := s.linkers - {l})
    else if s.word == cur then s.(word := cur + s.linkers[l].bucket, linkers := s.linkers - {l})
    else s.(linkers := s.linkers[l := s.linkers[l].(cur := s.word)])
  }

  function Do(s: State, step: Step): State
    requires Enabled(s, step) && s.word < WORD_LIMIT
  {
    match step
    case LoadShared(t) =>
      if Exclusive(s.word) || Shared(s.word) == SHARED_LIMIT - 1 then s
      else WithPc(s, t, SharedLoaded(s.word))
    case CasShared(t) =>
      if s.word == s.pcs[t].cur then WithPc(s, t, Reading).(word := s.word + SHARED_ONE)
      else WithPc(s, t, Idle)
    case UnlockShared(t) => WithPc(s, t, Idle).(word := SubShared(s.word))
    case LoadExclusive(t) => if Exclusive(s.word) then s else WithPc(s, t, ExclusiveLoaded(s.word))
    case CasExclusive(t) =>
      if s.word == s.pcs[t].cur then WithPc(s, t, Draining).(word := s.word + EXCLUSIVE_BIT, holder := Some(t))
      else WithPc(s, t, Idle)
    case CheckReaders(t) => if Shared(s.word) == 0 then WithPc(s, t, Writing) else s
    case GiveUp(t) => WithPc(s, t, Idle).(word := ClearExclusive(s.word), holder := None)
    case UnlockExclusive(t) => WithPc(s, t, Idle).(word := ClearExclusive(s.word), holder := None)
    case StartLink(l, bucket) => s.(linkers := s.linkers[l := Linker(bucket, s.word)])
    case CasLink(l) => DoLink(s, l)
  }

  // ---------------------------------------------------------------------
  // The invariant
  // ---------------------------------------------------------------------

  function One(pc: Pc): nat {
    if pc.Reading? then 1 else 0
  }

  function Readers(pcs: seq<Pc>): nat {
    if pcs == [] then 0 else Readers(pcs[..|pcs| - 1]) + One(pcs[|pcs| - 1])
  }

  lemma {:induction false} ReadersUpdate(pcs: seq<Pc>, t: nat, pc: Pc)
    requires t < |pcs|
    ensures Readers(pcs[t := pc]) + One(pcs[t]) == Readers(pcs) + One(pc)
    ensures One(pcs[t]) <= Readers(pcs)
  {
    var pcs' := pcs[t := pc];
    var n := |pcs| - 1;
    if t == n {
      assert pcs'[..n] == pcs[..n];
    } else {
      ReadersUpdate(pcs[..n], t, pc);
      assert pcs'[..n] == pcs[..n][t := pc];
    }
  }

  predicate HasBit(pc: Pc) {
    pc.Draining? || pc.Writing?
  }

  predicate PcOk(s: State, t: nat) {
    var pc := PcOf(s, t);
    && (HasBit(pc) <==> s.holder == Some(t))
    && (pc.Writing? ==> Shared(s.word) == 0)
    && (pc.SharedLoaded? ==> !Exclusive(pc.cur) && Shared(pc.cur) < SHARED_LIMIT - 1)
    && (pc.ExclusiveLoaded? ==> !Exclusive(pc.cur))
  }

  ghost predicate Inv(s: State) {
    && s.word < WORD_LIMIT
    && Shared(s.word) == Readers(s.pcs)
    && Exclusive(s.word) == s.holder.Some?
    && (forall t: nat :: PcOk(s, t))
    && (forall l :: l in s.linkers ==> 0 < s.linkers[l].bucket < LINK_LIMIT)
  }

  lemma {:induction false} NoReaders(threads: nat)
    ensures Readers(seq(threads, _ => Idle)) == 0
  {
    if 0 < threads {
      NoReaders(threads - 1);
      assert seq(threads, _ => Idle)[..threads - 1] == seq(threads - 1, _ => Idle);
    }
  }

  lemma InitInv(threads: nat)
    ensures Inv(Init(threads))
  {
    NoReaders(threads);
  }

  // ---------------------------------------------------------------------
  // What each operation does to the three fields
  // ---------------------------------------------------------------------

  /** The fields that an operation leaves in the word. */
  predicate Becomes(w': nat, exclusive: bool, shared: int, link: nat) {
    w' < WORD_LIMIT && Exclusive(w') == exclusive && Shared(w') == shared && Link(w') == link
  }

  lemma TakeShared(w: nat)
    requires w < WORD_LIMIT && Shared(w) < SHARED_LIMIT - 1
    ensures Becomes(w + SHARED_ONE, Exclusive(w), Shared(w) + 1, Link(w))
  {
    Unpacked(w);
    Fields(w + SHARED_ONE, Exclusive(w), Shared(w) + 1, Link(w));
  }

  lemma DropShared(w: nat)
    requires w < WORD_LIMIT && 0 < Shared(w)
    ensures Becomes(SubShared(w), Exclusive(w), Shared(w) - 1, Link(w))
  {
    Unpacked(w);
    Fields(w - SHARED_ONE, Exclusive(w), Shared(w) - 1, Link(w));
  }

  lemma TakeExclusive(w: nat)
    requires w < WORD_LIMIT && !Exclusive(w)
    ensures Becomes(w + EXCLUSIVE_BIT, true, Shared(w), Link(w))
  {
    Unpacked(w);
    Fields(w + EXCLUSIVE_BIT, true, Shared(w), Link(w));
  }

  lemma DropExclusive(w: nat)
    requires w < WORD_LIMIT
    ensures Becomes(ClearExclusive(w), false, Shared(w), Link(w))
  {
    Unpacked(w);
    Fields(ClearExclusive(w), false, Shared(w), Link(w));
  }

  lemma SetLink(w: nat, bucket: nat)
    requires w < WORD_LIMIT && Link(w) == 0 && bucket < LINK_LIMIT
    ensures Becomes(w + bucket, Exclusive(w), Shared(w), bucket)
  {
    Unpacked(w);
    Fields(w + bucket, Exclusive(w), Shared(w), bucket);
  }

  lemma StepReader(s: State, step: Step)
    requires Inv(s) && Enabled(s, step) && (step.CasShared? || step.UnlockShared?)
    ensures Inv(Do(s, step)) && Link(Do(s, step).word) == Link(s.word)
  {
    var t := step.thread;
    var s' := Do(s, step);
    assert PcOk(s, t);
    ReadersUpdate(s.pcs, t, s'.pcs[t]);
    if step.UnlockShared? {
      DropShared(s.word);
    } else if s.word == s.pcs[t].cur {
      TakeShared(s.word);
    }
    forall u: nat
      ensures PcOk(s', u)
    {
      assert PcOk(s, u);
    }
  }

  lemma StepWriter(s: State, step: Step)
    requires Inv(s) && Enabled(s, step)
    requires step.CasExclusive? || step.CheckReaders? || step.GiveUp? || step.UnlockExclusive?
    ensures Inv(Do(s, step)) && Link(Do(s, step).word) == Link(s.word)
  {
    var t := step.thread;
    var s' := Do(s, step);
    assert PcOk(s, t);
    ReadersUpdate(s.pcs, t, s'.pcs[t]);
    assert s.pcs[t := s.pcs[t]] == s.pcs;
    if step.GiveUp? || step.UnlockExclusive? {
      DropExclusive(s.word);
    } else if step.CasExclusive? && s.word == s.pcs[t].cur {
      TakeExclusive(s.word);
    }
    forall u: nat
      ensures PcOk(s', u)
    {
      assert PcOk(s, u);
    }
  }

  lemma StepLoad(s: State, step: Step)
    requires Inv(s) && Enabled(s, step) && (step.LoadShared? || step.LoadExclusive?)
    ensures Inv(Do(s, step)) && Link(Do(s, step).word) == Link(s.word)
  {
    var t := step.thread;
    var s' := Do(s, step);
    ReadersUpdate(s.pcs, t, s'.pcs[t]);
    forall u: nat
      ensures PcOk(s', u)
    {
      assert PcOk(s, u);
    }
  }

  lemma StepLinker(s: State, step: Step)
    requires Inv(s) && Enabled(s, step) && (step.StartLink? || step.CasLink?)
    ensures Inv(Do(s, step))
    ensures Link(s.word) != 0 ==> Link(Do(s, step).word) == Link(s.word)
  {
    var s' := Do(s, step);
    if step.CasLink? && s.word == s.linkers[step.linker].cur && Link(s.word) == 0 {
      SetLink(s.word, s.linkers[step.linker].bucket);
    }
    forall u: nat
      ensures PcOk(s', u)
    {
      assert PcOk(s, u);
    }
  }

  lemma StepInv(s: State, step: Step)
    requires Inv(s) && Enabled(s, step)
    ensures Inv(Do(s, step))
    ensures Link(s.word) != 0 ==> Link(Do(s, step).word) == Link(s.word)
    ensures !step.CasLink? ==> Link(Do(s, step).word) == Link(s.word)
  {
    match step
    case LoadShared(_) => StepLoad(s, step);
    case LoadExclusive(_) => StepLoad(s, step);
    case CasShared(_) => StepReader(s, step);
    case UnlockShared(_) => StepReader(s, step);
    case StartLink(_, _) => StepLinker(s, step);
    case CasLink(_) => StepLinker(s, step);
    case _ => StepWriter(s, step);
  }

  // ---------------------------------------------------------------------
  // Runs
  // ---------------------------------------------------------------------

  predicate StepAt(states: seq<State>, steps: seq<Step>, i: nat)
    requires i < |steps| && |states| == |steps| + 1
  {
    states[i].word < WORD_LIMIT && Enabled(states[i], steps[i]) && states[i + 1] == Do(states[i], steps[i])
  }

  ghost predicate IsRun(states: seq<State>, steps: seq<Step>) {
    && |states| == |steps| + 1
    && (exists threads: nat :: states[0] == Init(threads))
    && forall i: nat :: i < |steps| ==> StepAt(states, steps, i)
  }

  lemma {:induction false} RunInv(states: seq<State>, steps: seq<Step>, i: nat)
    requires IsRun(states, steps) && i < |states|
    ensures Inv(states[i])
  {
    if i == 0 {
      var threads: nat :| states[0] == Init(threads);
      InitInv(threads);
    } else {
      RunInv(states, steps, i - 1);
      assert StepAt(states, steps, i - 1);
      StepInv(states[i - 1], steps[i - 1]);
    }
  }

  /** The count in the word is the number of threads that read-hold the latch. */
  lemma CountsReaders(states: seq<State>, steps: seq<Step>, i: nat)
    requires IsRun(states, steps) && i < |states|
    ensures Shared(states[i].word) == Readers(states[i].pcs)
    ensures Exclusive(states[i].word) <==> exists t: nat :: HasBit(PcOf(states[i], t))
  {
    RunInv(states, steps, i);
    if states[i].holder.Some? {
      assert PcOk(states[i], states[i].holder.value);
    } else {
      forall t: nat
        ensures !HasBit(PcOf(states[i], t))
      {
        assert PcOk(states[i], t);
      }
    }
  }

  /** A granted exclusive latch excludes every reader and every other writer. */
  lemma ExclusiveExcludes(states: seq<State>, steps: seq<Step>, i: nat, t: nat, u: nat)
    requires IsRun(states, steps) && i < |states| && t != u
    requires PcOf(states[i], t).Writing?
    ensures !PcOf(states[i], u).Reading? && !PcOf(states[i], u).Writing?
  {
    RunInv(states, steps, i);
    assert PcOk(states[i], t) && PcOk(states[i], u);
    if u < |states[i].pcs| {
      ReadersUpdate(states[i].pcs, u, Idle);
    }
  }

  /** It stays granted until its holder unlocks it. */
  lemma {:induction false} HeldUntilUnlock(states: seq<State>, steps: seq<Step>, i: nat, j: nat, t: nat)
    requires IsRun(states, steps) && i <= j < |states| && PcOf(states[i], t).Writing?
    requires forall k: nat :: i <= k < j ==> steps[k] != UnlockExclusive(t)
    ensures PcOf(states[j], t).Writing?
    decreases j
  {
    if i < j {
      HeldUntilUnlock(states, steps, i, j - 1, t);
      assert StepAt(states, steps, j - 1);
    }
  }

  /** The link is set at most once: whatever the latch does, a link once seen is the link for good. */
  lemma {:induction false} LinkIsForGood(states: seq<State>, steps: seq<Step>, i: nat, j: nat)
    requires IsRun(states, steps) && i <= j < |states| && Link(states[i].word) != 0
    ensures Link(states[j].word) == Link(states[i].word)
    decreases j
  {
    if i < j {
      LinkIsForGood(states, steps, i, j - 1);
      RunInv(states, steps, j - 1);
      assert StepAt(states, steps, j - 1);
      StepInv(states[j - 1], steps[j - 1]);
    }
  }
}
