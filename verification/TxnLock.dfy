/**
  Transactions take the latches of all their buckets up front, in bucket order
  (crates/tsavorite/src/store.rs:1139-1175). This module holds the list of
  latches a session asks for, the locking protocol between any number of
  sessions, and why it cannot deadlock. A latch of one bucket behaves as
  LatchWord shows: an exclusive request first sets the bit, which keeps new
  readers and writers out, and is granted once the readers have left.
 */
module TxnLock {
  import opened Bytes

  datatype LockType = Shared | Exclusive

  type Want = (nat, LockType)

  // ---------------------------------------------------------------------
  // The list of latches: sort_by_key, then dedup_by_key
  // ---------------------------------------------------------------------

  function Rank(mode: LockType): nat {
    if mode.Exclusive? then 0 else 1
  }

  predicate Before(a: Want, b: Want) {
    a.0 < b.0 || (a.0 == b.0 && Rank(a.1) <= Rank(b.1))
  }

  predicate Sorted(wants: seq<Want>) {
    forall i, j :: 0 <= i < j < |wants| ==> Before(wants[i], wants[j])
  }

  function Insert(wants: seq<Want>, w: Want): seq<Want> {
    if wants == [] then [w]
    else if Before(w, wants[0]) then [w] + wants
    else [wants[0]] + Insert(wants[1..], w)
  }

  function SortByKey(wants: seq<Want>): seq<Want> {
    if wants == [] then [] else Insert(SortByKey(wants[..|wants| - 1]), wants[|wants| - 1])
  }

  lemma {:induction false} InsertMembers(wants: seq<Want>, w: Want)
    ensures multiset(Insert(wants, w)) == multiset(wants) + multiset{w}
    ensures forall x :: x in Insert(wants, w) <==> x in wants || x == w
  {
    if wants != [] {
      assert wants == [wants[0]] + wants[1..];
      if !Before(w, wants[0]) {
        InsertMembers(wants[1..], w);
      }
    }
  }

  lemma SortedCons(x: Want, rest: seq<Want>)
    requires Sorted(rest) && forall y :: y in rest ==> Before(x, y)
    ensures Sorted([x] + rest)
  {
  }

  lemma {:induction false} InsertSorted(wants: seq<Want>, w: Want)
    requires Sorted(wants)
    ensures Sorted(Insert(wants, w))
  {
    if wants == [] {
    } else if Before(w, wants[0]) {
      SortedCons(w, wants);
    } else {
      InsertSorted(wants[1..], w);
      InsertMembers(wants[1..], w);
      SortedCons(wants[0], Insert(wants[1..], w));
    }
  }

  lemma {:induction false} SortIsPermutation(wants: seq<Want>)
    ensures Sorted(SortByKey(wants)) && multiset(SortByKey(wants)) == multiset(wants)
  {
    if wants != [] {
      var n := |wants| - 1;
      SortIsPermutation(wants[..n]);
      InsertSorted(SortByKey(wants[..n]), wants[n]);
      InsertMembers(SortByKey(wants[..n]), wants[n]);
      assert wants == wants[..n] + [wants[n]];
    }
  }

  /** Keeps an entry unless its bucket is that of the entry before it. */
  function Dedup(wants: seq<Want>): seq<Want> {
    if wants == [] then []
    else
      var n := |wants| - 1;
      if 0 < n && wants[n - 1].0 == wants[n].0 then Dedup(wants[..n]) else Dedup(wants[..n]) + [wants[n]]
  }

  predicate Ascending(wants: seq<Want>) {
    forall i, j :: 0 <= i < j < |wants| ==> wants[i].0 < wants[j].0
  }

  predicate Mentions(wants: seq<Want>, bucket: nat) {
    exists i :: 0 <= i < |wants| && wants[i].0 == bucket
  }

  /** Among the requests for its bucket, `w` is one, and an exclusive one if there is any. */
  predicate Strongest(wants: seq<Want>, w: Want) {
    w in wants && ((w.0, Exclusive) in wants ==> w.1 == Exclusive)
  }

  lemma {:induction false} DedupAscends(wants: seq<Want>)
    requires Sorted(wants)
    ensures Ascending(Dedup(wants))
    ensures forall w :: w in Dedup(wants) ==> w.0 <= wants[|wants| - 1].0
  {
    if wants != [] {
      DedupAscends(wants[..|wants| - 1]);
    }
  }

  lemma {:induction false} DedupMentions(wants: seq<Want>, i: nat)
    requires i < |wants|
    ensures Mentions(Dedup(wants), wants[i].0)
  {
    var n := |wants| - 1;
    if 0 < n && wants[n - 1].0 == wants[n].0 {
      DedupMentions(wants[..n], if i < n then i else n - 1);
    } else {
      var kept := Dedup(wants[..n]);
      assert (kept + [wants[n]])[|kept|] == wants[n];
      if i < n {
        DedupMentions(wants[..n], i);
        var k :| 0 <= k < |kept| && kept[k].0 == wants[i].0;
        assert (kept + [wants[n]])[k] == kept[k];
      }
    }
  }

  lemma {:induction false} DedupStrongest(wants: seq<Want>, w: Want)
    requires Sorted(wants) && w in Dedup(wants)
    ensures Strongest(wants, w)
  {
    var n := |wants| - 1;
    assert wants == wants[..n] + [wants[n]];
    if w in Dedup(wants[..n]) {
      DedupStrongest(wants[..n], w);
    }
  }

  /** The latches `txn_lock` takes for the keys it is given. */
  function Wanted(wants: seq<Want>): seq<Want> {
    Dedup(SortByKey(wants))
  }

  /** Each bucket of a requested key is locked exactly once, in bucket order, in its strongest mode. */
  lemma WantedExact(wants: seq<Want>)
    ensures Ascending(Wanted(wants))
    ensures forall w :: w in Wanted(wants) ==> Strongest(wants, w)
    ensures forall w :: w in wants ==> Mentions(Wanted(wants), w.0)
  {
    var sorted := SortByKey(wants);
    SortIsPermutation(wants);
    DedupAscends(sorted);
    forall w
      ensures w in wants <==> w in sorted
    {
      assert w in wants <==> w in multiset(wants);
      assert w in sorted <==> w in multiset(sorted);
    }
    forall w | w in Wanted(wants)
      ensures Strongest(wants, w)
    {
      DedupStrongest(sorted, w);
    }
    forall w | w in wants
      ensures Mentions(Wanted(wants), w.0)
    {
      var i :| 0 <= i < |sorted| && sorted[i] == w;
      DedupMentions(sorted, i);
    }
  }

  // ---------------------------------------------------------------------
  // The protocol
  // ---------------------------------------------------------------------

  /**
    A session has taken `wants[..taken]` and given back `wants[..freed]`;
    `pending` says that it has set the exclusive bit of `wants[taken]` and is
    waiting for the readers to leave.
   */
  datatype Session = Session(wants: seq<Want>, taken: nat, pending: bool, freed: nat)

  type State = seq<Session>

  datatype Step =
    | TakeShared(session: nat)
    | SetBit(session: nat)
    | Grant(session: nat)
    | TimeOut(session: nat)
    | Unlock(session: nat)

  predicate Locking(s: Session) {
    s.taken < |s.wants| && s.freed == 0
  }

  predicate Unlocking(s: Session) {
    s.taken == |s.wants| && s.freed < |s.wants|
  }

  predicate Finished(s: Session) {
    s.taken == |s.wants| == s.freed
  }

  /** The session holds the latch it took k-th, and that latch is of this bucket. */
  predicate HoldsAt(s: Session, k: nat, bucket: nat) {
    s.freed <= k < s.taken <= |s.wants| && s.wants[k].0 == bucket
  }

  predicate Reads(s: Session, k: nat, bucket: nat) {
    HoldsAt(s, k, bucket) && s.wants[k].1.Shared?
  }

  predicate Writes(s: Session, k: nat, bucket: nat) {
    HoldsAt(s, k, bucket) && s.wants[k].1.Exclusive?
  }

  predicate Waits(s: Session, bucket: nat) {
    s.pending && s.taken < |s.wants| && s.wants[s.taken].0 == bucket
  }

  ghost predicate NoReader(st: State, bucket: nat) {
    forall j: nat, k: nat :: j < |st| ==> !Reads(st[j], k, bucket)
  }

  /** The exclusive bit of the bucket is clear. */
  ghost predicate NoBit(st: State, bucket: nat) {
    && (forall j: nat, k: nat :: j < |st| ==> !Writes(st[j], k, bucket))
    && (forall j: nat :: j < |st| ==> !Waits(st[j], bucket))
  }

  ghost predicate Enabled(st: State, step: Step) {
    && step.session < |st|
    && var s := st[step.session];
       match step
       case TakeShared(_) =>
         Locking(s) && !s.pending && s.wants[s.taken].1.Shared? && NoBit(st, s.wants[s.taken].0)
       case SetBit(_) =>
         Locking(s) && !s.pending && s.wants[s.taken].1.Exclusive? && NoBit(st, s.wants[s.taken].0)
       case Grant(_) => Locking(s) && s.pending && NoReader(st, s.wants[s.taken].0)
       case TimeOut(_) => Locking(s) && s.pending
       case Unlock(_) => Unlocking(s)
  }

  function Next(s: Session, step: Step): Session {
    match step
    case TakeShared(_) => s.(taken := s.taken + 1)
    case SetBit(_) => s.(pending := true)
    case Grant(_) => s.(pending := false, taken := s.taken + 1)
    case TimeOut(_) => s.(pending := false)
    case Unlock(_) => s.(freed := s.freed + 1)
  }

  function Do(st: State, step: Step): State
    requires step.session < |st|
  {
    st[step.session := Next(st[step.session], step)]
  }

  predicate SessionOk(s: Session) {
    && Ascending(s.wants) && s.freed <= s.taken <= |s.wants|
    && (0 < s.freed ==> s.taken == |s.wants|)
    && (s.pending ==> Locking(s) && s.wants[s.taken].1.Exclusive?)
  }

  /** A writer of a bucket excludes readers, writers and waiting writers; a waiting writer the last two. */
  predicate Compatible(s: Session, u: Session, k: nat, m: nat, bucket: nat) {
    && (Writes(s, k, bucket) ==> !HoldsAt(u, m, bucket) && !Waits(u, bucket))
    && (Waits(s, bucket) ==> !Waits(u, bucket))
  }

  ghost predicate Inv(st: State) {
    && (forall i: nat :: i < |st| ==> SessionOk(st[i]))
    && forall i: nat, j: nat, k: nat, m: nat, bucket: nat ::
         i < |st| && j < |st| && i != j ==> Compatible(st[i], st[j], k, m, bucket)
  }

  predicate IsStart(s: Session) {
    s.taken == 0 && !s.pending && s.freed == 0 && Ascending(s.wants)
  }

  lemma InitInv(st: State)
    requires forall i: nat :: i < |st| ==> IsStart(st[i])
    ensures Inv(st)
  {
  }

  lemma StepCompatible(st: State, step: Step, i: nat, j: nat, k: nat, m: nat, bucket: nat)
    requires Inv(st) && Enabled(st, step) && i < |st| && j < |st| && i != j
    ensures Compatible(Do(st, step)[i], Do(st, step)[j], k, m, bucket)
  {
    assert Compatible(st[i], st[j], k, m, bucket);
    assert Compatible(st[j], st[i], m, k, bucket);
    assert SessionOk(st[step.session]);
    assert HoldsAt(st[j], m, bucket) <==> Reads(st[j], m, bucket) || Writes(st[j], m, bucket);
  }

  lemma StepInv(st: State, step: Step)
    requires Inv(st) && Enabled(st, step)
    ensures Inv(Do(st, step))
  {
    assert SessionOk(st[step.session]);
    forall i: nat, j: nat, k: nat, m: nat, bucket: nat | i < |st| && j < |st| && i != j
      ensures Compatible(Do(st, step)[i], Do(st, step)[j], k, m, bucket)
    {
      StepCompatible(st, step, i, j, k, m, bucket);
    }
  }

  // ---------------------------------------------------------------------
  // No deadlock
  // ---------------------------------------------------------------------

  /** The session can take its next latch without waiting for anyone, or give one back. */
  ghost predicate CanGo(st: State, i: nat)
    requires i < |st|
  {
    || Unlocking(st[i])
    || (Locking(st[i])
        && var w := st[i].wants[st[i].taken];
           && (!st[i].pending ==> NoBit(st, w.0))
           && (w.1.Exclusive? ==> NoReader(st, w.0)))
  }

  function NextBucket(s: Session): nat
    requires Locking(s)
  {
    s.wants[s.taken].0
  }

  /** Among the sessions still locking, one that asks for the highest bucket. */
  lemma {:induction false} HighestAsked(st: State, n: nat, first: nat) returns (top: nat)
    requires first < n <= |st| && Locking(st[first])
    ensures top < n && Locking(st[top])
    ensures forall j: nat :: j < n && Locking(st[j]) ==> NextBucket(st[j]) <= NextBucket(st[top])
  {
    if first == n - 1 {
      top := first;
      if below: nat :| below < n - 1 && Locking(st[below]) {
        var t := HighestAsked(st, n - 1, below);
        top := if NextBucket(st[first]) < NextBucket(st[t]) then t else first;
      }
    } else {
      top := HighestAsked(st, n - 1, first);
      if Locking(st[n - 1]) && NextBucket(st[top]) < NextBucket(st[n - 1]) {
        top := n - 1;
      }
    }
  }

  /** Nobody holds the highest bucket asked for: whoever holds it asks for nothing, or for a higher one. */
  lemma TopIsFree(st: State, top: nat, j: nat, k: nat)
    requires Inv(st) && top < |st| && j < |st| && Locking(st[top]) && !Unlocking(st[j])
    requires Locking(st[j]) ==> NextBucket(st[j]) <= NextBucket(st[top])
    ensures !HoldsAt(st[j], k, NextBucket(st[top]))
  {
    assert SessionOk(st[j]);
  }

  /** Unless all are finished, some session can go on. */
  lemma NoDeadlock(st: State, unfinished: nat) returns (i: nat)
    requires Inv(st) && unfinished < |st| && !Finished(st[unfinished])
    ensures i < |st| && CanGo(st, i)
  {
    assert SessionOk(st[unfinished]);
    if u: nat :| u < |st| && Unlocking(st[u]) {
      i := u;
    } else {
      var top := HighestAsked(st, |st|, unfinished);
      var bucket := NextBucket(st[top]);
      forall j: nat, k: nat | j < |st|
        ensures !HoldsAt(st[j], k, bucket)
      {
        TopIsFree(st, top, j, k);
      }
      if w: nat :| w < |st| && Waits(st[w], bucket) {
        i := w;
        assert SessionOk(st[w]);
      } else {
        i := top;
      }
    }
  }

  /** What is left to do: every acquisition and every release lowers it, and nothing raises it. */
  function Remaining(st: State): int {
    if st == [] then 0
    else
      var s := st[|st| - 1];
      Remaining(st[..|st| - 1]) + 2 * |s.wants| - s.taken - s.freed
  }

  lemma {:induction false} RemainingUpdate(st: State, i: nat, s: Session)
    requires i < |st| && s.wants == st[i].wants
    ensures Remaining(st[i := s]) == Remaining(st) + st[i].taken + st[i].freed - s.taken - s.freed
  {
    var n := |st| - 1;
    if i == n {
      assert st[i := s][..n] == st[..n];
    } else {
      RemainingUpdate(st[..n], i, s);
      assert st[i := s][..n] == st[..n][i := s];
    }
  }

  lemma {:induction false} RemainingBounded(st: State)
    requires forall i: nat :: i < |st| ==> SessionOk(st[i])
    ensures 0 <= Remaining(st)
    ensures Remaining(st) == 0 ==> forall i: nat :: i < |st| ==> Finished(st[i])
  {
    if st != [] {
      assert forall i: nat :: i < |st| - 1 ==> st[..|st| - 1][i] == st[i];
      RemainingBounded(st[..|st| - 1]);
      assert SessionOk(st[|st| - 1]);
    }
  }

  lemma StepRemaining(st: State, step: Step)
    requires Inv(st) && Enabled(st, step)
    ensures step.TakeShared? || step.Grant? || step.Unlock? ==> Remaining(Do(st, step)) == Remaining(st) - 1
    ensures step.SetBit? || step.TimeOut? ==> Remaining(Do(st, step)) == Remaining(st)
  {
    RemainingUpdate(st, step.session, Next(st[step.session], step));
  }

  // ---------------------------------------------------------------------
  // Runs
  // ---------------------------------------------------------------------

  ghost predicate StepAt(states: seq<State>, steps: seq<Step>, i: nat)
    requires i < |steps| && |states| == |steps| + 1
  {
    Enabled(states[i], steps[i]) && states[i + 1] == Do(states[i], steps[i])
  }

  ghost predicate IsRun(states: seq<State>, steps: seq<Step>) {
    && |states| == |steps| + 1
    && (forall i: nat :: i < |states[0]| ==> IsStart(states[0][i]))
    && forall i: nat :: i < |steps| ==> StepAt(states, steps, i)
  }

  lemma {:induction false} RunInv(states: seq<State>, steps: seq<Step>, i: nat)
    requires IsRun(states, steps) && i < |states|
    ensures Inv(states[i])
  {
    if i == 0 {
      InitInv(states[0]);
    } else {
      RunInv(states, steps, i - 1);
      assert StepAt(states, steps, i - 1);
      StepInv(states[i - 1], steps[i - 1]);
    }
  }

  /** One or two steps of a session that can go on, and nobody else's, bring the end nearer. */
  ghost predicate GoesOn(st: State, i: nat) {
    || (exists step: Step :: step.session == i && Enabled(st, step) && Remaining(Do(st, step)) == Remaining(st) - 1)
    || (exists first: Step, second: Step ::
          && first.session == i && second.session == i && Enabled(st, first) && Enabled(Do(st, first), second)
          && Remaining(Do(Do(st, first), second)) == Remaining(st) - 1)
  }

  lemma CanGoDoes(st: State, i: nat)
    requires Inv(st) && i < |st| && CanGo(st, i)
    ensures GoesOn(st, i)
  {
    assert SessionOk(st[i]);
    if Unlocking(st[i]) {
      StepRemaining(st, Unlock(i));
    } else if st[i].pending {
      StepRemaining(st, Grant(i));
    } else if st[i].wants[st[i].taken].1.Shared? {
      StepRemaining(st, TakeShared(i));
    } else {
      StepRemaining(st, SetBit(i));
      StepInv(st, SetBit(i));
      BitIsGranted(st, i);
      StepRemaining(Do(st, SetBit(i)), Grant(i));
    }
  }

  lemma BitIsGranted(st: State, i: nat)
    requires Inv(st) && i < |st| && CanGo(st, i) && Enabled(st, SetBit(i))
    ensures Enabled(Do(st, SetBit(i)), Grant(i))
  {
    var bucket := NextBucket(st[i]);
    assert NoReader(st, bucket);
    forall j: nat, k: nat | j < |st|
      ensures !Reads(Do(st, SetBit(i))[j], k, bucket)
    {
      assert !Reads(st[j], k, bucket);
    }
  }

  /** Steps that lead from one state to another. */
  ghost predicate Path(st: State, steps: seq<Step>, st': State)
    decreases |steps|
  {
    if steps == [] then st' == st
    else Enabled(st, steps[0]) && Path(Do(st, steps[0]), steps[1..], st')
  }

  lemma PathStep(st: State, step: Step, rest: seq<Step>, st': State)
    requires Enabled(st, step) && Path(Do(st, step), rest, st')
    ensures Path(st, [step] + rest, st')
  {
    hide Enabled, Do;
    assert ([step] + rest)[1..] == rest;
  }

  /** From every state that keeps the invariant, all sessions can still finish. */
  lemma {:induction false} CanFinish(st: State) returns (steps: seq<Step>, st': State)
    requires Inv(st)
    ensures Path(st, steps, st') && forall j: nat :: j < |st'| ==> Finished(st'[j])
    decreases Remaining(st)
  {
    hide Inv, Do, Remaining, Path;
    assert 0 <= Remaining(st) by {
      InvBounded(st);
    }
    if unfinished: nat :| unfinished < |st| && !Finished(st[unfinished]) {
      var j := NoDeadlock(st, unfinished);
      CanGoDoes(st, j);
      if step: Step :| step.session == j && Enabled(st, step) && Remaining(Do(st, step)) == Remaining(st) - 1 {
        StepInv(st, step);
        InvBounded(Do(st, step));
        var rest;
        rest, st' := CanFinish(Do(st, step));
        steps := [step] + rest;
        PathStep(st, step, rest, st');
      } else {
        var first: Step, second: Step :|
          && first.session == j && second.session == j && Enabled(st, first) && Enabled(Do(st, first), second)
          && Remaining(Do(Do(st, first), second)) == Remaining(st) - 1;
        StepInv(st, first);
        StepInv(Do(st, first), second);
        InvBounded(Do(Do(st, first), second));
        var rest;
        rest, st' := CanFinish(Do(Do(st, first), second));
        steps := [first] + ([second] + rest);
        PathStep(Do(st, first), second, rest, st');
        PathStep(st, first, [second] + rest, st');
      }
    } else {
      steps, st' := [], st;
      assert Path(st, [], st) by {
        NoSteps(st);
      }
    }
  }

  lemma NoSteps(st: State)
    ensures Path(st, [], st)
  {
  }

  lemma InvBounded(st: State)
    requires Inv(st)
    ensures 0 <= Remaining(st)
  {
    RemainingBounded(st);
  }

  /**
    In every reachable state, unless all sessions are finished, some session can
    do its next acquisition or release in one or two steps of its own; and there
    is a way on for all of them to finish.
   */
  lemma DeadlockFree(states: seq<State>, steps: seq<Step>, i: nat)
    requires IsRun(states, steps) && i < |states|
    ensures (forall j: nat :: j < |states[i]| ==> Finished(states[i][j]))
            || exists j: nat :: j < |states[i]| && CanGo(states[i], j) && GoesOn(states[i], j)
    ensures exists rest: seq<Step>, end: State ::
              Path(states[i], rest, end) && forall j: nat :: j < |end| ==> Finished(end[j])
  {
    RunInv(states, steps, i);
    var rest, end := CanFinish(states[i]);
    if unfinished: nat :| unfinished < |states[i]| && !Finished(states[i][unfinished]) {
      var j := NoDeadlock(states[i], unfinished);
      CanGoDoes(states[i], j);
    }
  }

  /** While a transaction works, no other session holds a latch that conflicts with one of its own. */
  lemma TransactionsExclude(states: seq<State>, steps: seq<Step>, i: nat, t: nat, u: nat, k: nat, m: nat, bucket: nat)
    requires IsRun(states, steps) && i < |states| && t < |states[i]| && u < |states[i]| && t != u
    requires Writes(states[i][t], k, bucket)
    ensures !HoldsAt(states[i][u], m, bucket)
  {
    RunInv(states, steps, i);
    assert Compatible(states[i][t], states[i][u], k, m, bucket);
  }
}
