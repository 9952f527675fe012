/**
  Exactly whom an action waits for (crates/tsavorite/src/epoch.rs:116-246). From
  any state that the epoch machine can be in, and for any thread inside a
  section: either the action cannot run before the thread leaves or refreshes,
  whatever anyone does, or there is a way on in which it runs while the thread
  is still inside. Which of the two it is can be read off the state.
 */
module EpochGrace {
  import opened Bytes
  import opened EpochMachine

  /** A drain that can still come out above an epoch without the thread: it looked before, or has decided. */
  predicate GoesPast(d: Drain, epoch: nat, t: nat) {
    match d.pc
    case Scanning(next, min) => t < next && epoch < min
    case Decided(safe) => epoch <= safe
  }

  /** The action can run while the thread stays inside. */
  predicate CanPass(s: State, id: nat, t: nat)
    requires id in s.actions && t < |s.slots|
  {
    || s.actions[id].pc.Taken?
    || s.actions[id].epoch < s.slots[t]
    || exists d :: d in s.drains && GoesPast(s.drains[d], s.actions[id].epoch, t)
  }

  /** Steps that lead from one state to another. */
  ghost predicate Path(s: State, steps: seq<Step>, s': State)
    decreases |steps|
  {
    if steps == [] then s' == s
    else Enabled(s, steps[0]) && Path(Do(s, steps[0]), steps[1..], s')
  }

  ghost predicate StaysIn(steps: seq<Step>, t: nat) {
    forall k :: 0 <= k < |steps| ==> !LeavesOrRefreshes(steps[k], t)
  }

  /** Some way on from here runs the action, and the thread does not leave or refresh on it. */
  ghost predicate PassesBy(s: State, id: nat, t: nat) {
    exists steps: seq<Step>, s': State :: Path(s, steps, s') && StaysIn(steps, t) && Enabled(s', Run(id))
  }

  // ---------------------------------------------------------------------
  // Where it cannot pass
  // ---------------------------------------------------------------------

  lemma StaysInStep(s: State, step: Step, t: nat)
    requires Inv(s) && Enabled(s, step) && InSection(s, t) && !LeavesOrRefreshes(step, t)
    ensures InSection(Do(s, step), t) && |Do(s, step).slots| == |s.slots| && Do(s, step).slots[t] == s.slots[t]
  {
  }

  lemma HeldDrains(s: State, step: Step, id: nat, t: nat, d: nat)
    requires Inv(s) && Enabled(s, step) && InSection(s, t) && !LeavesOrRefreshes(step, t)
    requires id in s.actions && !CanPass(s, id, t) && d in Do(s, step).drains
    ensures !GoesPast(Do(s, step).drains[d], s.actions[id].epoch, t)
  {
    hide ActionsTagged, DrainsOrdered, DrainsBounded, Grace, TakenPassed;
    if d in s.drains {
      assert !GoesPast(s.drains[d], s.actions[id].epoch, t);
    }
  }

  lemma HeldAction(s: State, step: Step, id: nat, t: nat)
    requires Inv(s) && Enabled(s, step) && id in s.actions && !s.actions[id].pc.Ran?
    requires t < |s.slots| && !CanPass(s, id, t)
    ensures id in Do(s, step).actions && Do(s, step).actions[id].epoch == s.actions[id].epoch
    ensures !Do(s, step).actions[id].pc.Taken? && !Do(s, step).actions[id].pc.Ran?
  {
    hide SlotsPublished, ActionsTagged, DrainsOrdered, DrainsBounded, Grace, TakenPassed;
    if step.DrainTake? {
      assert !GoesPast(s.drains[step.drain], s.actions[id].epoch, t);
    }
  }

  /** A thread that holds an action up holds it up until it leaves or refreshes. */
  lemma HeldStep(s: State, step: Step, id: nat, t: nat)
    requires Inv(s) && Enabled(s, step) && InSection(s, t) && !LeavesOrRefreshes(step, t)
    requires id in s.actions && !s.actions[id].pc.Ran? && !CanPass(s, id, t)
    ensures InSection(Do(s, step), t) && t < |Do(s, step).slots|
    ensures id in Do(s, step).actions && !Do(s, step).actions[id].pc.Ran? && !CanPass(Do(s, step), id, t)
  {
    hide Do, Inv, Enabled, GoesPast;
    ShapeOf(s);
    StaysInStep(s, step, t);
    HeldAction(s, step, id, t);
    forall d | d in Do(s, step).drains
      ensures !GoesPast(Do(s, step).drains[d], s.actions[id].epoch, t)
    {
      HeldDrains(s, step, id, t, d);
    }
  }

  lemma {:induction false} HeldPath(s: State, steps: seq<Step>, s': State, id: nat, t: nat)
    requires Inv(s) && Path(s, steps, s') && StaysIn(steps, t) && InSection(s, t) && t < |s.slots|
    requires id in s.actions && !s.actions[id].pc.Ran? && !CanPass(s, id, t)
    ensures id in s'.actions && !s'.actions[id].pc.Taken? && !Enabled(s', Run(id))
    decreases |steps|
  {
    hide Inv, Do, LeavesOrRefreshes;
    if steps != [] {
      HeldStep(s, steps[0], id, t);
      StepInv(s, steps[0]);
      assert StaysIn(steps[1..], t) by {
        assert forall k :: 0 <= k < |steps| - 1 ==> steps[1..][k] == steps[k + 1];
      }
      HeldPath(Do(s, steps[0]), steps[1..], s', id, t);
    }
  }

  // ---------------------------------------------------------------------
  // Where it can
  // ---------------------------------------------------------------------

  lemma {:induction false} PathJoins(a: State, xs: seq<Step>, b: State, ys: seq<Step>, c: State)
    requires Path(a, xs, b) && Path(b, ys, c)
    ensures Path(a, xs + ys, c)
    decreases |xs|
  {
    hide Do, Enabled;
    if xs == [] {
      assert xs + ys == ys;
    } else {
      assert (xs + ys)[1..] == xs[1..] + ys;
      PathJoins(Do(a, xs[0]), xs[1..], b, ys, c);
    }
  }

  lemma OneStep(s: State, step: Step)
    requires Enabled(s, step)
    ensures Path(s, [step], Do(s, step))
  {
    hide Do, Enabled;
    assert [step][1..] == [];
    assert Path(Do(s, step), [], Do(s, step));
  }

  /** Steps of other threads and of drains are none of the thread's own leaving. */
  lemma JoinsStaysIn(xs: seq<Step>, ys: seq<Step>, t: nat)
    requires StaysIn(xs, t) && StaysIn(ys, t)
    ensures StaysIn(xs + ys, t)
  {
  }

  /** Only the threads have moved. */
  predicate SameWork(s: State, s': State) {
    && s'.current == s.current && s'.actions == s.actions && s'.drains == s.drains
    && |s'.pcs| == |s.pcs| && |s'.slots| == |s.slots|
  }

  /** One thread leaves, refreshing first if it was about to. */
  lemma SendOut(s: State, u: nat) returns (steps: seq<Step>, s': State)
    requires Inv(s) && u < |s.pcs|
    ensures Path(s, steps, s') && Inv(s') && SameWork(s, s')
    ensures forall k :: 0 <= k < |steps| ==> steps[k] == RefreshStore(u) || steps[k] == Leave(u)
    ensures s'.slots == s.slots[u := 0]
    ensures forall v :: 0 <= v < |s.pcs| && v != u ==> s'.pcs[v] == s.pcs[v]
  {
    if s.pcs[u].Inside? {
      SendInsideOut(s, u);
      steps, s' := [Leave(u)], Do(s, Leave(u));
    } else if s.pcs[u].Refreshing? {
      var mid := Do(s, RefreshStore(u));
      StepInv(s, RefreshStore(u));
      OneStep(s, RefreshStore(u));
      SendInsideOut(mid, u);
      steps, s' := [RefreshStore(u)] + [Leave(u)], Do(mid, Leave(u));
      PathJoins(s, [RefreshStore(u)], mid, [Leave(u)], s');
    } else {
      steps, s' := [], s;
      assert s.slots[u := 0] == s.slots by {
        assert !InSection(s, u);
      }
    }
  }

  lemma SendInsideOut(s: State, u: nat)
    requires Inv(s) && u < |s.pcs| && s.pcs[u].Inside?
    ensures Path(s, [Leave(u)], Do(s, Leave(u))) && Inv(Do(s, Leave(u))) && SameWork(s, Do(s, Leave(u)))
    ensures Do(s, Leave(u)).slots == s.slots[u := 0]
    ensures forall v :: 0 <= v < |s.pcs| && v != u ==> Do(s, Leave(u)).pcs[v] == s.pcs[v]
  {
    OneStep(s, Leave(u));
    StepInv(s, Leave(u));
  }

  /** Every thread but `t` is sent out. */
  lemma {:induction false} SendAllOut(s: State, t: nat, n: nat) returns (steps: seq<Step>, s': State)
    requires Inv(s) && t < |s.pcs| && n <= |s.pcs|
    ensures Path(s, steps, s') && Inv(s') && SameWork(s, s') && StaysIn(steps, t)
    ensures s'.slots[t] == s.slots[t] && s'.pcs[t] == s.pcs[t]
    ensures forall u :: 0 <= u < n && u != t ==> s'.slots[u] == 0
    decreases n
  {
    hide Inv, Path;
    if n == 0 {
      steps, s' := [], s;
      assert Path(s, [], s) by {
        NoSteps(s);
      }
    } else {
      var xs, mid := SendAllOut(s, t, n - 1);
      if n - 1 == t {
        steps, s' := xs, mid;
      } else {
        var ys;
        ys, s' := SendOut(mid, n - 1);
        steps := xs + ys;
        PathJoins(s, xs, mid, ys, s');
        assert |mid.slots| == |mid.pcs| && |s'.slots| == |mid.slots| by {
          ShapeOf(mid);
        }
        JoinsStaysIn(xs, ys, t);
      }
    }
  }

  lemma NoSteps(s: State)
    ensures Path(s, [], s)
  {
  }

  lemma ShapeOf(s: State)
    requires Inv(s)
    ensures |s.slots| == |s.pcs| == |s.born|
  {
  }

  /** A drain whose way ahead is clear scans to its end above the epoch. */
  lemma {:induction false} ScanOn(s: State, d: nat, epoch: nat, t: nat) returns (steps: seq<Step>, s': State)
    requires Inv(s) && IsScanning(s, d) && s.drains[d].pc.next <= |s.slots| && epoch < s.drains[d].pc.min
    requires forall u :: s.drains[d].pc.next <= u < |s.slots| ==> s.slots[u] == 0 || epoch < s.slots[u]
    ensures Path(s, steps, s') && Inv(s') && StaysIn(steps, t)
    ensures s'.actions == s.actions && d in s'.drains && s'.drains[d].pc.Decided? && epoch <= s'.drains[d].pc.safe
    decreases |s.slots| - s.drains[d].pc.next
  {
    hide Path;
    if s.drains[d].pc.next == |s.slots| {
      StepInv(s, DrainDecide(d));
      OneStep(s, DrainDecide(d));
      steps, s' := [DrainDecide(d)], Do(s, DrainDecide(d));
    } else {
      var mid := Do(s, DrainScan(d));
      StepInv(s, DrainScan(d));
      OneStep(s, DrainScan(d));
      var ys;
      ys, s' := ScanOn(mid, d, epoch, t);
      steps := [DrainScan(d)] + ys;
      PathJoins(s, [DrainScan(d)], mid, ys, s');
      JoinsStaysIn([DrainScan(d)], ys, t);
    }
  }

  /** A drain that decided above the action's epoch takes it, once it is pushed. */
  lemma TakeIt(s: State, d: nat, id: nat, t: nat) returns (steps: seq<Step>, s': State)
    requires Inv(s) && id in s.actions && !s.actions[id].pc.Ran? && !s.actions[id].pc.Taken?
    requires d in s.drains && s.drains[d].pc.Decided? && s.actions[id].epoch <= s.drains[d].pc.safe
    ensures Path(s, steps, s') && StaysIn(steps, t) && Enabled(s', Run(id))
  {
    hide Path;
    if s.actions[id].pc.Loaded? {
      var mid := Do(s, Push(id));
      StepInv(s, Push(id));
      OneStep(s, Push(id));
      OneStep(mid, DrainTake(d));
      steps, s' := [Push(id)] + [DrainTake(d)], Do(mid, DrainTake(d));
      PathJoins(s, [Push(id)], mid, [DrainTake(d)], s');
    } else {
      OneStep(s, DrainTake(d));
      steps, s' := [DrainTake(d)], Do(s, DrainTake(d));
    }
    TakenCanRun(s, d, id);
  }

  lemma TakenCanRun(s: State, d: nat, id: nat)
    requires Inv(s) && id in s.actions && !s.actions[id].pc.Ran? && !s.actions[id].pc.Taken?
    requires d in s.drains && s.drains[d].pc.Decided? && s.actions[id].epoch <= s.drains[d].pc.safe
    ensures s.actions[id].pc.Loaded? ==> Enabled(Do(Do(s, Push(id)), DrainTake(d)), Run(id))
    ensures s.actions[id].pc.Listed? ==> Enabled(Do(s, DrainTake(d)), Run(id))
  {
  }

  lemma ScanAndTake(s: State, d: nat, id: nat, t: nat)
    requires Inv(s) && id in s.actions && !s.actions[id].pc.Ran? && !s.actions[id].pc.Taken?
    requires IsScanning(s, d) && s.drains[d].pc.next <= |s.slots| && s.actions[id].epoch < s.drains[d].pc.min
    requires forall u :: s.drains[d].pc.next <= u < |s.slots| ==> s.slots[u] == 0 || s.actions[id].epoch < s.slots[u]
    ensures PassesBy(s, id, t)
  {
    hide Path, StaysIn, Inv, Enabled;
    var xs, mid := ScanOn(s, d, s.actions[id].epoch, t);
    var ys, s' := TakeIt(mid, d, id, t);
    PathJoins(s, xs, mid, ys, s');
    JoinsStaysIn(xs, ys, t);
  }

  lemma PassesAfter(s: State, xs: seq<Step>, mid: State, id: nat, t: nat)
    requires Path(s, xs, mid) && StaysIn(xs, t) && PassesBy(mid, id, t)
    ensures PassesBy(s, id, t)
  {
    hide Path, StaysIn, Enabled;
    var ys, s' :| Path(mid, ys, s') && StaysIn(ys, t) && Enabled(s', Run(id));
    PathJoins(s, xs, mid, ys, s');
    JoinsStaysIn(xs, ys, t);
  }

  /** A drain begun when only a thread with a later slot is inside comes out above the epoch. */
  lemma FreshDrain(s: State, id: nat, t: nat)
    requires Inv(s) && id in s.actions && !s.actions[id].pc.Ran? && !s.actions[id].pc.Taken?
    requires t < |s.slots| && s.actions[id].epoch < s.slots[t]
    requires forall u :: 0 <= u < |s.slots| && u != t ==> s.slots[u] == 0
    ensures PassesBy(s, id, t)
  {
    var d: nat := FreshName(s.drains);
    var mid := Do(s, DrainStart(d));
    StepInv(s, DrainStart(d));
    OneStep(s, DrainStart(d));
    ScanAndTake(mid, d, id, t);
    PassesAfter(s, [DrainStart(d)], mid, id, t);
  }

  ghost function FreshName(drains: map<nat, Drain>): (d: nat)
    ensures d !in drains
  {
    SomeFree(drains.Keys);
    var d: nat :| d !in drains;
    d
  }

  lemma {:induction false} Bounded(names: set<nat>) returns (b: nat)
    ensures forall n :: n in names ==> n < b
    decreases |names|
  {
    if names == {} {
      b := 0;
    } else {
      var n :| n in names;
      var c := Bounded(names - {n});
      b := Max(c, n + 1);
      forall m | m in names
        ensures m < b
      {
        if m != n {
          assert m in names - {n};
        }
      }
    }
  }

  lemma SomeFree(names: set<nat>)
    ensures exists d: nat :: d !in names
  {
    var b := Bounded(names);
    assert b !in names;
  }

  lemma CanPassDoes(s: State, id: nat, t: nat)
    requires Inv(s) && id in s.actions && !s.actions[id].pc.Ran? && InSection(s, t) && t < |s.slots|
    requires CanPass(s, id, t)
    ensures PassesBy(s, id, t)
  {
    ShapeOf(s);
    if s.actions[id].pc.Taken? {
      NoSteps(s);
      assert StaysIn([], t);
    } else {
      hide Path;
      var xs, mid := SendAllOut(s, t, |s.pcs|);
      ShapeOf(mid);
      if s.actions[id].epoch < s.slots[t] {
        FreshDrain(mid, id, t);
      } else {
        var d :| d in s.drains && GoesPast(s.drains[d], s.actions[id].epoch, t);
        if s.drains[d].pc.Decided? {
          var ys, s' := TakeIt(mid, d, id, t);
        } else {
          NextInside(mid, d);
          ScanAndTake(mid, d, id, t);
        }
      }
      PassesAfter(s, xs, mid, id, t);
    }
  }

  /** A drain scans no further than there are slots. */
  lemma NextInside(s: State, d: nat)
    requires Inv(s) && IsScanning(s, d)
    ensures s.drains[d].pc.next <= |s.slots|
  {
    assert DrainBounded(s, s.drains[d]);
  }

  /**
    Exactly whom an action waits for: it can run while a thread stays inside if
    and only if it has been taken already, the thread published a later epoch, or
    a drain under way looked at the thread's slot too early.
   */
  lemma WaitsForIff(s: State, id: nat, t: nat)
    requires Inv(s) && id in s.actions && !s.actions[id].pc.Ran? && InSection(s, t) && t < |s.slots|
    ensures PassesBy(s, id, t) <==> CanPass(s, id, t)
  {
    if CanPass(s, id, t) {
      CanPassDoes(s, id, t);
    } else {
      forall steps: seq<Step>, s': State | Path(s, steps, s') && StaysIn(steps, t)
        ensures !Enabled(s', Run(id))
      {
        HeldPath(s, steps, s', id, t);
      }
    }
  }

  // ---------------------------------------------------------------------
  // Over whole runs
  // ---------------------------------------------------------------------

  predicate Publishes(step: Step, t: nat) {
    step == EnterStore(t) || step == RefreshStore(t)
  }

  /** As long as the epoch is the one an action was tagged with, everyone inside holds it up. */
  lemma CurrentHolds(s: State, id: nat, t: nat)
    requires Inv(s) && id in s.actions && s.actions[id].epoch == s.current && InSection(s, t) && t < |s.slots|
    ensures !s.actions[id].pc.Ran? && !CanPass(s, id, t)
  {
    forall d | d in s.drains
      ensures !GoesPast(s.drains[d], s.current, t)
    {
      assert DrainBounded(s, s.drains[d]);
    }
  }

  lemma {:induction false} HeldAlong(states: seq<State>, steps: seq<Step>, i: nat, j: nat, id: nat, t: nat)
    requires IsRun(states, steps) && i <= j < |states| && InSection(states[i], t) && t < |states[i].slots|
    requires id in states[i].actions && !states[i].actions[id].pc.Ran? && !CanPass(states[i], id, t)
    requires forall k :: i <= k < j ==> !LeavesOrRefreshes(steps[k], t)
    ensures InSection(states[j], t) && t < |states[j].slots|
    ensures id in states[j].actions && !states[j].actions[id].pc.Ran? && !CanPass(states[j], id, t)
    decreases j
  {
    if i < j {
      HeldAlong(states, steps, i, j - 1, id, t);
      RunInv(states, steps, j - 1);
      HeldStep(states[j - 1], steps[j - 1], id, t);
    }
  }

  lemma {:induction false} CurrentGrows(states: seq<State>, steps: seq<Step>, i: nat, j: nat)
    requires IsRun(states, steps) && i <= j < |states|
    ensures states[i].current <= states[j].current
    decreases j
  {
    if i < j {
      CurrentGrows(states, steps, i, j - 1);
    }
  }

  lemma PublishedInside(s: State, step: Step, t: nat)
    requires Inv(s) && Enabled(s, step) && Publishes(step, t)
    ensures InSection(Do(s, step), t) && t < |Do(s, step).slots| && Do(s, step).current == s.current
    ensures Do(s, step).actions == s.actions
  {
  }

  lemma LoadKeeps(s: State, id: nat)
    requires Inv(s) && Enabled(s, LoadPrior(id))
    ensures id in Do(s, LoadPrior(id)).actions
    ensures Do(s, LoadPrior(id)).actions[id].epoch == s.current == Do(s, LoadPrior(id)).current
  {
  }

  /**
    A thread that publishes its slot before the bump that ends the action's
    epoch is waited for, whether it did so before the epoch was loaded, before
    the push, or after.
   */
  lemma GraceFromPublication(states: seq<State>, steps: seq<Step>, i: nat, b: nat, j: nat, id: nat, t: nat)
    requires IsRun(states, steps) && i < j < |steps| && b < j
    requires steps[i] == LoadPrior(id) && steps[j] == Run(id)
    requires Publishes(steps[b], t) && states[b].current <= states[i].current
    ensures exists k :: b < k < j && LeavesOrRefreshes(steps[k], t)
  {
    if forall k :: b < k < j ==> !LeavesOrRefreshes(steps[k], t) {
      hide CanPass, Inv;
      RunInv(states, steps, b);
      RunInv(states, steps, i);
      PublishedInside(states[b], steps[b], t);
      LoadKeeps(states[i], id);
      var start := Max(b, i) + 1;
      if i < b {
        CurrentGrows(states, steps, i, b);
        KeepsStamp(states, steps, i, b, id);
      } else {
        StaysInside(states, steps, b + 1, start, t);
      }
      RunInv(states, steps, start);
      ShapeOf(states[start]);
      CurrentHolds(states[start], id, t);
      HeldAlong(states, steps, start, j, id, t);
      assert Enabled(states[j], steps[j]);
      RunningPasses(states[j], id, t);
    }
  }

  lemma RunningPasses(s: State, id: nat, t: nat)
    requires Enabled(s, Run(id)) && t < |s.slots|
    ensures CanPass(s, id, t)
  {
  }
}
