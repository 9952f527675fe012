/**
  Concurrent tail allocation (crates/tsavorite/src/log.rs:258-305). The tail is
  one word advanced by fetch-and-add. The thread whose add takes the offset
  past the page end owns the page turn and later stores the tail back, either
  parked at the page end or moved onto the next page. Whether the next page is
  free when its owner looks is left open.

  The offset keeps counting while a turn is under way; it is unbounded here.
 */
module Allocator {
  import opened Bytes
  import opened HybridLogs

  datatype Grant = Grant(addr: nat, size: nat)

  datatype Pc = Idle | Turning(page: nat, size: nat)

  datatype State = State(page: nat, offset: nat, pcs: seq<Pc>, grants: seq<Grant>)

  datatype Step =
    | FetchAdd(thread: nat, size: nat)
    | Park(thread: nat)
    | Turn(thread: nat)

  ghost predicate Enabled(ps: nat, s: State, step: Step) {
    match step
    case FetchAdd(t, size) =>
      t < |s.pcs| && s.pcs[t].Idle? && 0 < size && FIRST_VALID_ADDRESS + size <= ps
    case Park(t) => t < |s.pcs| && s.pcs[t].Turning?
    case Turn(t) => t < |s.pcs| && s.pcs[t].Turning?
  }

  function Do(ps: nat, s: State, step: Step): State
    requires Enabled(ps, s, step)
  {
    match step
    case FetchAdd(t, size) =>
      var s' := s.(offset := s.offset + size);
      if s.offset + size <= ps then
        s'.(grants := s.grants + [Grant(PageAddress(s.page, ps) + s.offset, size)])
      else if ps < s.offset then
        s' // another thread owns the turn: RetryNow
      else
        s'.(pcs := s.pcs[t := Turning(s.page, size)])
    case Park(t) =>
      s.(page := s.pcs[t].page, offset := ps, pcs := s.pcs[t := Idle])
    case Turn(t) =>
      var next, size := s.pcs[t].page + 1, s.pcs[t].size;
      State(next, FIRST_VALID_ADDRESS + size, s.pcs[t := Idle],
            s.grants + [Grant(PageAddress(next, ps) + FIRST_VALID_ADDRESS, size)])
  }

  /** What `tail_address` reports once no turn is under way (log.rs:212-222). */
  function Tail(ps: nat, s: State): nat {
    PageAddress(s.page, ps) + Min(s.offset, ps)
  }

  /** A turn has exactly one owner, and a page word past its end has one. */
  ghost predicate OneOwner(ps: nat, s: State) {
    && (forall t :: 0 <= t < |s.pcs| && s.pcs[t].Turning? ==>
          && s.pcs[t].page == s.page && ps < s.offset
          && 0 < s.pcs[t].size && FIRST_VALID_ADDRESS + s.pcs[t].size <= ps)
    && (forall t, u :: 0 <= t < |s.pcs| && 0 <= u < |s.pcs| && s.pcs[t].Turning? && s.pcs[u].Turning? ==> t == u)
    && (ps < s.offset ==> exists t :: 0 <= t < |s.pcs| && s.pcs[t].Turning?)
    && FIRST_VALID_ADDRESS <= s.offset
  }

  /** A grant lies past the header of one page and within it. */
  ghost predicate OnOnePage(ps: nat, g: Grant) {
    exists page: nat ::
      && PageAddress(page, ps) + FIRST_VALID_ADDRESS <= g.addr
      && g.addr + g.size <= PageAddress(page, ps) + ps
  }

  ghost predicate Ascending(ps: nat, s: State) {
    && (forall i :: 0 <= i < |s.grants| ==> 0 < s.grants[i].size && OnOnePage(ps, s.grants[i]))
    && (forall i :: 0 <= i < |s.grants| ==> s.grants[i].addr + s.grants[i].size <= Tail(ps, s))
    && (forall i, j :: 0 <= i < j < |s.grants| ==> s.grants[i].addr + s.grants[i].size <= s.grants[j].addr)
  }

  ghost predicate Inv(ps: nat, s: State) {
    FIRST_VALID_ADDRESS < ps && OneOwner(ps, s) && Ascending(ps, s)
  }

  function Init(threads: nat): State {
    State(0, FIRST_VALID_ADDRESS, seq(threads, _ => Idle), [])
  }

  lemma StepOwner(ps: nat, s: State, step: Step)
    requires Inv(ps, s) && Enabled(ps, s, step)
    ensures OneOwner(ps, Do(ps, s, step))
  {
    var s' := Do(ps, s, step);
    if s'.pcs != s.pcs && step.FetchAdd? {
      assert s'.pcs[step.thread].Turning?;
    }
    if s'.pcs == s.pcs && ps < s.offset {
      var t :| 0 <= t < |s.pcs| && s.pcs[t].Turning?;
      assert s'.pcs[t].Turning?;
    }
  }

  /** Whatever a step grants starts at or above the tail as it was. */
  lemma StepGrants(ps: nat, s: State, step: Step)
    requires Inv(ps, s) && Enabled(ps, s, step)
    ensures Tail(ps, s) <= Tail(ps, Do(ps, s, step))
    ensures var s' := Do(ps, s, step);
            || s'.grants == s.grants
            || (exists g ::
                  && s'.grants == s.grants + [g] && Tail(ps, s) <= g.addr
                  && 0 < g.size && OnOnePage(ps, g) && g.addr + g.size <= Tail(ps, s'))
  {
    PageAddressMonotone(s.page, s.page + 1, ps);
    var s' := Do(ps, s, step);
    if |s.grants| < |s'.grants| {
      var g := s'.grants[|s.grants|];
      var page := s'.page;
      assert PageAddress(page, ps) + FIRST_VALID_ADDRESS <= g.addr;
      assert g.addr + g.size <= PageAddress(page, ps) + ps;
      assert OnOnePage(ps, g);
      assert s'.grants == s.grants + [g];
    }
  }

  lemma StepInv(ps: nat, s: State, step: Step)
    requires Inv(ps, s) && Enabled(ps, s, step)
    ensures Inv(ps, Do(ps, s, step))
  {
    StepOwner(ps, s, step);
    StepGrants(ps, s, step);
  }

  ghost predicate IsRun(ps: nat, states: seq<State>, steps: seq<Step>) {
    && FIRST_VALID_ADDRESS < ps && |states| == |steps| + 1 && states[0] == Init(|states[0].pcs|)
    && forall i :: 0 <= i < |steps| ==>
         Enabled(ps, states[i], steps[i]) && states[i + 1] == Do(ps, states[i], steps[i])
  }

  /** In every run: grants are disjoint, ascending, on one page, and turns have one owner. */
  lemma {:induction false} RunInv(ps: nat, states: seq<State>, steps: seq<Step>, i: nat)
    requires IsRun(ps, states, steps) && i < |states|
    ensures Inv(ps, states[i])
  {
    if i > 0 {
      RunInv(ps, states, steps, i - 1);
      StepInv(ps, states[i - 1], steps[i - 1]);
    }
  }

  lemma {:induction false} GrantsGrow(ps: nat, states: seq<State>, steps: seq<Step>, i: nat, j: nat)
    requires IsRun(ps, states, steps) && i <= j < |states|
    ensures states[i].grants <= states[j].grants && Tail(ps, states[i]) <= Tail(ps, states[j])
  {
    if i < j {
      GrantsGrow(ps, states, steps, i, j - 1);
      RunInv(ps, states, steps, j - 1);
      StepGrants(ps, states[j - 1], steps[j - 1]);
    }
  }

  /**
    An address allocated after a chain head was read lies above the head, which
    was itself allocated before it was published. So chains descend, and the
    check for a lower address never succeeds (store.rs:542-552).
   */
  lemma AllocationsExceedHeads(ps: nat, states: seq<State>, steps: seq<Step>, i: nat, j: nat, h: Grant)
    requires IsRun(ps, states, steps) && i <= j < |steps| && h in states[i].grants
    requires |states[j].grants| < |states[j + 1].grants|
    ensures var g := states[j + 1].grants[|states[j].grants|];
            h.addr + h.size <= g.addr && h.addr < g.addr
  {
    GrantsGrow(ps, states, steps, i, j);
    RunInv(ps, states, steps, j + 1);
    RunInv(ps, states, steps, j);
    StepGrants(ps, states[j], steps[j]);
    var n :| 0 <= n < |states[i].grants| && states[i].grants[n] == h;
    assert states[j + 1].grants[n] == h;
  }
}
