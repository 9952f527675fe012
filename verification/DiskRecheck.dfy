/**
  The second look at the chain after a record was fetched from disk
  (crates/tsavorite/src/store.rs:930-949, 1080-1095). RMW and Delete leave the
  epoch and drop the bucket latch while they read the device; when they come
  back they trace the chain once more, down to just above the head they had
  seen. Because the trace never goes below Head, it cannot tell a newer record
  that has itself been evicted; here is what it decides and when it is right.
 */
module DiskRecheck {
  import opened Bytes
  import opened HybridLogs
  import opened Chains
  import opened Stores

  /** `trace_back` (store.rs:519-529) as a function of the chain. */
  function TraceTo<P>(log: Log<P>, addr: nat, key: Key, min: nat): Trace
    decreases addr
  {
    if addr < min || addr < FIRST_VALID_ADDRESS || addr !in log then Stopped(addr)
    else if log[addr].key == key then Hit(addr)
    else if addr <= log[addr].prev then Stopped(addr)
    else TraceTo(log, log[addr].prev, key, min)
  }

  /** The guard under which the fetched record is used (store.rs:935-939). */
  predicate Passes<P>(log: Log<P>, latest: nat, seen: nat, key: Key, head: nat) {
    seen == latest || TraceTo(log, latest, key, Max(seen + 1, head)).Stopped?
  }

  lemma {:induction false} StopsSooner<P>(log: Log<P>, addr: nat, key: Key, min: nat, min': nat)
    requires min <= min' && TraceTo(log, addr, key, min).Stopped?
    ensures TraceTo(log, addr, key, min').Stopped?
    decreases addr
  {
    if min <= addr && FIRST_VALID_ADDRESS <= addr && addr in log && log[addr].prev < addr {
      StopsSooner(log, log[addr].prev, key, min, min');
    }
  }

  /** Wherever the guard is evaluated, it holds: the branch that restarts is never taken. */
  lemma RecheckAlwaysPasses<P>(log: Log<P>, latest: nat, seen: nat, key: Key, head: nat)
    requires TraceTo(log, latest, key, head).Stopped?
    ensures Passes(log, latest, seen, key, head)
  {
    StopsSooner(log, latest, key, head, Max(seen + 1, head));
  }

  /** The chain from `addr` comes to `seen`: records have only been put in front of it. */
  predicate Reaches<P>(log: Log<P>, addr: nat, seen: nat)
    decreases addr
  {
    addr == seen ||
    (seen < addr && FIRST_VALID_ADDRESS <= addr && addr in log && log[addr].prev < addr
     && Reaches(log, log[addr].prev, seen))
  }

  /** The fetched record is still the newest exactly if a trace all the way down to `seen` finds none. */
  lemma {:induction false} CurrentIff<P>(log: Log<P>, latest: nat, seen: nat, key: Key)
    requires Reaches(log, latest, seen)
    ensures TraceTo(log, latest, key, seen + 1).Stopped?
            <==> Lookup(log, latest, key) == Lookup(log, seen, key)
    decreases latest
  {
    if latest != seen && log[latest].key != key {
      CurrentIff(log, log[latest].prev, seen, key);
    }
  }

  /** So the guard is right if and only if no record of the key was put in front of `seen`. */
  lemma RightIff<P>(log: Log<P>, latest: nat, seen: nat, key: Key, head: nat)
    requires Reaches(log, latest, seen) && TraceTo(log, latest, key, head).Stopped?
    ensures (Passes(log, latest, seen, key, head) ==> Lookup(log, latest, key) == Lookup(log, seen, key))
            <==> TraceTo(log, latest, key, seen + 1).Stopped?
  {
    RecheckAlwaysPasses(log, latest, seen, key, head);
    CurrentIff(log, latest, seen, key);
  }

  // ---------------------------------------------------------------------
  // A run in which an update is lost
  // ---------------------------------------------------------------------

  const KEY: Key := [1]

  /**
    One key's slot: the chain and its head, Head of the log, and what a session
    that adds ten to the value has fetched: the chain head it saw, and the value.
   */
  datatype State = State(log: Log<int>, latest: nat, head: nat, tail: nat, fetched: Option<(nat, int)>)

  /** Another session appends a value; Head moves on; the adding session fetches, comes back and copies. */
  datatype Step = Put(value: int) | Evict(head: nat) | Fetch | CopyBack

  function Appended(s: State, value: int): State {
    State(s.log[s.tail := Record(s.latest, KEY, value, false, true, false, false, false)], s.tail, s.head, s.tail + 64,
          s.fetched)
  }

  predicate Enabled(s: State, step: Step) {
    match step
    case Put(_) => true
    case Evict(head) => s.head < head <= s.tail
    case Fetch => s.fetched.None? && TraceTo(s.log, s.latest, KEY, s.head).Stopped? && CellAt(s.log, s.latest, KEY).Some?
    case CopyBack => s.fetched.Some? && TraceTo(s.log, s.latest, KEY, s.head).Stopped?
  }

  function Do(s: State, step: Step): State
    requires Enabled(s, step)
  {
    match step
    case Put(value) => Appended(s, value)
    case Evict(head) => s.(head := head)
    case Fetch => s.(fetched := Some((s.latest, CellAt(s.log, s.latest, KEY).value)))
    case CopyBack =>
      if Passes(s.log, s.latest, s.fetched.value.0, KEY, s.head)
      then Appended(s, s.fetched.value.1 + 10).(fetched := None)
      else s.(fetched := None)
  }

  ghost predicate IsRun(states: seq<State>, steps: seq<Step>) {
    && |states| == |steps| + 1 && states[0] == State(map[], 0, 64, 64, None)
    && forall i :: 0 <= i < |steps| ==> Follows(states[i], steps[i], states[i + 1])
  }

  predicate Follows(s: State, step: Step, s': State) {
    Enabled(s, step) && s' == Do(s, step)
  }

  const LosingSteps: seq<Step> := [Put(1), Evict(128), Fetch, Put(2), Evict(192), CopyBack]

  function LosingStates(): seq<State> {
    var one := Record(0, KEY, 1, false, true, false, false, false);
    var two := Record(64, KEY, 2, false, true, false, false, false);
    var sum := Record(128, KEY, 11, false, true, false, false, false);
    var s := State(map[64 := one], 64, 64, 128, None);
    var u := State(map[64 := one, 128 := two], 128, 128, 192, Some((64, 1)));
    [State(map[], 0, 64, 64, None), s, s.(head := 128), s.(head := 128, fetched := Some((64, 1))),
     u, u.(head := 192), State(map[64 := one, 128 := two, 192 := sum], 192, 192, 256, None)]
  }

  lemma LosingFollows(i: nat)
    requires i < 6
    ensures Follows(LosingStates()[i], LosingSteps[i], LosingStates()[i + 1])
  {
    var s := LosingStates()[i];
    if i == 2 {
      assert Lookup(s.log, 64, KEY) == Some(64);
    } else if i == 5 {
      RecheckAlwaysPasses(s.log, s.latest, 64, KEY, s.head);
    }
  }

  /**
    From an empty log: 1 is stored and evicted, the adding session fetches it, 2
    is stored and evicted in its turn, and the session comes back, passes the
    guard and stores 11, the sum of ten and a value that was no longer there.
   */
  lemma UpdateIsLost()
    ensures var states, steps := LosingStates(), LosingSteps;
            && IsRun(states, steps) && steps[3] == Put(2) && steps[5] == CopyBack
            && CellAt(states[5].log, states[5].latest, KEY) == Some(2)
            && CellAt(states[6].log, states[6].latest, KEY) == Some(11)
  {
    forall i | 0 <= i < 6
      ensures Follows(LosingStates()[i], LosingSteps[i], LosingStates()[i + 1])
    {
      LosingFollows(i);
    }
    assert Lookup(LosingStates()[5].log, 128, KEY) == Some(128);
    assert Lookup(LosingStates()[6].log, 192, KEY) == Some(192);
  }
}
