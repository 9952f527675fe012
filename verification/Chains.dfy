/**
  Hash chains (crates/tsavorite/src/store.rs:519-596): what the first record for
  a key is, independent of which records are in memory. An index maps a slot,
  that is a (bucket, tag) pair, to the newest address on its chain.
 */
module Chains {
  import opened Bytes
  import opened HybridLogs

  type Log<P> = map<nat, Record<P>>

  type Index = map<nat, nat>

  /** Placeholder in a claimed slot that has no record yet (record.rs:47-48). */
  const TEMP_INVALID_ADDRESS: nat := 1

  /** The address of the first record for `key` on the chain that starts at `addr`. */
  function Lookup<P>(log: Log<P>, addr: nat, key: Key): (found: Option<nat>)
    ensures found.Some? ==> found.value in log && log[found.value].key == key && found.value <= addr
    decreases addr
  {
    if addr < FIRST_VALID_ADDRESS || addr !in log then None
    else if log[addr].key == key then Some(addr)
    else if addr <= log[addr].prev then None
    else Lookup(log, log[addr].prev, key)
  }

  /** What a chain says about a key: the newest payload, unless it is a tombstone. */
  function CellAt<P>(log: Log<P>, addr: nat, key: Key): Option<P> {
    var found := Lookup(log, addr, key);
    if found.Some? && !log[found.value].tombstone then Some(log[found.value].payload) else None
  }

  function HeadOf(index: Index, slot: nat): nat {
    if slot in index then index[slot] else 0
  }

  ghost predicate OnChain<P>(log: Log<P>, addr: nat) {
    addr < FIRST_VALID_ADDRESS || addr in log
  }

  /** Chains descend strictly and lead from record to record. */
  ghost predicate Descending<P>(log: Log<P>) {
    forall a :: a in log ==> log[a].prev < a && OnChain(log, log[a].prev)
  }

  ghost predicate Usable<P>(rec: Record<P>) {
    rec.valid && !rec.sealed
  }

  /** Operations trust only the newest record of a key: it is valid and not sealed. */
  ghost predicate NewestUsable<P>(log: Log<P>, index: Index, slotOf: Key -> nat) {
    forall key: Key ::
      var found := Lookup(log, HeadOf(index, slotOf(key)), key);
      found.Some? ==> Usable(log[found.value])
  }

  ghost predicate ChainsOk<P>(log: Log<P>, index: Index, slotOf: Key -> nat) {
    && Descending(log)
    && (forall s :: s in index ==> OnChain(log, index[s]))
    && NewestUsable(log, index, slotOf)
  }

  /** Only keys and links below the start of a chain matter to a lookup. */
  lemma {:induction false} LookupFrame<P>(log: Log<P>, log': Log<P>, addr: nat, key: Key)
    requires forall a :: a <= addr ==> (a in log <==> a in log')
    requires forall a :: a <= addr && a in log ==> log[a].key == log'[a].key && log[a].prev == log'[a].prev
    ensures Lookup(log, addr, key) == Lookup(log', addr, key)
    decreases addr
  {
    if FIRST_VALID_ADDRESS <= addr && addr in log && log[addr].key != key && log[addr].prev < addr {
      LookupFrame(log, log', log[addr].prev, key);
    }
  }

  /** Overwriting a record without moving it changes the cell of its own key only. */
  lemma UpdateCell<P>(log: Log<P>, a: nat, rec: Record<P>, addr: nat, key: Key)
    requires a in log && rec.key == log[a].key && rec.prev == log[a].prev
    ensures Lookup(log[a := rec], addr, key) == Lookup(log, addr, key)
    ensures key != rec.key ==> CellAt(log[a := rec], addr, key) == CellAt(log, addr, key)
  {
    LookupFrame(log, log[a := rec], addr, key);
  }

  /** In place: the newest record of a key is overwritten. */
  lemma UpdateOk<P>(log: Log<P>, index: Index, slotOf: Key -> nat, a: nat, rec: Record<P>)
    requires ChainsOk(log, index, slotOf)
    requires a in log && rec.key == log[a].key && rec.prev == log[a].prev && Usable(rec)
    ensures ChainsOk(log[a := rec], index, slotOf)
    ensures forall s, k: Key :: k != rec.key ==>
              CellAt(log[a := rec], HeadOf(index, s), k) == CellAt(log, HeadOf(index, s), k)
    ensures forall s, k: Key ::
              Lookup(log[a := rec], HeadOf(index, s), k) == Lookup(log, HeadOf(index, s), k)
  {
    forall s, k: Key
      ensures Lookup(log[a := rec], HeadOf(index, s), k) == Lookup(log, HeadOf(index, s), k)
      ensures k != rec.key ==> CellAt(log[a := rec], HeadOf(index, s), k) == CellAt(log, HeadOf(index, s), k)
    {
      UpdateCell(log, a, rec, HeadOf(index, s), k);
    }
  }

  /** Read-copy-update: a record that is no longer the newest of its key is sealed. */
  lemma SealOk<P>(log: Log<P>, index: Index, slotOf: Key -> nat, a: nat)
    requires ChainsOk(log, index, slotOf)
    requires a in log && Lookup(log, HeadOf(index, slotOf(log[a].key)), log[a].key) != Some(a)
    ensures ChainsOk(log[a := Sealed(log[a])], index, slotOf)
    ensures forall s, k: Key ::
              CellAt(log[a := Sealed(log[a])], HeadOf(index, s), k) == CellAt(log, HeadOf(index, s), k)
  {
    var log' := log[a := Sealed(log[a])];
    forall s, k: Key
      ensures Lookup(log', HeadOf(index, s), k) == Lookup(log, HeadOf(index, s), k)
      ensures CellAt(log', HeadOf(index, s), k) == CellAt(log, HeadOf(index, s), k)
    {
      UpdateCell(log, a, Sealed(log[a]), HeadOf(index, s), k);
    }
  }

  /** A record beyond every other that no chain reaches yet changes nothing. */
  lemma FillOk<P>(log: Log<P>, index: Index, slotOf: Key -> nat, a: nat, rec: Record<P>)
    requires ChainsOk(log, index, slotOf)
    requires forall b :: b in log ==> b < a
    requires FIRST_VALID_ADDRESS <= a && rec.prev < a && OnChain(log, rec.prev)
    ensures ChainsOk(log[a := rec], index, slotOf)
    ensures forall s, k: Key ::
              CellAt(log[a := rec], HeadOf(index, s), k) == CellAt(log, HeadOf(index, s), k)
    ensures forall k: Key :: Lookup(log[a := rec], rec.prev, k) == Lookup(log, rec.prev, k)
  {
    forall h: nat, k: Key | OnChain(log, h)
      ensures Lookup(log[a := rec], h, k) == Lookup(log, h, k)
    {
      LookupFrame(log, log[a := rec], h, k);
    }
    assert forall s :: OnChain(log, HeadOf(index, s));
  }

  /** The CAS that prepends a record, and the header write that validates it. */
  lemma PublishOk<P>(log: Log<P>, index: Index, slotOf: Key -> nat, a: nat, rec: Record<P>)
    requires ChainsOk(log, index, slotOf)
    requires FIRST_VALID_ADDRESS <= a && a in log && log[a].key == rec.key && log[a].prev == rec.prev
    requires Usable(rec) && rec.prev == HeadOf(index, slotOf(rec.key))
    ensures ChainsOk(log[a := rec], index[slotOf(rec.key) := a], slotOf)
    ensures Lookup(log[a := rec], a, rec.key) == Some(a)
    ensures forall k: Key :: k != rec.key ==>
              CellAt(log[a := rec], HeadOf(index[slotOf(rec.key) := a], slotOf(k)), k)
              == CellAt(log, HeadOf(index, slotOf(k)), k)
  {
    var log', index' := log[a := rec], index[slotOf(rec.key) := a];
    forall k: Key | k != rec.key
      ensures Lookup(log', HeadOf(index', slotOf(k)), k) == Lookup(log, HeadOf(index, slotOf(k)), k)
      ensures CellAt(log', HeadOf(index', slotOf(k)), k) == CellAt(log, HeadOf(index, slotOf(k)), k)
    {
      UpdateCell(log, a, rec, HeadOf(index, slotOf(k)), k);
      if slotOf(k) == slotOf(rec.key) {
        assert Lookup(log', a, k) == Lookup(log', rec.prev, k);
      }
    }
  }
}
