/**
  Recovery from a fold-over checkpoint (crates/tsavorite/src/checkpoint.rs:178-234):
  scan the records below `final` in address order, undo those of version v+1,
  and rebuild the index from the rest. The recovered store has every record on
  disk, so an operation finds a key the way `find_on_disk` does
  (crates/tsavorite/src/store.rs:581-596), which does not test Valid.
 */
module Recovery {
  import opened Bytes
  import opened HybridLogs
  import opened Chains
  import opened Checkpoint
  import CheckpointRun

  /** A record of version v+1 in the fuzzy region: recovery undoes it. */
  predicate Undone(disk: Log<Payload>, start: nat, final: nat, a: nat) {
    Valid(disk, a) && a < final && disk[a].newVersion && start <= a
  }

  predicate Kept(disk: Log<Payload>, start: nat, final: nat, a: nat) {
    Valid(disk, a) && a < final && !Undone(disk, start, final, a)
  }

  /** A kept record that heads its slot: every other kept record of the slot is below it. */
  ghost predicate Heads(disk: Log<Payload>, start: nat, final: nat, slotOf: Key -> nat, slot: nat, h: nat) {
    && (h != 0 ==> Kept(disk, start, final, h) && slotOf(disk[h].key) == slot)
    && forall a: nat :: Kept(disk, start, final, a) && slotOf(disk[a].key) == slot ==> a <= h
  }

  /** What recovery leaves of a record: undone ones invalid, kept ones not sealed. */
  ghost predicate Mended(disk: Log<Payload>, disk': Log<Payload>, start: nat, final: nat, a: nat)
    requires a in disk && a in disk'
  {
    && disk'[a] == disk[a].(valid := disk'[a].valid, sealed := disk'[a].sealed)
    && (disk'[a].valid <==> disk[a].valid && !Undone(disk, start, final, a))
    && (disk'[a].sealed <==> disk[a].sealed && !Kept(disk, start, final, a))
  }

  ghost predicate Recovered(disk: Log<Payload>, start: nat, final: nat, slotOf: Key -> nat,
                            index: Index, disk': Log<Payload>)
  {
    && disk'.Keys == disk.Keys
    && (forall a: nat :: a in disk ==> Mended(disk, disk', start, final, a))
    && (forall slot: nat :: Heads(disk, start, final, slotOf, slot, HeadOf(index, slot)))
  }

  /** Whether a record below another address is kept does not depend on what lies above. */
  lemma KeptBelow(disk: Log<Payload>, start: nat, addr: nat, a: nat)
    ensures a != addr ==> (Kept(disk, start, addr + 1, a) <==> Kept(disk, start, addr, a))
    ensures a != addr ==> (Undone(disk, start, addr + 1, a) <==> Undone(disk, start, addr, a))
    ensures Kept(disk, start, addr, a) ==> a < addr
  {
  }

  lemma MendStep(disk: Log<Payload>, disk': Log<Payload>, rec: Record<Payload>, start: nat, addr: nat)
    requires disk'.Keys == disk.Keys && addr in disk && Valid(disk, addr)
    requires forall a: nat :: a in disk ==> Mended(disk, disk', start, addr, a)
    requires rec == if Undone(disk, start, addr + 1, addr) then disk'[addr].(valid := false)
                    else disk'[addr].(sealed := false)
    ensures forall a: nat :: a in disk ==> Mended(disk, disk'[addr := rec], start, addr + 1, a)
  {
    forall a: nat | a in disk
      ensures Mended(disk, disk'[addr := rec], start, addr + 1, a)
    {
      assert Mended(disk, disk', start, addr, a);
      KeptBelow(disk, start, addr, a);
    }
  }

  lemma SkipStep(disk: Log<Payload>, start: nat, addr: nat, slotOf: Key -> nat, index: Index, disk': Log<Payload>)
    requires Recovered(disk, start, addr, slotOf, index, disk') && !Valid(disk, addr)
    ensures Recovered(disk, start, addr + 1, slotOf, index, disk')
  {
    assert forall a: nat :: Kept(disk, start, addr + 1, a) <==> Kept(disk, start, addr, a);
    forall a: nat | a in disk
      ensures Mended(disk, disk', start, addr + 1, a)
    {
      assert Mended(disk, disk', start, addr, a);
    }
    HeadStep(disk, start, addr, slotOf, index, index);
  }

  /** The index after one more record: only a kept one moves a head, and only that of its slot. */
  lemma HeadStep(disk: Log<Payload>, start: nat, addr: nat, slotOf: Key -> nat, index: Index, index': Index)
    requires forall slot: nat :: Heads(disk, start, addr, slotOf, slot, HeadOf(index, slot))
    requires index' == if Kept(disk, start, addr + 1, addr) then index[slotOf(disk[addr].key) := addr] else index
    ensures forall slot: nat :: Heads(disk, start, addr + 1, slotOf, slot, HeadOf(index', slot))
  {
    forall slot: nat
      ensures Heads(disk, start, addr + 1, slotOf, slot, HeadOf(index', slot))
    {
      assert Heads(disk, start, addr, slotOf, slot, HeadOf(index, slot));
      forall a: nat | a != addr
        ensures Kept(disk, start, addr + 1, a) <==> Kept(disk, start, addr, a)
      {
        KeptBelow(disk, start, addr, a);
      }
    }
  }

  /** The scan has not touched what lies ahead of it. */
  lemma Ahead(disk: Log<Payload>, start: nat, addr: nat, slotOf: Key -> nat, index: Index, disk': Log<Payload>)
    requires Recovered(disk, start, addr, slotOf, index, disk') && 0 < addr && addr in disk
    ensures addr in disk' && disk'[addr] == disk[addr]
    ensures HeadOf(index, slotOf(disk[addr].key)) < addr
  {
    assert Mended(disk, disk', start, addr, addr);
    assert Heads(disk, start, addr, slotOf, slotOf(disk[addr].key), HeadOf(index, slotOf(disk[addr].key)));
  }

  lemma UndoStep(disk: Log<Payload>, start: nat, addr: nat, slotOf: Key -> nat, index: Index, disk': Log<Payload>)
    requires Recovered(disk, start, addr, slotOf, index, disk') && Undone(disk, start, addr + 1, addr)
    ensures Recovered(disk, start, addr + 1, slotOf, index, disk'[addr := disk'[addr].(valid := false)])
  {
    MendStep(disk, disk', disk'[addr].(valid := false), start, addr);
    HeadStep(disk, start, addr, slotOf, index, index);
  }

  lemma KeepStep(disk: Log<Payload>, start: nat, addr: nat, slotOf: Key -> nat, index: Index, disk': Log<Payload>)
    requires Recovered(disk, start, addr, slotOf, index, disk') && Kept(disk, start, addr + 1, addr)
    ensures Recovered(disk, start, addr + 1, slotOf, index[slotOf(disk[addr].key) := addr],
                      disk'[addr := disk'[addr].(sealed := false)])
  {
    MendStep(disk, disk', disk'[addr].(sealed := false), start, addr);
    HeadStep(disk, start, addr, slotOf, index, index[slotOf(disk[addr].key) := addr]);
  }

  /** A valid record at the scan: undone, or kept and put at the head of its slot. */
  method Visit(ghost disk: Log<Payload>, start: nat, addr: nat, slotOf: Key -> nat, index: Index, disk': Log<Payload>)
    returns (index': Index, disk'': Log<Payload>)
    requires Recovered(disk, start, addr, slotOf, index, disk') && 0 < addr && Valid(disk, addr)
    ensures Recovered(disk, start, addr + 1, slotOf, index', disk'')
  {
    Ahead(disk, start, addr, slotOf, index, disk');
    index' := index;
    if disk'[addr].newVersion && start <= addr {
      UndoStep(disk, start, addr, slotOf, index, disk');
      disk'' := disk'[addr := disk'[addr].(valid := false)];
      return;
    }
    KeepStep(disk, start, addr, slotOf, index, disk');
    disk'' := disk'[addr := disk'[addr].(sealed := false)];
    var slot := slotOf(disk'[addr].key);
    if HeadOf(index, slot) < addr {
      index' := index[slot := addr];
    }
  }

  method Recover(disk: Log<Payload>, begin: nat, start: nat, final: nat, slotOf: Key -> nat)
    returns (index: Index, disk': Log<Payload>)
    requires 0 < begin <= final && forall a: nat :: a in disk ==> begin <= a
    ensures Recovered(disk, start, final, slotOf, index, disk')
  {
    index, disk' := map[], disk;
    var addr := begin;
    while addr < final
      invariant begin <= addr <= final
      invariant Recovered(disk, start, addr, slotOf, index, disk')
    {
      if addr in disk {
        Ahead(disk, start, addr, slotOf, index, disk');
      }
      if addr !in disk' || !disk'[addr].valid {
        SkipStep(disk, start, addr, slotOf, index, disk');
      } else {
        index, disk' := Visit(disk, start, addr, slotOf, index, disk');
      }
      addr := addr + 1;
    }
  }

  // ---------------------------------------------------------------------
  // What is recovered
  // ---------------------------------------------------------------------

  /** The record that the recovered store finds for a key is the last one of version v, or there is none. */
  ghost predicate Exact(c: Core, slotOf: Key -> nat, index: Index, disk': Log<Payload>, key: Key) {
    Lookup(disk', HeadOf(index, slotOf(key)), key) == if key in c.vtop then Some(c.vtop[key]) else None
  }

  /** An undone record of the key lies under a kept record of the same slot. */
  ghost predicate BuriedAt(disk: Log<Payload>, start: nat, final: nat, slotOf: Key -> nat, key: Key, x: nat, y: nat) {
    && Undone(disk, start, final, x) && disk[x].key == key
    && Kept(disk, start, final, y) && slotOf(disk[y].key) == slotOf(key) && x < y
  }

  ghost predicate Buried(disk: Log<Payload>, start: nat, final: nat, slotOf: Key -> nat, key: Key) {
    exists x: nat, y: nat :: BuriedAt(disk, start, final, slotOf, key, x, y)
  }

  ghost predicate Crashed(c: Core, slotOf: Key -> nat, index: Index, disk': Log<Payload>) {
    && Inv(c, slotOf) && c.saved
    && Recovered(c.device, c.start.value, c.final.value, slotOf, index, disk')
  }

  /** On the device, the records to keep are those of version v and the records to undo those of v+1. */
  lemma KeptIsOld(c: Core, slotOf: Key -> nat, a: nat)
    requires Inv(c, slotOf) && c.saved
    ensures Kept(c.device, c.start.value, c.final.value, a) <==> IsOld(c, a)
    ensures Undone(c.device, c.start.value, c.final.value, a) <==> IsNew(c, a) && a < c.final.value
    ensures Valid(c.log, a) && a < c.final.value ==> a in c.device && c.device[a].key == c.log[a].key
  {
  }

  /** The recovered chain finds what the chain in memory would find from the same head. */
  lemma FindsOnDisk(c: Core, slotOf: Key -> nat, index: Index, disk': Log<Payload>, key: Key)
    requires Crashed(c, slotOf, index, disk')
    ensures var h := HeadOf(index, slotOf(key));
            && Lookup(disk', h, key) == Lookup(c.log, h, key)
            && (Lookup(c.log, h, key).Some? ==> Valid(c.log, Lookup(c.log, h, key).value))
            && (forall b: nat :: Valid(c.log, b) && b <= h && c.log[b].key == key ==>
                  Lookup(c.log, h, key).Some? && b <= Lookup(c.log, h, key).value)
  {
    var h := HeadOf(index, slotOf(key));
    assert Heads(c.device, c.start.value, c.final.value, slotOf, slotOf(key), h);
    KeptIsOld(c, slotOf, h);
    if h != 0 {
      forall a: nat | a <= h
        ensures a in disk' <==> a in c.log
        ensures a in c.log ==> disk'[a].key == c.log[a].key && disk'[a].prev == c.log[a].prev
      {
        assert a in c.device ==> Mended(c.device, disk', c.start.value, c.final.value, a);
      }
      LookupFrame(disk', c.log, h, key);
    }
    ChainFinds(c.log, slotOf, h, key);
  }

  /** What the recovered chain finds is of version v, unless it is buried. */
  lemma FoundIsOld(c: Core, slotOf: Key -> nat, index: Index, disk': Log<Payload>, key: Key, found: nat)
    requires Crashed(c, slotOf, index, disk')
    requires !Buried(c.device, c.start.value, c.final.value, slotOf, key)
    requires Valid(c.log, found) && c.log[found].key == key && found <= HeadOf(index, slotOf(key))
    ensures IsOld(c, found)
  {
    hide LeadsOn, Lookup, Separated, NewIsLate;
    var h := HeadOf(index, slotOf(key));
    assert Heads(c.device, c.start.value, c.final.value, slotOf, slotOf(key), h);
    KeptIsOld(c, slotOf, found);
    KeptIsOld(c, slotOf, h);
    assert !BuriedAt(c.device, c.start.value, c.final.value, slotOf, key, found, h);
  }

  /** The last record of version v is at or below the recovered head of its slot. */
  lemma TopBelowHead(c: Core, slotOf: Key -> nat, index: Index, disk': Log<Payload>, key: Key)
    requires Crashed(c, slotOf, index, disk') && key in c.vtop
    ensures IsOld(c, c.vtop[key]) && c.log[c.vtop[key]].key == key && c.vtop[key] <= HeadOf(index, slotOf(key))
  {
    assert TopHeld(c, key);
    assert Heads(c.device, c.start.value, c.final.value, slotOf, slotOf(key), HeadOf(index, slotOf(key)));
    KeptIsOld(c, slotOf, c.vtop[key]);
  }

  lemma ExactUnlessBuried(c: Core, slotOf: Key -> nat, index: Index, disk': Log<Payload>, key: Key)
    requires Crashed(c, slotOf, index, disk')
    requires !Buried(c.device, c.start.value, c.final.value, slotOf, key)
    ensures Exact(c, slotOf, index, disk', key)
  {
    hide ChainsLinked, Separated, DeviceHeld, NewIsLate, Lookup, Buried;
    var found := Lookup(c.log, HeadOf(index, slotOf(key)), key);
    FindsOnDisk(c, slotOf, index, disk', key);
    if key in c.vtop {
      TopBelowHead(c, slotOf, index, disk', key);
    }
    if found.Some? {
      FoundIsOld(c, slotOf, index, disk', key, found.value);
    }
  }

  lemma BuriedIsFound(c: Core, slotOf: Key -> nat, index: Index, disk': Log<Payload>, key: Key, x: nat, y: nat)
    requires Crashed(c, slotOf, index, disk')
    requires BuriedAt(c.device, c.start.value, c.final.value, slotOf, key, x, y)
    ensures !Exact(c, slotOf, index, disk', key)
  {
    FindsOnDisk(c, slotOf, index, disk', key);
    assert Heads(c.device, c.start.value, c.final.value, slotOf, slotOf(key), HeadOf(index, slotOf(key)));
    KeptIsOld(c, slotOf, x);
    assert TopHeld(c, key);
  }

  /** Recovery is exact for a key if and only if none of its v+1 records is buried. */
  lemma RecoveryExact(c: Core, slotOf: Key -> nat, index: Index, disk': Log<Payload>, key: Key)
    requires Crashed(c, slotOf, index, disk')
    ensures Exact(c, slotOf, index, disk', key)
            <==> !Buried(c.device, c.start.value, c.final.value, slotOf, key)
  {
    if Buried(c.device, c.start.value, c.final.value, slotOf, key) {
      var x: nat, y: nat :| BuriedAt(c.device, c.start.value, c.final.value, slotOf, key, x, y);
      BuriedIsFound(c, slotOf, index, disk', key, x, y);
    } else {
      ExactUnlessBuried(c, slotOf, index, disk', key);
    }
  }

  function Cell(m: map<Key, Payload>, key: Key): Option<Payload> {
    if key in m then Some(m[key]) else None
  }

  lemma ExactCell(c: Core, slotOf: Key -> nat, index: Index, disk': Log<Payload>, key: Key)
    requires Crashed(c, slotOf, index, disk') && Exact(c, slotOf, index, disk', key)
    ensures CellAt(disk', HeadOf(index, slotOf(key)), key) == Cell(c.vmap, key)
  {
    assert TopHeld(c, key);
    if key in c.vtop {
      var a := c.vtop[key];
      KeptIsOld(c, slotOf, a);
      assert Mended(c.device, disk', c.start.value, c.final.value, a);
    }
  }

  function Says(rec: Record<Payload>): Option<Payload> {
    if rec.tombstone then None else Some(rec.payload)
  }

  /** The last of the key's undone records that lie under a kept one. */
  ghost predicate TopBuried(disk: Log<Payload>, start: nat, final: nat, slotOf: Key -> nat, key: Key, x: nat) {
    && (exists y: nat :: BuriedAt(disk, start, final, slotOf, key, x, y))
    && forall b: nat, y: nat :: BuriedAt(disk, start, final, slotOf, key, b, y) ==> b <= x
  }

  /** If there is a buried record, the recovered chain finds the last of them. */
  lemma FindsTopBuried(c: Core, slotOf: Key -> nat, index: Index, disk': Log<Payload>, key: Key, x: nat, y: nat)
    requires Crashed(c, slotOf, index, disk')
    requires BuriedAt(c.device, c.start.value, c.final.value, slotOf, key, x, y)
    ensures var found := Lookup(disk', HeadOf(index, slotOf(key)), key);
            && found.Some? && TopBuried(c.device, c.start.value, c.final.value, slotOf, key, found.value)
            && found.value in c.device && Says(disk'[found.value]) == Says(c.device[found.value])
  {
    var disk, start, final := c.device, c.start.value, c.final.value;
    var h := HeadOf(index, slotOf(key));
    FindsOnDisk(c, slotOf, index, disk', key);
    assert Heads(disk, start, final, slotOf, slotOf(key), h);
    forall b: nat, z: nat | BuriedAt(disk, start, final, slotOf, key, b, z)
      ensures b < h && IsNew(c, b) && Valid(c.log, b) && c.log[b].key == key
    {
      KeptIsOld(c, slotOf, b);
    }
    assert BuriedAt(disk, start, final, slotOf, key, x, y);
    var found := Lookup(c.log, h, key).value;
    KeptIsOld(c, slotOf, h);
    KeptIsOld(c, slotOf, found);
    assert IsNew(c, found);
    assert BuriedAt(disk, start, final, slotOf, key, found, h);
    assert Mended(disk, disk', start, final, found);
  }

  /**
    The recovered store answers for a key as version v does if and only if no
    v+1 record of the key is buried, or the last one that is says the same.
   */
  lemma RecoveryAnswersIff(c: Core, slotOf: Key -> nat, index: Index, disk': Log<Payload>, key: Key)
    requires Crashed(c, slotOf, index, disk')
    ensures CellAt(disk', HeadOf(index, slotOf(key)), key) == Cell(c.vmap, key)
            <==> forall x: nat :: TopBuried(c.device, c.start.value, c.final.value, slotOf, key, x) ==>
                   Says(c.device[x]) == Cell(c.vmap, key)
  {
    var disk, start, final := c.device, c.start.value, c.final.value;
    hide Inv, Recovered, Lookup, BuriedAt, TopBuried;
    if Buried(disk, start, final, slotOf, key) {
      var x: nat, y: nat :| BuriedAt(disk, start, final, slotOf, key, x, y);
      FindsTopBuried(c, slotOf, index, disk', key, x, y);
      var found := Lookup(disk', HeadOf(index, slotOf(key)), key).value;
      forall b: nat | TopBuried(disk, start, final, slotOf, key, b)
        ensures b == found
      {
        OneTopBuried(disk, start, final, slotOf, key, b, found);
      }
    } else {
      ExactUnlessBuried(c, slotOf, index, disk', key);
      ExactCell(c, slotOf, index, disk', key);
      forall b: nat
        ensures !TopBuried(disk, start, final, slotOf, key, b)
      {
        NoTopBuried(disk, start, final, slotOf, key, b);
      }
    }
  }

  lemma OneTopBuried(disk: Log<Payload>, start: nat, final: nat, slotOf: Key -> nat, key: Key, a: nat, b: nat)
    requires TopBuried(disk, start, final, slotOf, key, a) && TopBuried(disk, start, final, slotOf, key, b)
    ensures a == b
  {
  }

  lemma NoTopBuried(disk: Log<Payload>, start: nat, final: nat, slotOf: Key -> nat, key: Key, a: nat)
    requires !Buried(disk, start, final, slotOf, key)
    ensures !TopBuried(disk, start, final, slotOf, key, a)
  {
  }

  /** Distinct keys of the log have distinct (bucket, tag) pairs. */
  ghost predicate NoCollision(log: Log<Payload>, slotOf: Key -> nat) {
    forall a: nat, b: nat :: a in log && b in log && slotOf(log[a].key) == slotOf(log[b].key) ==>
      log[a].key == log[b].key
  }

  lemma NoneBuried(c: Core, slotOf: Key -> nat, key: Key)
    requires Inv(c, slotOf) && c.saved && NoCollision(c.log, slotOf)
    ensures !Buried(c.device, c.start.value, c.final.value, slotOf, key)
  {
    forall x: nat, y: nat
      ensures !BuriedAt(c.device, c.start.value, c.final.value, slotOf, key, x, y)
    {
      KeptIsOld(c, slotOf, x);
      KeptIsOld(c, slotOf, y);
    }
  }

  /**
    After any run of a checkpoint and a crash at any time after its metadata was
    written, the recovered store holds the map that version v built, for all keys.
   */
  lemma RecoveryRebuildsVersion(states: seq<CheckpointRun.State>, slotOf: Key -> nat,
                                moves: seq<CheckpointRun.Move>, i: nat,
                                index: Index, disk': Log<Payload>, key: Key)
    requires CheckpointRun.IsRun(states, slotOf, moves) && i < |states|
    requires states[i].core.saved && states[i].core.start.Some? && states[i].core.final.Some?
    requires NoCollision(states[i].core.log, slotOf)
    requires Recovered(states[i].core.device, states[i].core.start.value, states[i].core.final.value,
                       slotOf, index, disk')
    ensures CellAt(disk', HeadOf(index, slotOf(key)), key) == Cell(states[i].core.vmap, key)
  {
    CheckpointRun.RunInv(states, slotOf, moves, i);
    var c := states[i].core;
    NoneBuried(c, slotOf, key);
    RecoveryExact(c, slotOf, index, disk', key);
    ExactCell(c, slotOf, index, disk', key);
  }

  /** A crash during recovery leaves some records mended and some not; recovering again gives the same heads. */
  lemma RecoveryRestarts(disk: Log<Payload>, part: Log<Payload>, disk': Log<Payload>, disk'': Log<Payload>,
                         start: nat, final: nat, slotOf: Key -> nat, index: Index, index': Index, slot: nat)
    requires Recovered(disk, start, final, slotOf, index, disk')
    requires part.Keys == disk.Keys && forall a: nat :: a in disk ==> part[a] == disk[a] || part[a] == disk'[a]
    requires Recovered(part, start, final, slotOf, index', disk'')
    ensures HeadOf(index', slot) == HeadOf(index, slot)
    ensures disk'' == disk'
  {
    forall a: nat
      ensures Kept(part, start, final, a) <==> Kept(disk, start, final, a)
      ensures a in disk ==> disk''[a] == disk'[a] && part[a].key == disk[a].key
    {
      if a in disk {
        assert Mended(disk, disk', start, final, a);
        assert Mended(part, disk'', start, final, a);
      }
    }
    assert Heads(disk, start, final, slotOf, slot, HeadOf(index, slot));
    assert Heads(part, start, final, slotOf, slot, HeadOf(index', slot));
  }

  // ---------------------------------------------------------------------
  // Two keys on one slot
  // ---------------------------------------------------------------------

  function OneSlot(key: Key): nat {
    0
  }

  /**
    A session in v+1 writes [1]; a straggler of version v then writes [2], which
    shares its slot; then the checkpoint completes.
   */
  function Shared(): seq<Step> {
    [ CaptureStart, Advance, Settle, Advance,
      Append(IN_PROGRESS, 0, 64, 128, [1], [7], false),
      Append(PREPARE, 0, 128, 192, [2], [8], false),
      Settle, CaptureFinal, Advance, Settle, ShiftReadOnly(192), Flush(64), Flush(128), Save ]
  }

  const FIRST: Record<Payload> := Record(0, [1], [7], false, true, true, false, false)
  const SECOND: Record<Payload> := Record(64, [2], [8], false, true, false, false, false)

  function SharedStates(): seq<Core> {
    var c1 := Empty().(start := Some(64));
    var c2 := c1.(phase := PREPARE, quiet := false);
    var c3 := c2.(quiet := true);
    var c4 := c3.(phase := IN_PROGRESS, quiet := false);
    var c5 := c4.(log := map[64 := FIRST], tail := 128, index := map[0 := 64]);
    var c6 := c5.(log := map[64 := FIRST, 128 := SECOND], tail := 192, index := map[0 := 128],
                  vmap := map[[2] := [8]], vtop := map[[2] := 128]);
    var c7 := c6.(quiet := true);
    var c8 := c7.(final := Some(192));
    var c9 := c8.(phase := WAIT_FLUSH, quiet := false);
    var c10 := c9.(quiet := true);
    var c11 := c10.(ro := 192);
    var c12 := c11.(device := map[64 := FIRST]);
    var c13 := c12.(device := map[64 := FIRST, 128 := SECOND]);
    [Empty(), c1, c2, c3, c4, c5, c6, c7, c8, c9, c10, c11, c12, c13, c13.(saved := true)]
  }

  predicate SharedFollows(i: nat)
    requires i < 14
  {
    && Enabled(SharedStates()[i], OneSlot, Shared()[i])
    && SharedStates()[i + 1] == Do(SharedStates()[i], OneSlot, Shared()[i])
  }

  lemma SharedShift()
    ensures SharedFollows(0) && SharedFollows(1) && SharedFollows(2) && SharedFollows(3)
  {
  }

  lemma SharedAppends()
    ensures SharedFollows(4) && SharedFollows(5)
  {
    assert [1] != [2] by {
      assert [1][0] == 1 && [2][0] == 2;
    }
  }

  lemma SharedFreeze()
    ensures SharedFollows(6) && SharedFollows(7) && SharedFollows(8) && SharedFollows(9) && SharedFollows(10)
  {
  }

  lemma SharedSave()
    ensures SharedFollows(11) && SharedFollows(12) && SharedFollows(13)
  {
  }

  lemma SharedRun(i: nat)
    requires i < 14
    ensures SharedFollows(i)
  {
    if i < 4 {
      SharedShift();
    } else if i < 6 {
      SharedAppends();
    } else if i < 11 {
      SharedFreeze();
    } else {
      SharedSave();
    }
  }

  /**
    With two keys on one slot, recovery can bring back a value of version v+1:
    the last state is reached from an empty store by steps that are all enabled,
    version v never held key [1], and the recovered store answers [7] for it.
   */
  lemma CollisionBreaksRecovery(index: Index, disk': Log<Payload>)
    requires Recovered(SharedStates()[14].device, 64, 192, OneSlot, index, disk')
    ensures SharedStates()[0] == Empty() && SharedStates()[14].saved
    ensures forall i: nat :: i < 14 ==> SharedFollows(i)
    ensures SharedStates()[14].start == Some(64) && SharedStates()[14].final == Some(192)
    ensures [1] !in SharedStates()[14].vmap
    ensures CellAt(disk', HeadOf(index, OneSlot([1])), [1]) == Some([7])
  {
    forall i: nat | i < 14
      ensures SharedFollows(i)
    {
      SharedRun(i);
    }
    var disk: Log<Payload> := map[64 := FIRST, 128 := SECOND];
    assert [1][0] != [2][0];
    assert Heads(disk, 64, 192, OneSlot, 0, HeadOf(index, 0));
    assert Kept(disk, 64, 192, 128) && Undone(disk, 64, 192, 64);
    assert Mended(disk, disk', 64, 192, 128) && Mended(disk, disk', 64, 192, 64);
    assert Lookup(disk', 64, [1]) == Some(64);
    assert Lookup(disk', 128, [1]) == Lookup(disk', 64, [1]);
  }
}
