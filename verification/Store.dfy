/**
  The store (crates/tsavorite/src/store.rs): Read, Upsert, RMW and Delete over
  the index and the hybrid log. One latched operation body is one step. Other
  threads move boundaries, turn pages, run deferred actions and change the
  checkpoint phase between attempts, as an arbitrary list of environment steps.
 */
module Stores {
  import opened Bytes
  import opened HybridLogs
  import opened Chains
  import opened Callbacks
  import opened Environment
  import opened RecordRules
  import RecordLayout

  /** How an attempt ends; BackOff is the source's RetryLater, Panic a failed assertion. */
  datatype Op =
    | Done(status: Status)
    | BackOff
    | Panic
    | CprShift
    | RecordOnDisk(addr: nat, latest: nat)

  datatype Trace = Hit(addr: nat) | Stopped(addr: nat)

  /** A record image fetched from disk, and the chain head seen before the read. */
  datatype DiskSource<+P> = DiskSource(image: Option<Record<P>>, latest: nat)

  /** What an allocation makes of an attempt. */
  function Outcome(r: AllocResult, status: Status): Op {
    match r
    case Allocated(_) => Done(status)
    case RetryLater => BackOff
    case TooLarge => Panic
  }

  class Store<I, P(!new), O> {
    const f: Functions<I, P, O>
    const slotOf: Key -> nat
    const log: HybridLog<P>
    var index: map<nat, nat>

    var phase: Phase
    var checkpointStart: nat
    // The phase this session read when it last entered the epoch.
    var state: Phase

    /** The bytes of the record that says this of a key; a tombstone has no value (store.rs:1109-1120). */
    function SizeFor(key: Key, cell: Option<P>): (size: nat)
      ensures 0 < size
    {
      if cell.Some? then RecordLayout.TotalSize(|key|, f.cap(cell.value), f.hasExpiration(cell.value))
      else RecordLayout.TotalSize(|key|, 0, false)
    }

    predicate Fits(key: Key, cell: Option<P>) {
      log.FitsPage(SizeFor(key, cell))
    }

    /** Some record that the operation may have to append is larger than a page. */
    ghost predicate RmwOverflows(key: Key, input: I, cell: Option<P>) {
      exists made: Option<P> :: RmwMakes(f, input, cell, made) && !Fits(key, made)
    }

    ghost predicate Valid()
      reads this, log
    {
      log.Valid() && ChainsValid()
    }

    ghost predicate ChainsValid()
      reads this`index, log`records
    {
      ChainsOk(log.records, index, slotOf)
    }

    ghost predicate Protected()
      reads log
    {
      0 < |log.slots| && log.slots[0] != 0
    }

    /** What a session saw at or above Head when it entered is still in memory. */
    lemma EntryHeadInMemory()
      requires Valid() && Protected()
      ensures log.closedUntil <= log.entryHead <= log.head <= log.readOnly
    {
    }

    ghost function Head(key: Key): nat
      reads this`index
    {
      HeadOf(index, slotOf(key))
    }

    /** What the store holds for a key. */
    ghost function Cell(key: Key): Option<P>
      reads this`index, log`records
    {
      CellAt(log.records, Head(key), key)
    }

    constructor (f: Functions<I, P, O>, slotOf: Key -> nat,
                 pageSize: nat, bufferSize: nat, mutablePages: nat, threads: nat)
      requires FIRST_VALID_ADDRESS < pageSize && 2 <= bufferSize && 1 <= mutablePages < bufferSize
      requires 1 <= threads
      ensures Idle() && Quiet() && fresh(log) && this.f == f && log.pageSize == pageSize
      ensures forall key: Key :: Cell(key) == None
    {
      this.f, this.slotOf := f, slotOf;
      log := new HybridLog<P>(pageSize, bufferSize, mutablePages, threads);
      index := map[];
      phase, state, checkpointStart := Rest, Rest, 0;
    }

    // -------------------------------------------------------------------
    // Chains
    // -------------------------------------------------------------------

    /** The newest record of a key, if it is in memory, may be read there and can be trusted. */
    lemma NewestInMemory(key: Key, addr: nat)
      requires Valid() && Protected()
      requires Lookup(log.records, Head(key), key) == Some(addr) && log.head <= addr
      ensures addr in log.pages && log.pages[addr] == log.records[addr] && Usable(log.records[addr])
      ensures log.records[addr].key == key && log.entryHead <= addr
    {
    }

    /** Walk the chain in memory, not going below `min` (store.rs:519-529). */
    method TraceBack(start: nat, key: Key, min: nat) returns (t: Trace)
      requires Valid() && OnChain(log.records, start) && log.closedUntil <= min
      ensures t.Hit? ==> min <= t.addr && Lookup(log.records, start, key) == Some(t.addr)
      ensures t.Stopped? ==>
                && (t.addr < min || t.addr < FIRST_VALID_ADDRESS)
                && OnChain(log.records, t.addr)
                && Lookup(log.records, start, key) == Lookup(log.records, t.addr, key)
    {
      var addr: nat := start;
      while min <= addr && FIRST_VALID_ADDRESS <= addr
        invariant OnChain(log.records, addr)
        invariant Lookup(log.records, start, key) == Lookup(log.records, addr, key)
        decreases addr
      {
        var rec := log.pages[addr];
        if rec.key == key {
          return Hit(addr);
        }
        addr := rec.prev;
      }
      return Stopped(addr);
    }

    /** Read the chain from the device (store.rs:581-596); Sealed bits mean nothing there. */
    method FindOnDisk(start: nat, key: Key) returns (image: Option<Record<P>>)
      requires Valid() && OnChain(log.records, start) && start < log.flushedUntil
      ensures var found := Lookup(log.records, start, key);
              image == if found.Some? then Some(log.records[found.value].(sealed := false)) else None
    {
      var addr: nat := start;
      while log.beginAddress <= addr && FIRST_VALID_ADDRESS <= addr
        invariant OnChain(log.records, addr) && addr < log.flushedUntil
        invariant Lookup(log.records, start, key) == Lookup(log.records, addr, key)
        decreases addr
      {
        var rec := log.device[addr].(sealed := false);
        if rec.key == key {
          return Some(rec);
        }
        addr := rec.prev;
      }
      return None;
    }

    // -------------------------------------------------------------------
    // Checkpoint versions (store.rs:332-337, 643-661)
    // -------------------------------------------------------------------

    function RecordInNewVersion(addr: nat, rec: Record<P>): bool
      reads this
    {
      rec.newVersion && checkpointStart <= addr
    }

    function CprGate(addr: nat, rec: Record<P>): Option<Op>
      reads this
    {
      if state == Prepare && RecordInNewVersion(addr, rec) then Some(CprShift)
      else if !rec.valid || rec.sealed then Some(BackOff)
      else None
    }

    function CprBlocksInPlace(addr: nat, rec: Record<P>): bool
      reads this
    {
      InNewVersion(state) && !RecordInNewVersion(addr, rec)
    }

    /** The rules that an attempt begun now has to keep. */
    ghost function AttemptRules(): Rules
      reads this, log`readOnly
    {
      Rules(InNewVersion(state), checkpointStart, log.readOnly)
    }

    /** A session in PREPARE that goes through has met no v+1 record of the key at or above `floor`. */
    ghost predicate Gated(key: Key, floor: nat)
      reads this, log`records
    {
      var found := Lookup(log.records, Head(key), key);
      state == Prepare && found.Some? && floor <= found.value ==>
        !RecordInNewVersion(found.value, log.records[found.value])
    }

    // -------------------------------------------------------------------
    // Index entries, allocation and publication
    // -------------------------------------------------------------------

    method FindOrCreateTag(key: Key)
      requires Valid()
      modifies this`index
      ensures Valid() && slotOf(key) in index
      ensures forall k: Key :: Cell(k) == old(Cell(k))
      ensures forall k: Key :: Lookup(log.records, Head(k), k) == old(Lookup(log.records, Head(k), k))
      ensures slotOf(key) in old(index) ==> index == old(index)
    {
      if slotOf(key) !in index {
        index := index[slotOf(key) := TEMP_INVALID_ADDRESS];
      }
    }

    /** A record of this session that says `cell` of a key, not in the chain yet. */
    function Draft(key: Key, cell: Option<P>): Record<P>
      requires slotOf(key) in index
      reads this
    {
      Record(index[slotOf(key)], key, if cell.Some? then cell.value else f.tombstone, cell.None?,
             false, InNewVersion(state), false, true)
    }

    /** Initialise a fresh record, sealed and invalid (store.rs:553-554, record.rs:341-371). */
    method Fill(addr: nat, key: Key, cell: Option<P>)
      requires Valid() && slotOf(key) in index
      requires FIRST_VALID_ADDRESS <= addr && log.readOnly <= addr < log.TailAddress()
      requires forall a :: a in log.records ==> a < addr
      modifies log`pages, log`records
      ensures Valid() && log.records == old(log.records)[addr := Draft(key, cell)]
      ensures forall k: Key :: Cell(k) == old(Cell(k))
    {
      var draft := Draft(key, cell);
      FillOk(log.records, index, slotOf, addr, draft);
      log.Put(addr, draft);
    }

    /**
      Publish a filled record by CAS and validate it (store.rs:562-579). The
      latch keeps the index entry at the record's `prev`, so the CAS takes.
     */
    method CasIntoChain(addr: nat, key: Key)
      requires Valid() && slotOf(key) in index
      requires FIRST_VALID_ADDRESS <= addr && log.readOnly <= addr && addr in log.records
      requires log.records[addr].key == key && log.records[addr].prev == index[slotOf(key)]
      modifies this`index, log`pages, log`records
      ensures Valid()
      ensures forall k: Key :: k != key ==> Cell(k) == old(Cell(k))
      ensures Lookup(log.records, Head(key), key) == Some(addr)
      ensures addr in log.records
      ensures log.records == old(log.records)[addr := old(log.records[addr]).(valid := true, sealed := false)]
    {
      var published := log.pages[addr].(valid := true, sealed := false);
      PublishOk(log.records, index, slotOf, addr, published);
      index := index[slotOf(key) := addr];
      log.Put(addr, published);
    }

    /** The fresh address is at or above the tail every chain head lies below (store.rs:542-552). */
    method Prepend(addr: nat, key: Key, cell: Option<P>)
      requires Valid() && slotOf(key) in index
      requires FIRST_VALID_ADDRESS <= addr && log.readOnly <= addr < log.TailAddress()
      requires forall a :: a in log.records ==> a < addr
      modifies this`index, log`pages, log`records
      ensures Valid()
      ensures forall k: Key :: k != key ==> Cell(k) == old(Cell(k))
      ensures Cell(key) == cell
      ensures Lookup(log.records, Head(key), key) == Some(addr)
      ensures Extends(old(log.records), log.records, InNewVersion(state))
    {
      hide Lookup, Extends, HybridLog<P>.Valid, NewestUsable;
      assert index[slotOf(key)] < addr;
      Fill(addr, key, cell);
      ghost var published := log.records[addr].(valid := true, sealed := false);
      CasIntoChain(addr, key);
      assert log.records == old(log.records)[addr := published];
      AppendExtends(old(log.records), addr, published, InNewVersion(state));
    }

    /** Append the record that says `cell` of a key; the assertion on its size fails exactly if it does not fit. */
    method AppendRecord(key: Key, cell: Option<P>) returns (r: AllocResult)
      requires Valid() && Protected() && slotOf(key) in index
      modifies this`index, log
      ensures Valid() && log.slots == old(log.slots) && log.entryHead == old(log.entryHead)
      ensures old(log.head) <= log.head
      ensures r.TooLarge? <==> !Fits(key, cell)
      ensures r.RetryLater? ==> log.Pending() < old(log.Rank())
      ensures forall k: Key :: k != key ==> Cell(k) == old(Cell(k))
      ensures !r.Allocated? ==> log.records == old(log.records) && index == old(index)
      ensures r.Allocated? ==>
                && Cell(key) == cell
                && Lookup(log.records, Head(key), key) == Some(r.addr)
                && r.addr !in old(log.records)
      ensures Extends(old(log.records), log.records, InNewVersion(state))
    {
      hide Lookup, ChainsOk, HybridLog<P>.DeviceHolds, HybridLog<P>.NothingForgotten;
      r := log.TryAllocate(SizeFor(key, cell));
      if r.Allocated? {
        Prepend(r.addr, key, cell);
      }
    }

    /** Write the newest record of a key in the mutable region. */
    method Overwrite(key: Key, addr: nat, payload: P, tombstone: bool, modified: bool)
      requires Valid() && Lookup(log.records, Head(key), key) == Some(addr)
      requires MayOverwrite(log.records[addr], addr, AttemptRules())
      modifies log`pages, log`records
      ensures Valid()
      ensures forall k: Key :: k != key ==> Cell(k) == old(Cell(k))
      ensures Cell(key) == if tombstone then None else Some(payload)
      ensures Lawful(old(log.records), log.records, AttemptRules()) && log.records.Keys == old(log.records.Keys)
    {
      hide Lookup, Lawful;
      var rec := log.pages[addr].(payload := payload, tombstone := tombstone,
                                  modified := log.pages[addr].modified || modified);
      UpdateOk(log.records, index, slotOf, addr, rec);
      OverwriteIsLawful(log.records, addr, rec, AttemptRules());
      log.Put(addr, rec);
    }

    method SetTombstone(key: Key, addr: nat, modified: bool)
      requires Valid() && Lookup(log.records, Head(key), key) == Some(addr)
      requires MayOverwrite(log.records[addr], addr, AttemptRules())
      modifies log`pages, log`records
      ensures Valid()
      ensures forall k: Key :: k != key ==> Cell(k) == old(Cell(k))
      ensures Cell(key) == None
      ensures Lawful(old(log.records), log.records, AttemptRules()) && log.records.Keys == old(log.records.Keys)
    {
      hide Lookup, Lawful;
      Overwrite(key, addr, log.pages[addr].payload, true, modified);
    }

    /** Seal the source of a copy, once the copy is the newest record. */
    method SealOld(addr: nat)
      requires Valid() && addr in log.records && log.closedUntil <= addr
      requires Lookup(log.records, Head(log.records[addr].key), log.records[addr].key) != Some(addr)
      modifies log`pages, log`records
      ensures Valid()
      ensures forall k: Key :: Cell(k) == old(Cell(k))
      ensures log.records == old(log.records)[addr := Sealed(old(log.records[addr]))]
    {
      SealOk(log.records, index, slotOf, addr);
      log.TrySeal(addr);
    }

    /** Append a record, and seal the one it replaces if that is given. */
    method Replace(key: Key, cell: Option<P>, sealOld: Option<nat>) returns (r: AllocResult)
      requires Valid() && Protected() && slotOf(key) in index
      requires sealOld.Some? ==>
                 && sealOld.value in log.records && log.records[sealOld.value].key == key
                 && log.entryHead <= sealOld.value
      modifies this`index, log
      ensures Valid() && log.slots == old(log.slots) && old(log.head) <= log.head
      ensures r.TooLarge? <==> !Fits(key, cell)
      ensures r.RetryLater? ==> log.Pending() < old(log.Rank())
      ensures forall k: Key :: k != key ==> Cell(k) == old(Cell(k))
      ensures !r.Allocated? ==> log.records == old(log.records) && index == old(index)
      ensures r.Allocated? ==> Cell(key) == cell
      ensures Extends(old(log.records), log.records, InNewVersion(state))
    {
      hide Lookup, HybridLog<P>.Valid;
      r := AppendRecord(key, cell);
      if r.Allocated? && sealOld.Some? {
        EntryHeadInMemory();
        SealExtends(old(log.records), log.records, sealOld.value, InNewVersion(state));
        SealOld(sealOld.value);
      }
    }

    // -------------------------------------------------------------------
    // One attempt of each operation, inside the epoch. An attempt that finds
    // the bucket latch taken backs off (store.rs:475-501).
    // -------------------------------------------------------------------

    /** Nothing of version v+1 lies where a session in this phase would stumble over it. */
    ghost predicate OpenFor(records: Log<P>, p: Phase)
      reads this`checkpointStart
    {
      p == Prepare ==> forall a :: a in records && records[a].newVersion ==> a < checkpointStart
    }

    ghost predicate GateOpen(p: Phase)
      reads this`checkpointStart, log`records
    {
      OpenFor(log.records, p)
    }

    /** An attempt in PREPARE adds nothing of version v+1, and takes nothing away. */
    lemma GateStays(before: Log<P>, r: Rules)
      requires Lawful(before, log.records, r) && r.inNewVersion == InNewVersion(state)
      ensures GateOpen(state) <==> OpenFor(before, state)
    {
      forall a | a in before
        ensures a in log.records && log.records[a].newVersion == before[a].newVersion
      {
        assert KeptAt(before, log.records, a, r);
      }
    }

    /** The chain of a key continues on disk at `addr`. */
    ghost predicate OnDiskAt(key: Key, addr: nat)
      reads this`index, log`records, log`head
    {
      && OnChain(log.records, addr) && addr < log.head
      && Lookup(log.records, Head(key), key) == Lookup(log.records, addr, key)
    }

    method InternalRead(key: Key, input: I, latched: bool) returns (op: Op, out: Option<O>)
      requires Valid()
      ensures op.Done? ==> !GaveUp(op.status) && ReadStep(f, input, Cell(key), op.status, out) && Gated(key, log.head)
      ensures op.RecordOnDisk? ==> OnDiskAt(key, op.addr)
      ensures !op.Panic? && (op.BackOff? ==> !latched) && (op.CprShift? ==> !GateOpen(state))
      ensures !latched && slotOf(key) in index ==> op.BackOff?
    {
      out := None;
      if slotOf(key) !in index {
        return Done(NotFound), out;
      }
      if !latched {
        return BackOff, out;
      }
      var entry := index[slotOf(key)];
      var t := TraceBack(entry, key, log.head);
      match t {
        case Hit(addr) =>
          var rec := log.pages[addr];
          var gate := CprGate(addr, rec);
          if gate.Some? {
            return gate.value, out;
          }
          if rec.tombstone {
            return Done(NotFound), out;
          }
          out := f.reader(input, rec.payload);
          return Done(if out.Some? then Found else NotFound), out;
        case Stopped(addr) =>
          if log.beginAddress <= addr && FIRST_VALID_ADDRESS <= addr {
            return RecordOnDisk(addr, entry), out;
          }
          return Done(NotFound), out;
      }
    }

    /** The written record has to fit exactly where a record is made. */
    predicate UpsertFits(key: Key, input: I, op: Op) {
      && (op.Panic? ==> !Fits(key, Some(f.write(input))))
      && (op == Done(Created) ==> Fits(key, Some(f.write(input))))
    }

    /** A new record with the written value, in front of the one it replaces. */
    method UpsertAppend(key: Key, input: I, sealOld: Option<nat>) returns (op: Op)
      requires Valid() && Protected() && slotOf(key) in index
      requires sealOld.Some? ==>
                 && sealOld.value in log.records && log.records[sealOld.value].key == key
                 && log.entryHead <= sealOld.value
      modifies this`index, log
      ensures Valid() && log.slots == old(log.slots)
      ensures forall k: Key :: k != key ==> Cell(k) == old(Cell(k))
      ensures op == Panic || op == BackOff || op == Done(Created)
      ensures UpsertFits(key, input, op) && (op.BackOff? ==> log.Pending() < old(log.Rank()))
      ensures Cell(key) == if op.Done? then Some(f.write(input)) else old(Cell(key))
      ensures Lawful(old(log.records), log.records, old(AttemptRules()))
    {
      var r := Replace(key, Some(f.write(input)), sealOld);
      ExtendsIsLawful(old(log.records), log.records, old(AttemptRules()));
      return Outcome(r, Created);
    }

    /** The newest record of the key is in the mutable region. */
    method UpsertMutable(key: Key, input: I, addr: nat) returns (op: Op)
      requires Valid() && Protected() && slotOf(key) in index
      requires Lookup(log.records, Head(key), key) == Some(addr) && log.readOnly <= addr
      modifies this`index, log
      ensures Valid() && log.slots == old(log.slots)
      ensures forall k: Key :: k != key ==> Cell(k) == old(Cell(k))
      ensures op.Done? ==> !GaveUp(op.status) && UpsertStep(f, input, old(Cell(key)), Cell(key), op.status)
      ensures !op.Done? ==> Cell(key) == old(Cell(key))
      ensures UpsertFits(key, input, op) && (op.BackOff? ==> log.Pending() < old(log.Rank()))
      ensures op.CprShift? ==> !old(GateOpen(state))
      ensures !op.RecordOnDisk? && Lawful(old(log.records), log.records, old(AttemptRules()))
      ensures op.Done? ==> old(Gated(key, log.readOnly))
    {
      hide HybridLog<P>.Valid, ChainsOk, Lawful, Extends, Lookup;
      EntryHeadInMemory();
      NewestInMemory(key, addr);
      var rec := log.pages[addr];
      NothingChanged(log.records, AttemptRules());
      var gate := CprGate(addr, rec);
      if gate.Some? {
        return gate.value;
      }
      if rec.tombstone {
        op := UpsertAppend(key, input, None);
        return;
      }
      if !CprBlocksInPlace(addr, rec) {
        var written := f.inPlaceWrite(input, rec.payload);
        if written.Some? {
          Overwrite(key, addr, written.value, false, true);
          return Done(InPlaceUpdated);
        }
      }
      op := UpsertAppend(key, input, Some(addr));
    }

    method InternalUpsert(key: Key, input: I, latched: bool) returns (op: Op)
      requires Valid() && Protected()
      modifies this`index, log
      ensures Valid() && log.slots == old(log.slots)
      ensures forall k: Key :: k != key ==> Cell(k) == old(Cell(k))
      ensures op.Done? ==> !GaveUp(op.status) && UpsertStep(f, input, old(Cell(key)), Cell(key), op.status)
      ensures !op.Done? ==> Cell(key) == old(Cell(key))
      ensures UpsertFits(key, input, op) && (op.BackOff? && latched ==> log.Pending() < old(log.Rank()))
      ensures !latched ==> op.BackOff?
      ensures op.CprShift? ==> !old(GateOpen(state))
      ensures !op.RecordOnDisk? && Lawful(old(log.records), log.records, old(AttemptRules()))
      ensures op.Done? ==> old(Gated(key, log.readOnly))
    {
      hide Lawful, Lookup;
      FindOrCreateTag(key);
      if !latched {
        NothingChanged(log.records, AttemptRules());
        return BackOff;
      }
      var t := TraceBack(index[slotOf(key)], key, log.readOnly);
      if t.Hit? {
        op := UpsertMutable(key, input, t.addr);
        return;
      }
      op := UpsertAppend(key, input, None);
    }

    /** Delete by read-copy-update: a tombstone record. */
    method DeleteRcu(key: Key, sealOld: Option<nat>) returns (op: Op)
      requires Valid() && Protected() && slotOf(key) in index && Cell(key).Some?
      requires sealOld.Some? ==>
                 && sealOld.value in log.records && log.records[sealOld.value].key == key
                 && log.entryHead <= sealOld.value
      modifies this`index, log
      ensures Valid() && log.slots == old(log.slots) && old(log.head) <= log.head
      ensures forall k: Key :: k != key ==> Cell(k) == old(Cell(k))
      ensures op == Panic || op == BackOff || (op == Done(Deleted) && Cell(key) == None)
      ensures op.Panic? <==> !Fits(key, None)
      ensures op.BackOff? ==> log.Pending() < old(log.Rank())
      ensures !op.Done? ==> log.records == old(log.records) && index == old(index)
      ensures Lawful(old(log.records), log.records, old(AttemptRules()))
    {
      var r := Replace(key, None, sealOld);
      ExtendsIsLawful(old(log.records), log.records, old(AttemptRules()));
      return Outcome(r, Deleted);
    }

    /** The newest record of the key is in memory. */
    method DeleteInMemory(key: Key, addr: nat) returns (op: Op)
      requires Valid() && Protected() && slotOf(key) in index
      requires Lookup(log.records, Head(key), key) == Some(addr) && log.head <= addr
      modifies this`index, log
      ensures Valid() && log.slots == old(log.slots) && old(log.head) <= log.head
      ensures forall k: Key :: k != key ==> Cell(k) == old(Cell(k))
      ensures op.Done? ==> !GaveUp(op.status) && DeleteStep(old(Cell(key)), Cell(key), op.status)
      ensures op.Done? ==> old(Gated(key, log.head))
      ensures op.Panic? ==> old(Cell(key)).Some? && !Fits(key, None)
      ensures op.BackOff? ==> log.Pending() < old(log.Rank())
      ensures op.CprShift? ==> !old(GateOpen(state))
      ensures !op.Done? ==> log.records == old(log.records) && index == old(index)
      ensures !op.RecordOnDisk? && Lawful(old(log.records), log.records, old(AttemptRules()))
    {
      hide HybridLog<P>.Valid, ChainsOk, Lawful, Extends, Lookup;
      NewestInMemory(key, addr);
      var rec := log.pages[addr];
      NothingChanged(log.records, AttemptRules());
      var gate := CprGate(addr, rec);
      if gate.Some? {
        return gate.value;
      }
      if rec.tombstone {
        return Done(NotFound);
      }
      if log.readOnly <= addr && !CprBlocksInPlace(addr, rec) {
        SetTombstone(key, addr, true);
        return Done(Deleted);
      }
      op := DeleteRcu(key, Some(addr));
    }

    /** The chain of the slot ends below the records that memory holds. */
    method DeleteBelowHead(key: Key, diskChecked: Option<DiskSource<P>>, stopped: nat) returns (op: Op)
      requires Valid() && Protected() && slotOf(key) in index && OnDiskAt(key, stopped)
      requires diskChecked.Some? ==> SourceReady(key, diskChecked.value)
      modifies this`index, log
      ensures Valid() && log.slots == old(log.slots) && old(log.head) <= log.head
      ensures forall k: Key :: k != key ==> Cell(k) == old(Cell(k))
      ensures op.Done? ==> !GaveUp(op.status) && DeleteStep(old(Cell(key)), Cell(key), op.status)
      ensures op.Panic? ==> old(Cell(key)).Some? && !Fits(key, None)
      ensures op.BackOff? ==> log.Pending() < old(log.Rank())
      ensures !op.CprShift? && (!op.Done? ==> log.records == old(log.records) && index == old(index))
      ensures op.RecordOnDisk? ==>
                && diskChecked.None? && op.addr == stopped && op.latest == index[slotOf(key)]
                && log.Rank() == old(log.Rank()) && log.head == old(log.head)
      ensures Lawful(old(log.records), log.records, old(AttemptRules()))
    {
      hide Lawful, Extends;
      NothingChanged(log.records, AttemptRules());
      if stopped < log.beginAddress || stopped < FIRST_VALID_ADDRESS {
        return Done(NotFound);
      }
      if diskChecked.None? {
        return RecordOnDisk(stopped, index[slotOf(key)]);
      }
      // No writer of this slot came between, so the head is still the one seen then.
      assert diskChecked.value.latest == index[slotOf(key)];
      var image := diskChecked.value.image;
      if image.Some? && !image.value.tombstone {
        op := DeleteRcu(key, None);
        return;
      }
      return Done(NotFound);
    }

    method InternalDelete(key: Key, diskChecked: Option<DiskSource<P>>, latched: bool) returns (op: Op)
      requires Valid() && Protected()
      requires diskChecked.Some? ==> SourceReady(key, diskChecked.value)
      modifies this`index, log
      ensures Valid() && log.slots == old(log.slots) && old(log.head) <= log.head
      ensures forall k: Key :: k != key ==> Cell(k) == old(Cell(k))
      ensures op.Done? ==> !GaveUp(op.status) && DeleteStep(old(Cell(key)), Cell(key), op.status)
      ensures op.Done? ==> old(Gated(key, log.head))
      ensures op.Panic? ==> old(Cell(key)).Some? && !Fits(key, None)
      ensures op.BackOff? && latched ==> log.Pending() < old(log.Rank())
      ensures op.CprShift? ==> !old(GateOpen(state))
      ensures !op.Done? ==> log.records == old(log.records) && index == old(index)
      ensures !latched && slotOf(key) in old(index) ==> op.BackOff?
      ensures op.RecordOnDisk? ==>
                && diskChecked.None? && slotOf(key) in index && log.Rank() == old(log.Rank())
                && op.latest == index[slotOf(key)] && OnDiskAt(key, op.addr)
      ensures Lawful(old(log.records), log.records, old(AttemptRules()))
    {
      hide Lawful, Extends, Lookup;
      NothingChanged(log.records, AttemptRules());
      if slotOf(key) !in index {
        return Done(NotFound);
      }
      if !latched {
        return BackOff;
      }
      var entry := index[slotOf(key)];
      var t := TraceBack(entry, key, log.head);
      if t.Hit? {
        op := DeleteInMemory(key, t.addr);
        return;
      }
      op := DeleteBelowHead(key, diskChecked, t.addr);
    }

    /** The image is the newest record of the key, and that record is on disk. */
    ghost predicate SourceReady(key: Key, source: DiskSource<P>)
      reads this`index, log`records, log`head
    {
      var found := Lookup(log.records, Head(key), key);
      && slotOf(key) in index && source.latest == index[slotOf(key)]
      && (found.Some? ==> found.value < log.head)
      && source.image == if found.Some? then Some(log.records[found.value].(sealed := false)) else None
    }

    method RmwInitial(key: Key, input: I) returns (op: Op, out: Option<O>)
      requires Valid() && Protected() && slotOf(key) in index
      modifies this`index, log
      ensures Valid() && log.slots == old(log.slots) && old(log.head) <= log.head
      ensures forall k: Key :: k != key ==> Cell(k) == old(Cell(k))
      ensures op.Done? && old(Cell(key)) == None ==> InitialStep(f, input, Cell(key), op.status, out)
      ensures op.Panic? ==> f.needInitial(input) && !Fits(key, Some(f.initial(input).0))
      ensures op == Done(Created) ==> Fits(key, Cell(key))
      ensures op.BackOff? ==> log.Pending() < old(log.Rank())
      ensures !op.Done? ==> log.records == old(log.records) && index == old(index)
      ensures !op.RecordOnDisk? && !op.CprShift? && op != Done(CopyUpdated)
      ensures Extends(old(log.records), log.records, InNewVersion(state))
    {
      if !f.needInitial(input) {
        return Done(NotFound), None;
      }
      var (payload, o) := f.initial(input);
      var r := Replace(key, Some(payload), None);
      return Outcome(r, Created), if r.Allocated? then Some(o) else None;
    }

    method RmwCopy(key: Key, input: I, payload: P, sealOld: Option<nat>) returns (op: Op, out: Option<O>)
      requires Valid() && Protected() && slotOf(key) in index
      requires Cell(key) == Some(payload)
      requires sealOld.Some? ==>
                 && sealOld.value in log.records && log.records[sealOld.value].key == key
                 && log.entryHead <= sealOld.value
      modifies this`index, log
      ensures Valid() && log.slots == old(log.slots) && old(log.head) <= log.head
      ensures forall k: Key :: k != key ==> Cell(k) == old(Cell(k))
      ensures op.Done? ==> CopyStep(f, input, payload, Cell(key), op.status, out)
      ensures RmwFits(key, input, old(Cell(key)), op, Cell(key))
      ensures op.BackOff? ==> log.Pending() < old(log.Rank())
      ensures !op.Done? ==> log.records == old(log.records) && index == old(index)
      ensures !op.RecordOnDisk? && !op.CprShift?
      ensures Extends(old(log.records), log.records, InNewVersion(state))
    {
      out := None;
      match f.copy(input, payload) {
        case CancelCopy => return Done(Canceled), out;
        case DeleteCopy(o) =>
          assert RmwMakes(f, input, Some(payload), None);
          var r := Replace(key, None, sealOld);
          return Outcome(r, Deleted), if r.Allocated? then Some(o) else None;
        case Copy(q, o) =>
          assert RmwMakes(f, input, Some(payload), Some(q));
          var r := Replace(key, Some(q), sealOld);
          return Outcome(r, CopyUpdated), if r.Allocated? then Some(o) else None;
      }
    }

    /** The new record has to fit exactly where a record is made. */
    ghost predicate RmwFits(key: Key, input: I, cell: Option<P>, op: Op, cell': Option<P>) {
      && (op.Panic? ==> RmwOverflows(key, input, cell))
      && (op == Done(Created) || op == Done(CopyUpdated) ==> Fits(key, cell'))
    }

    /** Tombstone an expired record and continue as if the key did not exist. */
    method ExpireAndResume(key: Key, input: I, addr: nat) returns (op: Op, out: Option<O>)
      requires Valid() && Protected() && slotOf(key) in index
      requires Lookup(log.records, Head(key), key) == Some(addr)
      requires MayOverwrite(log.records[addr], addr, AttemptRules())
      modifies this`index, log
      ensures Valid() && log.slots == old(log.slots) && old(log.head) <= log.head
      ensures forall k: Key :: k != key ==> Cell(k) == old(Cell(k))
      ensures op.Done? ==> InitialStep(f, input, Cell(key), op.status, out)
      ensures op.Panic? ==> f.needInitial(input) && !Fits(key, Some(f.initial(input).0))
      ensures op == Done(Created) ==> Fits(key, Cell(key))
      ensures op.BackOff? ==> log.Pending() < old(log.Rank())
      ensures !op.Done? ==> Cell(key) == None
      ensures !op.RecordOnDisk? && !op.CprShift? && op != Done(CopyUpdated)
      ensures Lawful(old(log.records), log.records, old(AttemptRules()))
    {
      hide HybridLog<P>.Valid, ChainsOk, Lawful, Extends, Lookup;
      SetTombstone(key, addr, false);
      ghost var mid := log.records;
      op, out := RmwInitial(key, input);
      ThenExtends(old(log.records), mid, log.records, old(AttemptRules()));
    }

    /** The in-place callback has answered by itself: overwritten, tombstoned or left alone. */
    method RmwInPlace(key: Key, input: I, addr: nat) returns (op: Op, out: Option<O>)
      requires Valid() && Lookup(log.records, Head(key), key) == Some(addr)
      requires MayOverwrite(log.records[addr], addr, AttemptRules())
      requires !log.records[addr].tombstone
      requires !f.inPlace(input, log.records[addr].payload).Expired?
      requires !f.inPlace(input, log.records[addr].payload).NeedCopy?
      modifies log`pages, log`records
      ensures Valid() && op.Done? && op.status != Created && op.status != CopyUpdated
      ensures forall k: Key :: k != key ==> Cell(k) == old(Cell(k))
      ensures RmwStep(f, input, old(Cell(key)), Cell(key), op.status, out)
      ensures Lawful(old(log.records), log.records, AttemptRules())
    {
      hide Lawful, Extends, Lookup, HybridLog<P>.DeviceHolds, HybridLog<P>.EpochOrdered;
      hide HybridLog<P>.NothingForgotten;
      NothingChanged(log.records, AttemptRules());
      var payload := log.pages[addr].payload;
      var r := f.inPlace(input, payload);
      if r.Updated? {
        Overwrite(key, addr, r.payload, false, true);
        return Done(InPlaceUpdated), Some(r.out);
      }
      if r.Delete? {
        SetTombstone(key, addr, false);
        return Done(Deleted), Some(r.out);
      }
      return Done(Found), Some(r.out);
    }

    /** The newest record is live and in the mutable region. */
    method RmwMutable(key: Key, input: I, addr: nat) returns (op: Op, out: Option<O>)
      requires Valid() && Protected() && slotOf(key) in index
      requires Lookup(log.records, Head(key), key) == Some(addr)
      requires MayOverwrite(log.records[addr], addr, AttemptRules())
      requires !log.records[addr].tombstone
      modifies this`index, log
      ensures Valid() && log.slots == old(log.slots) && old(log.head) <= log.head
      ensures forall k: Key :: k != key ==> Cell(k) == old(Cell(k))
      ensures op.Done? ==> RmwStep(f, input, old(Cell(key)), Cell(key), op.status, out)
      ensures !op.Done? ==> Unfinished(f, input, old(Cell(key)), Cell(key))
      ensures RmwFits(key, input, old(Cell(key)), op, Cell(key))
      ensures op.BackOff? ==> log.Pending() < old(log.Rank())
      ensures !op.RecordOnDisk? && !op.CprShift?
      ensures Lawful(old(log.records), log.records, old(AttemptRules()))
    {
      hide HybridLog<P>.Valid, ChainsOk, Lawful, Extends, Lookup;
      EntryHeadInMemory();
      NewestInMemory(key, addr);
      var payload := log.pages[addr].payload;
      var r := f.inPlace(input, payload);
      if r.Expired? {
        op, out := ExpireAndResume(key, input, addr);
        assert f.needInitial(input) ==> RmwMakes(f, input, old(Cell(key)), Some(f.initial(input).0));
        return;
      }
      if r.NeedCopy? {
        op, out := RmwCopy(key, input, payload, Some(addr));
        ExtendsIsLawful(old(log.records), log.records, old(AttemptRules()));
        return;
      }
      op, out := RmwInPlace(key, input, addr);
    }

    /** The newest record is a tombstone, immutable, or one that version v+1 must leave alone. */
    method RmwUntouched(key: Key, input: I, addr: nat) returns (op: Op, out: Option<O>)
      requires Valid() && Protected() && slotOf(key) in index
      requires Lookup(log.records, Head(key), key) == Some(addr) && log.head <= addr
      requires addr in log.pages && log.pages[addr] == log.records[addr]
      requires log.records[addr].tombstone || addr < log.readOnly || CprBlocksInPlace(addr, log.records[addr])
      modifies this`index, log
      ensures Valid() && log.slots == old(log.slots) && old(log.head) <= log.head
      ensures forall k: Key :: k != key ==> Cell(k) == old(Cell(k))
      ensures op.Done? ==> RmwStep(f, input, old(Cell(key)), Cell(key), op.status, out)
      ensures !op.Done? ==> Cell(key) == old(Cell(key))
      ensures RmwFits(key, input, old(Cell(key)), op, Cell(key))
      ensures op.BackOff? ==> log.Pending() < old(log.Rank())
      ensures !op.RecordOnDisk? && !op.CprShift?
      ensures Extends(old(log.records), log.records, InNewVersion(state))
    {
      var rec := log.pages[addr];
      if rec.tombstone {
        op, out := RmwInitial(key, input);
        assert f.needInitial(input) ==> RmwMakes(f, input, None, Some(f.initial(input).0));
        return;
      }
      if log.readOnly <= addr {
        op, out := RmwCopy(key, input, rec.payload, Some(addr));
        return;
      }
      if log.safeReadOnly <= addr {
        // In the fuzzy region an in-place update may still be under way.
        return BackOff, None;
      }
      op, out := RmwCopy(key, input, rec.payload, None);
    }

    /** The newest record of the key is in memory. */
    method RmwInMemory(key: Key, input: I, addr: nat) returns (op: Op, out: Option<O>)
      requires Valid() && Protected() && slotOf(key) in index
      requires Lookup(log.records, Head(key), key) == Some(addr) && log.head <= addr
      modifies this`index, log
      ensures Valid() && log.slots == old(log.slots) && old(log.head) <= log.head
      ensures forall k: Key :: k != key ==> Cell(k) == old(Cell(k))
      ensures op.Done? ==> RmwStep(f, input, old(Cell(key)), Cell(key), op.status, out)
      ensures !op.Done? ==> Unfinished(f, input, old(Cell(key)), Cell(key))
      ensures RmwFits(key, input, old(Cell(key)), op, Cell(key))
      ensures op.BackOff? ==> log.Pending() < old(log.Rank())
      ensures op.CprShift? ==> !old(GateOpen(state))
      ensures !op.RecordOnDisk? && Lawful(old(log.records), log.records, old(AttemptRules()))
      ensures op.Done? ==> old(Gated(key, log.head))
    {
      var rec := log.pages[addr];
      var gate := CprGate(addr, rec);
      if gate.Some? {
        NothingChanged(log.records, AttemptRules());
        return gate.value, None;
      }
      if log.readOnly <= addr && !rec.tombstone && !CprBlocksInPlace(addr, rec) {
        op, out := RmwMutable(key, input, addr);
        return;
      }
      op, out := RmwUntouched(key, input, addr);
      ExtendsIsLawful(old(log.records), log.records, old(AttemptRules()));
    }

    /** The chain of the slot ends below the records that memory holds. */
    method RmwBelowHead(key: Key, input: I, diskSource: Option<DiskSource<P>>, stopped: nat)
      returns (op: Op, out: Option<O>)
      requires Valid() && Protected() && slotOf(key) in index && OnDiskAt(key, stopped)
      requires diskSource.Some? ==> SourceReady(key, diskSource.value)
      modifies this`index, log
      ensures Valid() && log.slots == old(log.slots) && old(log.head) <= log.head
      ensures forall k: Key :: k != key ==> Cell(k) == old(Cell(k))
      ensures op.Done? ==> RmwStep(f, input, old(Cell(key)), Cell(key), op.status, out)
      ensures !op.Done? ==> log.records == old(log.records) && index == old(index)
      ensures RmwFits(key, input, old(Cell(key)), op, Cell(key))
      ensures op.BackOff? ==> log.Pending() < old(log.Rank())
      ensures !op.CprShift? && Extends(old(log.records), log.records, InNewVersion(state))
      ensures op.RecordOnDisk? ==>
                && diskSource.None? && op.addr == stopped && op.latest == index[slotOf(key)]
                && log.Rank() == old(log.Rank())
    {
      assert f.needInitial(input) ==> RmwMakes(f, input, None, Some(f.initial(input).0));
      if stopped < log.beginAddress || stopped < FIRST_VALID_ADDRESS {
        op, out := RmwInitial(key, input);
        return;
      }
      if diskSource.None? {
        return RecordOnDisk(stopped, index[slotOf(key)]), None;
      }
      // No writer of this slot came between, so the head is still the one seen then.
      var source := diskSource.value;
      assert source.latest == index[slotOf(key)];
      if source.image.Some? && !source.image.value.tombstone {
        op, out := RmwCopy(key, input, source.image.value.payload, None);
        return;
      }
      op, out := RmwInitial(key, input);
    }

    method InternalRmw(key: Key, input: I, diskSource: Option<DiskSource<P>>, latched: bool)
      returns (op: Op, out: Option<O>)
      requires Valid() && Protected()
      requires diskSource.Some? ==> SourceReady(key, diskSource.value)
      modifies this`index, log
      ensures Valid() && log.slots == old(log.slots) && old(log.head) <= log.head
      ensures forall k: Key :: k != key ==> Cell(k) == old(Cell(k))
      ensures op.Done? ==> RmwStep(f, input, old(Cell(key)), Cell(key), op.status, out)
      ensures !op.Done? ==> Unfinished(f, input, old(Cell(key)), Cell(key))
      ensures RmwFits(key, input, old(Cell(key)), op, Cell(key))
      ensures op.BackOff? && latched ==> log.Pending() < old(log.Rank())
      ensures !latched ==> op.BackOff?
      ensures op.CprShift? ==> !old(GateOpen(state))
      ensures !op.Done? && diskSource.Some? ==> log.records == old(log.records) && index == old(index)
      ensures op.RecordOnDisk? ==>
                && diskSource.None? && Cell(key) == old(Cell(key)) && log.Rank() == old(log.Rank())
                && slotOf(key) in index && op.latest == index[slotOf(key)] && OnDiskAt(key, op.addr)
      ensures Lawful(old(log.records), log.records, old(AttemptRules()))
      ensures op.Done? ==> old(Gated(key, log.head))
    {
      hide Lawful, Lookup, HybridLog<P>.DeviceHolds, HybridLog<P>.EpochOrdered;
      hide HybridLog<P>.NothingForgotten;
      FindOrCreateTag(key);
      if !latched {
        NothingChanged(log.records, AttemptRules());
        return BackOff, None;
      }
      var t := TraceBack(index[slotOf(key)], key, log.head);
      if t.Hit? {
        op, out := RmwInMemory(key, input, t.addr);
        return;
      }
      op, out := RmwBelowHead(key, input, diskSource, t.addr);
      ExtendsIsLawful(old(log.records), log.records, old(AttemptRules()));
    }

    // -------------------------------------------------------------------
    // What other threads do between attempts
    // -------------------------------------------------------------------

    ghost predicate Idle()
      reads this, log
    {
      Valid() && log.slots[0] == 0
    }

    /** Nobody else is inside the epoch, and no record makes a session in PREPARE start over. */
    ghost predicate Quiet()
      reads this, log
    {
      log.NobodyElse() && GateOpen(phase)
    }

    ghost function Insiders(): set<nat>
      reads log`slots
    {
      set t | 1 <= t < |log.slots| && log.slots[t] != 0
    }

    ghost function AroundNow(): Around
      reads this, log
    {
      Around(Insiders(), GateOpen(phase))
    }

    lemma QuietIff()
      ensures Quiet() <==> Settled(AroundNow())
    {
      if Insiders() == {} {
        forall t | 1 <= t < |log.slots|
          ensures log.slots[t] == 0
        {
          assert t !in Insiders();
        }
      }
    }

    /** The shift to PREPARE takes the tail as the checkpoint's start (checkpoint.rs:126-141). */
    method StartCheckpoint()
      requires Idle()
      modifies this`phase, this`checkpointStart
      ensures Idle() && AroundNow() == Around(old(Insiders()), true)
    {
      hide ChainsOk, Lookup, HybridLog<P>.DeviceHolds, HybridLog<P>.NothingForgotten;
      phase, checkpointStart := Prepare, PageAddress(log.tailPage, log.pageSize) + log.tailOffset;
    }

    method SwitchPhase(newPhase: Phase, start: nat)
      requires Idle()
      modifies this`phase, this`checkpointStart
      ensures Idle() && Insiders() == old(Insiders())
      ensures newPhase != Prepare ==> AroundNow().open
    {
      hide ChainsOk, HybridLog<P>.Valid;
      phase, checkpointStart := newPhase, start;
    }

    method SetOther(thread: nat, value: nat)
      requires Idle() && 0 < thread < |log.slots| && value <= log.current
      modifies log`slots
      ensures Idle()
      ensures Insiders() == if value == 0 then old(Insiders()) - {thread} else old(Insiders()) + {thread}
    {
      hide ChainsOk;
      log.SetOtherSlot(thread, value);
    }

    method InterfereOnce(step: EnvStep)
      requires Idle()
      modifies this`phase, this`checkpointStart, log
      ensures Idle() && log.records == old(log.records) && old(log.head) <= log.head
      ensures Below(AroundNow(), AfterStep(old(AroundNow()), step))
      ensures CalmStep(step) && Settled(old(AroundNow())) ==> Settled(AroundNow()) && log.Rank() <= old(log.Rank())
    {
      hide ChainsOk, Lookup, HybridLog<P>.ValidWith, OpenFor;
      QuietIff();
      match step {
        case OtherEnters(thread, epoch) =>
          if 0 < thread < |log.slots| && epoch <= log.current {
            SetOther(thread, epoch);
          }
        case OtherLeaves(thread) =>
          if 0 < thread < |log.slots| {
            SetOther(thread, 0);
          }
        case ShiftReadOnly(addr) =>
          if addr <= PageAddress(log.tailPage, log.pageSize) + log.tailOffset {
            var _ := log.ShiftReadOnlyAddress(addr);
          }
        case ShiftHead(addr) =>
          var _ := log.ShiftHeadAddress(addr);
        case BumpEpoch =>
          log.BumpCurrentEpoch();
        case ForeignAllocate(size) =>
          if 0 < size {
            var _ := log.TryAllocate(size);
          }
        case BeginCheckpoint =>
          StartCheckpoint();
        case SetPhase(newPhase, start) =>
          SwitchPhase(newPhase, start);
        case LatchHeld =>
      }
      QuietIff();
    }

    method Interfere(env: Rounds, round: nat)
      requires Idle()
      modifies this`phase, this`checkpointStart, log
      ensures Idle() && log.records == old(log.records) && old(log.head) <= log.head
      ensures Below(AroundNow(), AfterSteps(old(AroundNow()), Round(env, round)))
      ensures CalmRound(Round(env, round)) && Settled(old(AroundNow())) ==>
                Settled(AroundNow()) && log.Rank() <= old(log.Rank())
    {
      hide CalmStep, AfterStep, Quiet, AroundNow, HybridLog<P>.Valid, ChainsOk;
      var steps := Round(env, round);
      ghost var a := AroundNow();
      for i := 0 to |steps|
        invariant Idle() && log.records == old(log.records) && old(log.head) <= log.head
        invariant Below(AroundNow(), AfterSteps(a, steps[..i]))
        invariant CalmRound(steps) && Settled(a) ==> Settled(AroundNow()) && log.Rank() <= old(log.Rank())
      {
        ghost var b := AroundNow();
        InterfereOnce(steps[i]);
        StepMonotone(b, AfterSteps(a, steps[..i]), steps[i]);
        assert steps[..i + 1][..i] == steps[..i];
      }
      assert steps[..|steps|] == steps;
    }

    /** Enter the epoch and re-read the phase (store.rs:604-623). */
    method Enter()
      requires Idle()
      modifies this`state, log`slots, log`entryHead
      ensures Valid() && Protected() && state == phase
      ensures AroundNow() == old(AroundNow())
    {
      hide HybridLog<P>.MemoryHolds, HybridLog<P>.DeviceHolds, ChainsOk, Lookup;
      log.Protect();
      state := phase;
    }

    /** The environment has its turn, then the session enters. */
    method Begin(env: Rounds, round: nat)
      requires Idle()
      modifies this`phase, this`checkpointStart, this`state, log
      ensures Valid() && Protected() && state == phase
      ensures log.records == old(log.records) && old(log.head) <= log.head
      ensures Below(AroundNow(), AfterSteps(old(AroundNow()), Round(env, round)))
      ensures CalmRound(Round(env, round)) && Settled(old(AroundNow())) ==>
                Settled(AroundNow()) && log.Rank() <= old(log.Rank())
    {
      hide AfterSteps, CalmRound, AroundNow;
      Interfere(env, round);
      Enter();
    }

    // -------------------------------------------------------------------
    // The four operations, retries included. `attempts` counts those that ended
    // in a call to HandleRetry or in an answer. Once a call is left in peace,
    // every wait brings the log's boundaries nearer to what the allocation
    // needs, so that four attempts more are enough.
    // -------------------------------------------------------------------

    /** Back off after a non-terminal outcome (store.rs:663-682); false gives up. */
    method HandleRetry(outcome: Op, attempt: nat) returns (again: bool)
      requires Idle() && (outcome.BackOff? || outcome.CprShift?)
      modifies log
      ensures Idle() && log.records == old(log.records) && log.head == old(log.head)
      ensures again == (attempt < MAX_RETRIES)
      ensures AroundNow() == old(AroundNow())
      ensures again && outcome.BackOff? && Settled(AroundNow()) ==> log.Rank() == old(log.Pending())
    {
      if MAX_RETRIES <= attempt {
        return false;
      }
      if outcome.BackOff? {
        log.BumpCurrentEpoch();
      }
      QuietIff();
      return true;
    }

    /** The synchronous disk read that follows RecordOnDisk, after the others had their turn. */
    method FetchImage(key: Key, addr: nat, env: Rounds, round: nat) returns (image: Option<Record<P>>)
      requires Idle() && OnDiskAt(key, addr)
      modifies this`phase, this`checkpointStart, log
      ensures Idle() && log.records == old(log.records) && old(log.head) <= log.head
      ensures var found := Lookup(log.records, Head(key), key);
              && (found.Some? ==> found.value < log.head)
              && image == if found.Some? then Some(log.records[found.value].(sealed := false)) else None
      ensures Below(AroundNow(), AfterSteps(old(AroundNow()), Round(env, round)))
      ensures CalmRound(Round(env, round)) && Settled(old(AroundNow())) ==>
                Settled(AroundNow()) && log.Rank() <= old(log.Rank())
    {
      hide AfterSteps, CalmRound, AroundNow, ChainsOk;
      Interfere(env, round);
      image := FindOnDisk(addr, key);
    }

    method FetchSource(key: Key, addr: nat, latest: nat, env: Rounds, round: nat)
      returns (source: DiskSource<P>)
      requires Idle() && slotOf(key) in index && latest == index[slotOf(key)] && OnDiskAt(key, addr)
      modifies this`phase, this`checkpointStart, log
      ensures Idle() && log.records == old(log.records)
      ensures SourceReady(key, source)
      ensures Below(AroundNow(), AfterSteps(old(AroundNow()), Round(env, round)))
      ensures CalmRound(Round(env, round)) && Settled(old(AroundNow())) ==>
                Settled(AroundNow()) && log.Rank() <= old(log.Rank())
    {
      hide AfterSteps, CalmRound, AroundNow, HybridLog<P>.Valid, ChainsOk, Lookup;
      var image := FetchImage(key, addr, env, round);
      return DiskSource(image, latest);
    }

    /** An attempt is over: the session leaves the epoch, and the others are as it found them. */
    method Leave(ghost before: Log<P>, ghost rules: Rules)
      requires Valid() && state == phase && 0 < |log.slots|
      requires Lawful(before, log.records, rules) && rules.inNewVersion == InNewVersion(state)
      modifies log`slots
      ensures Idle() && log.slots == old(log.slots)[0 := 0]
      ensures AroundNow() == Around(old(Insiders()), OpenFor(before, phase))
    {
      log.Unprotect();
      GateStays(before, rules);
    }

    /** What an attempt that is not over has achieved, with nobody else inside and the latch taken. */
    ghost predicate Nearer(op: Op, rank: nat)
      reads log
    {
      !op.CprShift? && (op.BackOff? ==> log.Pending() < rank) && (op.RecordOnDisk? ==> log.Rank() <= rank)
    }

    /** How an attempt ends with respect to the others: as its round left them, and nearer to its end if they let it. */
    ghost predicate Attempted(op: Op, env: Rounds, round: nat, before: Around, rank: nat)
      reads this, log
    {
      && Below(AroundNow(), AfterSteps(before, Round(env, round)))
      && (Latched(env, round) && Settled(AroundNow()) ==> Nearer(op, 3))
      && (CalmRound(Round(env, round)) && Settled(before) ==> Settled(AroundNow()) && Nearer(op, rank))
    }

    method AttemptRmw(key: Key, input: I, diskSource: Option<DiskSource<P>>, env: Rounds, round: nat)
      returns (op: Op, out: Option<O>)
      requires Idle()
      requires diskSource.Some? ==> SourceReady(key, diskSource.value)
      modifies this, log
      ensures Idle()
      ensures forall k: Key :: k != key ==> Cell(k) == old(Cell(k))
      ensures op.Done? ==> RmwStep(f, input, old(Cell(key)), Cell(key), op.status, out)
      ensures !op.Done? ==> Unfinished(f, input, old(Cell(key)), Cell(key))
      ensures RmwFits(key, input, old(Cell(key)), op, Cell(key))
      ensures !op.Done? && diskSource.Some? ==> SourceReady(key, diskSource.value)
      ensures op.RecordOnDisk? ==>
                && diskSource.None? && Cell(key) == old(Cell(key))
                && slotOf(key) in index && op.latest == index[slotOf(key)] && OnDiskAt(key, op.addr)
      ensures Attempted(op, env, round, old(AroundNow()), old(log.Rank()))
      ensures !Latched(env, round) ==> op.BackOff?
    {
      hide HybridLog<P>.Valid, ChainsOk, Lawful, RmwStep, Unfinished, Lookup, AfterSteps, CalmRound;
      hide OpenFor, RmwFits;
      Begin(env, round);
      ghost var before, rules := log.records, AttemptRules();
      op, out := InternalRmw(key, input, diskSource, Latched(env, round));
      Leave(before, rules);
    }

    lemma ResumeOverflow(key: Key, input: I, cell: Option<P>, mid: Option<P>)
      requires Unfinished(f, input, cell, mid) && RmwOverflows(key, input, mid)
      ensures RmwOverflows(key, input, cell)
    {
      var made: Option<P> :| RmwMakes(f, input, mid, made) && !Fits(key, made);
      ResumeMakes(f, input, cell, mid, made);
    }

    /** The two rounds that a fetch from disk takes. */
    ghost function Extra(source: Option<DiskSource<P>>): nat {
      if source.Some? then 2 else 0
    }

    /** The last attempt has been made: what follows for the number of attempts and for those around. */
    lemma EndCall(a: Around, env: Rounds, round: nat, extra: nat, now: Around, rank: nat, attempts: nat, error: bool)
      requires Winds(a, env, round, extra, now, rank) && attempts + extra == round + 1
      requires Below(AroundNow(), AfterSteps(now, Round(env, round))) && (error ==> MAX_RETRIES < attempts)
      ensures Patience(a, env, AroundNow(), attempts, error)
      ensures error ==> Hopeless(a, env)
      ensures Calm(env) && Settled(a) ==> Quiet() && attempts <= 4
    {
      WindsUp(a, env, round, extra, now, rank, AroundNow(), attempts, error);
      PatienceMeans(a, env, AroundNow(), attempts, error);
      QuietIff();
    }

    method Rmw(key: Key, input: I, env: Rounds)
      returns (status: Status, out: Option<O>, ghost attempts: nat)
      requires Idle()
      modifies this, log
      ensures Idle()
      ensures forall k: Key :: k != key ==> Cell(k) == old(Cell(k))
      ensures !GaveUp(status) ==> RmwStep(f, input, old(Cell(key)), Cell(key), status, out)
      ensures GaveUp(status) ==> Unfinished(f, input, old(Cell(key)), Cell(key))
      ensures status == Panicked ==> RmwOverflows(key, input, old(Cell(key)))
      ensures status == Created || status == CopyUpdated ==> Fits(key, Cell(key))
      ensures Patience(old(AroundNow()), env, AroundNow(), attempts, status == Error)
      ensures status == Error ==> Hopeless(old(AroundNow()), env)
      ensures Calm(env) && old(Quiet()) ==> Quiet() && attempts <= 4
      ensures Starved(env) ==> status == Error
    {
      hide HybridLog<P>.Valid, ChainsOk, Lookup, Winds, Patience, Hopeless, AfterSteps, CalmRound, Quiet;
      hide AroundNow, RmwStep, RmwOverflows, HybridLog<P>.Rank, SourceReady, OnDiskAt, Settled, Below;
      hide GateOpen, Round, Latched, HybridLog<P>.Pending;
      ghost var a := AroundNow();
      QuietIff();
      WindsBegin(a, env, log.Rank());
      var attempt, round := 0, 0;
      var diskSource: Option<DiskSource<P>> := None;
      while true
        invariant Idle() && attempt <= MAX_RETRIES
        invariant forall k: Key :: k != key ==> Cell(k) == old(Cell(k))
        invariant Unfinished(f, input, old(Cell(key)), Cell(key))
        invariant diskSource.Some? ==> SourceReady(key, diskSource.value)
        invariant round == attempt + Extra(diskSource) && (Starved(env) ==> diskSource.None?)
        invariant Winds(a, env, round, Extra(diskSource), AroundNow(), log.Rank())
        decreases MAX_RETRIES - attempt, diskSource.None?
      {
        ghost var mid, now, rank := Cell(key), AroundNow(), log.Rank();
        var op;
        op, out := AttemptRmw(key, input, diskSource, env, round);
        if op.Done? {
          ResumeRmw(f, input, old(Cell(key)), mid, Cell(key), op.status, out);
          EndCall(a, env, round, Extra(diskSource), now, rank, attempt + 1, false);
          return op.status, out, attempt + 1;
        }
        if op.Panic? {
          ResumeOverflow(key, input, old(Cell(key)), mid);
          EndCall(a, env, round, Extra(diskSource), now, rank, attempt + 1, false);
          return Panicked, None, attempt + 1;
        }
        if op.RecordOnDisk? {
          ghost var there, left := AroundNow(), log.Rank();
          var source := FetchSource(key, op.addr, op.latest, env, round + 1);
          WindsThroughDisk(a, env, round, now, rank, there, left, AroundNow(), log.Rank());
          diskSource := Some(source);
          round := round + 2;
        } else {
          var again := HandleRetry(op, attempt);
          if !again {
            EndCall(a, env, round, Extra(diskSource), now, rank, attempt + 1, true);
            return Error, None, attempt + 1;
          }
          WindsOn(a, env, round, Extra(diskSource), now, rank, AroundNow(), log.Rank());
          attempt, round := attempt + 1, round + 1;
        }
      }
    }

    method AttemptRead(key: Key, input: I, env: Rounds, round: nat) returns (op: Op, out: Option<O>)
      requires Idle()
      modifies this, log
      ensures Idle() && log.records == old(log.records) && index == old(index)
      ensures op.Done? ==> !GaveUp(op.status) && ReadStep(f, input, Cell(key), op.status, out)
      ensures op.RecordOnDisk? ==> OnDiskAt(key, op.addr)
      ensures !op.Panic?
      ensures Below(AroundNow(), AfterSteps(old(AroundNow()), Round(env, round)))
      ensures (op.BackOff? ==> !Latched(env, round)) && (op.CprShift? ==> !AroundNow().open)
      ensures !Latched(env, round) && slotOf(key) in index ==> op.BackOff?
    {
      hide HybridLog<P>.Valid, ChainsOk, ReadStep, Lookup, AfterSteps;
      Begin(env, round);
      op, out := InternalRead(key, input, Latched(env, round));
      log.Unprotect();
    }

    /** The answer from the disk image. */
    method ReadFromDisk(key: Key, input: I, addr: nat, env: Rounds, round: nat)
      returns (status: Status, out: Option<O>)
      requires Idle() && OnDiskAt(key, addr)
      modifies this`phase, this`checkpointStart, log
      ensures Idle() && log.records == old(log.records)
      ensures !GaveUp(status) && ReadStep(f, input, Cell(key), status, out)
      ensures Below(AroundNow(), AfterSteps(old(AroundNow()), Round(env, round)))
    {
      hide AfterSteps, CalmRound, AroundNow, HybridLog<P>.Valid, ChainsOk, Lookup;
      var image := FetchImage(key, addr, env, round);
      if image.Some? && !image.value.tombstone {
        out := f.reader(input, image.value.payload);
        return if out.Some? then Found else NotFound, out;
      }
      return NotFound, None;
    }

    /**
      A read waits for nobody: the first round in which the latch is free and no
      record makes it start over ends it, whoever is inside the epoch.
     */
    method Read(key: Key, input: I, env: Rounds)
      returns (status: Status, out: Option<O>, ghost attempts: nat)
      requires Idle()
      modifies this, log
      ensures Idle()
      ensures forall k: Key :: Cell(k) == old(Cell(k))
      ensures status != Error ==> ReadStep(f, input, Cell(key), status, out)
      ensures status != Panicked
      ensures forall r: nat :: AfterRounds(old(AroundNow()), env, r + 1).open && Latched(env, r) ==> attempts <= r + 1
      ensures Patience(old(AroundNow()), env, AroundNow(), attempts, status == Error)
      ensures status == Error ==> Hopeless(old(AroundNow()), env)
      ensures Calm(env) && old(Quiet()) ==> Quiet() && attempts == 1
      ensures Starved(env) && slotOf(key) in old(index) ==> status == Error
    {
      hide HybridLog<P>.Valid, ChainsOk, Lookup, Patience, Hopeless, AfterSteps, Quiet, AroundNow;
      hide ReadStep;
      ghost var a := AroundNow();
      QuietIff();
      var attempt := 0;
      while true
        invariant Idle() && attempt <= MAX_RETRIES
        invariant log.records == old(log.records) && index == old(index)
        invariant NoOpening(a, env, attempt) && Below(AroundNow(), AfterRounds(a, env, attempt))
        decreases MAX_RETRIES - attempt
      {
        ghost var now := AroundNow();
        var op;
        op, out := AttemptRead(key, input, env, attempt);
        StepsMonotone(now, AfterRounds(a, env, attempt), Round(env, attempt));
        if op.Done? {
          EndRead(a, env, attempt, attempt + 1, false);
          return op.status, out, attempt + 1;
        }
        if op.RecordOnDisk? {
          ghost var there := AroundNow();
          status, out := ReadFromDisk(key, input, op.addr, env, attempt + 1);
          StepsMonotone(there, AfterRounds(a, env, attempt + 1), Round(env, attempt + 1));
          EndRead(a, env, attempt, attempt + 2, false);
          return status, out, attempt + 1;
        }
        var again := HandleRetry(op, attempt);
        if !again {
          EndRead(a, env, attempt, attempt + 1, true);
          return Error, None, attempt + 1;
        }
        attempt := attempt + 1;
      }
    }

    /** A read that made `attempt` attempts in vain and then one more, and saw `rounds` rounds. */
    lemma EndRead(a: Around, env: Rounds, attempt: nat, rounds: nat, error: bool)
      requires NoOpening(a, env, attempt) && 0 < rounds && Below(AroundNow(), AfterRounds(a, env, rounds))
      requires error ==> MAX_RETRIES <= attempt
      ensures forall r: nat :: AfterRounds(a, env, r + 1).open && Latched(env, r) ==> attempt + 1 <= r + 1
      ensures Patience(a, env, AroundNow(), attempt + 1, error)
      ensures error ==> Hopeless(a, env)
      ensures Calm(env) && Settled(a) ==> Quiet() && attempt == 0
    {
      PatienceMeans(a, env, AroundNow(), attempt + 1, error);
      QuietIff();
      if Calm(env) && Settled(a) {
        CalmIsPeace(a, env);
      }
    }

    method AttemptUpsert(key: Key, input: I, env: Rounds, round: nat) returns (op: Op)
      requires Idle()
      modifies this, log
      ensures Idle() && !op.RecordOnDisk?
      ensures forall k: Key :: k != key ==> Cell(k) == old(Cell(k))
      ensures op.Done? ==> !GaveUp(op.status) && UpsertStep(f, input, old(Cell(key)), Cell(key), op.status)
      ensures op.Done? && old(Cell(key)) == None ==> op.status == Created
      ensures !op.Done? ==> Cell(key) == old(Cell(key))
      ensures UpsertFits(key, input, op)
      ensures Attempted(op, env, round, old(AroundNow()), old(log.Rank()))
      ensures !Latched(env, round) ==> op.BackOff?
    {
      hide HybridLog<P>.Valid, ChainsOk, Lawful, Lookup, AfterSteps, CalmRound, OpenFor;
      Begin(env, round);
      ghost var before, rules := log.records, AttemptRules();
      op := InternalUpsert(key, input, Latched(env, round));
      Leave(before, rules);
    }

    method Upsert(key: Key, input: I, env: Rounds) returns (status: Status, ghost attempts: nat)
      requires Idle()
      modifies this, log
      ensures Idle()
      ensures forall k: Key :: k != key ==> Cell(k) == old(Cell(k))
      ensures !GaveUp(status) ==> UpsertStep(f, input, old(Cell(key)), Cell(key), status)
      ensures GaveUp(status) ==> Cell(key) == old(Cell(key))
      ensures status == Panicked ==> !Fits(key, Some(f.write(input)))
      ensures status == Created ==> Fits(key, Some(f.write(input)))
      ensures old(Cell(key)) == None && status != Error ==> (status == Panicked <==> !Fits(key, Some(f.write(input))))
      ensures Patience(old(AroundNow()), env, AroundNow(), attempts, status == Error)
      ensures status == Error ==> Hopeless(old(AroundNow()), env)
      ensures Calm(env) && old(Quiet()) ==> Quiet() && attempts <= 4
      ensures Starved(env) ==> status == Error
    {
      hide HybridLog<P>.Valid, ChainsOk, Lookup, Winds, Patience, Hopeless, AfterSteps, CalmRound, Quiet;
      hide AroundNow, UpsertStep, HybridLog<P>.Rank;
      ghost var a := AroundNow();
      QuietIff();
      WindsBegin(a, env, log.Rank());
      var attempt := 0;
      while true
        invariant Idle() && attempt <= MAX_RETRIES
        invariant forall k: Key :: Cell(k) == old(Cell(k))
        invariant Winds(a, env, attempt, 0, AroundNow(), log.Rank())
        decreases MAX_RETRIES - attempt
      {
        ghost var now, rank := AroundNow(), log.Rank();
        var op := AttemptUpsert(key, input, env, attempt);
        if op.Done? {
          EndCall(a, env, attempt, 0, now, rank, attempt + 1, false);
          return op.status, attempt + 1;
        }
        if op.Panic? {
          EndCall(a, env, attempt, 0, now, rank, attempt + 1, false);
          return Panicked, attempt + 1;
        }
        var again := HandleRetry(op, attempt);
        if !again {
          EndCall(a, env, attempt, 0, now, rank, attempt + 1, true);
          return Error, attempt + 1;
        }
        WindsOn(a, env, attempt, 0, now, rank, AroundNow(), log.Rank());
        attempt := attempt + 1;
      }
    }

    method AttemptDelete(key: Key, diskChecked: Option<DiskSource<P>>, env: Rounds, round: nat)
      returns (op: Op)
      requires Idle()
      requires diskChecked.Some? ==> SourceReady(key, diskChecked.value)
      modifies this, log
      ensures Idle()
      ensures forall k: Key :: k != key ==> Cell(k) == old(Cell(k))
      ensures op.Done? ==> !GaveUp(op.status) && DeleteStep(old(Cell(key)), Cell(key), op.status)
      ensures !op.Done? ==> Cell(key) == old(Cell(key)) && index == old(index)
      ensures op.Panic? ==> old(Cell(key)).Some? && !Fits(key, None)
      ensures !op.Done? && diskChecked.Some? ==> SourceReady(key, diskChecked.value)
      ensures op.RecordOnDisk? ==>
                && diskChecked.None? && slotOf(key) in index
                && op.latest == index[slotOf(key)] && OnDiskAt(key, op.addr)
      ensures Attempted(op, env, round, old(AroundNow()), old(log.Rank()))
      ensures !Latched(env, round) && slotOf(key) in old(index) ==> op.BackOff?
    {
      hide HybridLog<P>.Valid, ChainsOk, Lawful, DeleteStep, Lookup, AfterSteps, CalmRound, OpenFor;
      Begin(env, round);
      ghost var before, rules := log.records, AttemptRules();
      op := InternalDelete(key, diskChecked, Latched(env, round));
      Leave(before, rules);
    }

    method Delete(key: Key, env: Rounds) returns (status: Status, ghost attempts: nat)
      requires Idle()
      modifies this, log
      ensures Idle()
      ensures forall k: Key :: k != key ==> Cell(k) == old(Cell(k))
      ensures !GaveUp(status) ==> DeleteStep(old(Cell(key)), Cell(key), status)
      ensures GaveUp(status) ==> Cell(key) == old(Cell(key))
      ensures status == Panicked ==> old(Cell(key)).Some? && !Fits(key, None)
      ensures Patience(old(AroundNow()), env, AroundNow(), attempts, status == Error)
      ensures status == Error ==> Hopeless(old(AroundNow()), env)
      ensures Calm(env) && old(Quiet()) ==> Quiet() && attempts <= 4
      ensures Starved(env) && slotOf(key) in old(index) ==> status == Error
    {
      hide HybridLog<P>.Valid, ChainsOk, Lookup, Winds, Patience, Hopeless, AfterSteps, CalmRound, Quiet;
      hide AroundNow, DeleteStep, HybridLog<P>.Rank, SourceReady, OnDiskAt, Settled, Below, GateOpen;
      hide Round, Latched, HybridLog<P>.Pending;
      ghost var a := AroundNow();
      QuietIff();
      WindsBegin(a, env, log.Rank());
      var attempt, round := 0, 0;
      var diskChecked: Option<DiskSource<P>> := None;
      while true
        invariant Idle() && attempt <= MAX_RETRIES
        invariant forall k: Key :: Cell(k) == old(Cell(k))
        invariant diskChecked.Some? ==> SourceReady(key, diskChecked.value)
        invariant round == attempt + Extra(diskChecked) && index == old(index)
        invariant Starved(env) && slotOf(key) in index ==> diskChecked.None?
        invariant Winds(a, env, round, Extra(diskChecked), AroundNow(), log.Rank())
        decreases MAX_RETRIES - attempt, diskChecked.None?
      {
        ghost var now, rank := AroundNow(), log.Rank();
        var op := AttemptDelete(key, diskChecked, env, round);
        if op.Done? {
          EndCall(a, env, round, Extra(diskChecked), now, rank, attempt + 1, false);
          return op.status, attempt + 1;
        }
        if op.Panic? {
          EndCall(a, env, round, Extra(diskChecked), now, rank, attempt + 1, false);
          return Panicked, attempt + 1;
        }
        if op.RecordOnDisk? {
          ghost var there, left := AroundNow(), log.Rank();
          var source := FetchSource(key, op.addr, op.latest, env, round + 1);
          WindsThroughDisk(a, env, round, now, rank, there, left, AroundNow(), log.Rank());
          diskChecked := Some(source);
          round := round + 2;
        } else {
          var again := HandleRetry(op, attempt);
          if !again {
            EndCall(a, env, round, Extra(diskChecked), now, rank, attempt + 1, true);
            return Error, attempt + 1;
          }
          WindsOn(a, env, round, Extra(diskChecked), now, rank, AroundNow(), log.Rank());
          attempt, round := attempt + 1, round + 1;
        }
      }
    }
  }
}
