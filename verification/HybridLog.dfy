/**
  The hybrid log with the epoch table it defers its actions through
  (crates/tsavorite/src/log.rs, crates/tsavorite/src/epoch.rs), as one thread
  drives it. The other threads' slots of the epoch table are in `slots[1..]`
  and may hold anything those threads could have published.

  Records are the unit of memory: `pages` is what the circular page buffer
  holds and `device` what has been written out, both keyed by logical address.
 */
module HybridLogs {
  import opened Bytes

  const FIRST_VALID_ADDRESS: nat := 64

  datatype Record<+P> = Record(prev: nat, key: Key, payload: P, tombstone: bool,
                               valid: bool, newVersion: bool, modified: bool, sealed: bool)

  /** What a boundary shift asks for once its epoch has drained. */
  datatype Action = PagesMarkedReadOnly(addr: nat) | PagesClosed(addr: nat)

  datatype Deferred = Deferred(epoch: nat, action: Action)

  /** TooLarge: the record is larger than a page can hold, and the allocator panics. */
  datatype AllocResult = Allocated(addr: nat) | RetryLater | TooLarge

  /** What `try_seal` leaves: only a valid record is sealed (record.rs:117-135). */
  function Sealed<P>(rec: Record<P>): Record<P> {
    rec.(sealed := rec.sealed || rec.valid)
  }

  /** Two images of a record agree if they differ at most in the Sealed bit. */
  ghost predicate SameOnDisk<P>(image: Record<P>, rec: Record<P>) {
    image == rec.(sealed := image.sealed)
  }

  // ---------------------------------------------------------------------
  // Page arithmetic
  // ---------------------------------------------------------------------

  lemma MulMonotone(a: int, b: int, c: nat)
    ensures a <= b ==> a * c <= b * c
  {
    if a <= b {
      assert 0 <= (b - a) * c;
    }
  }

  function Excess(a: nat, b: nat): nat {
    if a <= b then 0 else a - b
  }

  /** The logical address at which a page starts. */
  function PageAddress(page: nat, ps: nat): nat {
    page * ps
  }

  lemma PageAddressMonotone(p: nat, q: nat, ps: nat)
    ensures p <= q ==> PageAddress(p, ps) <= PageAddress(q, ps)
    ensures PageAddress(p + 1, ps) == PageAddress(p, ps) + ps
  {
    MulMonotone(p, q, ps);
  }

  lemma PageOf(addr: nat, ps: nat, page: nat)
    requires 0 < ps && page * ps <= addr < (page + 1) * ps
    ensures addr / ps == page
  {
    var q := addr / ps;
    MulMonotone(q + 1, page, ps);
    MulMonotone(page + 1, q, ps);
  }

  /** An address below the end of the first `pages` pages lies on one of them. */
  lemma PageBelow(addr: nat, ps: nat, pages: nat)
    requires 0 < ps && addr < pages * ps
    ensures addr / ps < pages
  {
    MulMonotone(pages, addr / ps, ps);
  }

  lemma PageStart(addr: nat, ps: nat, page: nat)
    requires 0 < ps && addr / ps < page
    ensures addr < page * ps
  {
    MulMonotone(addr / ps + 1, page, ps);
  }

  /** The tail after a record of `size` bytes was placed, and its address: on this page, or first on the next. */
  function Placed(page: nat, offset: nat, size: nat, ps: nat): (nat, nat, nat) {
    if offset + size <= ps then (page, offset + size, PageAddress(page, ps) + offset)
    else (page + 1, FIRST_VALID_ADDRESS + size, PageAddress(page + 1, ps) + FIRST_VALID_ADDRESS)
  }

  /** Where copying from `addr` stops: at the end of its page, or at `until`. */
  function PageEnd(addr: nat, ps: nat, until: nat): (end: nat)
    requires 0 < ps && addr < until
    ensures addr < end <= until
  {
    PageStart(addr, ps, addr / ps + 1);
    Min(until, addr / ps * ps + ps)
  }

  /** Two different pages share a slot of the buffer only `slots` pages apart. */
  lemma SlotReuse(earlier: nat, next: nat, slots: nat)
    requires 0 < slots && earlier < next && earlier % slots == next % slots
    ensures earlier + slots <= next
  {
    var a, b := earlier / slots, next / slots;
    MulMonotone(b, a, slots);
    MulMonotone(a + 1, b, slots);
  }

  // ---------------------------------------------------------------------
  // The drain list
  // ---------------------------------------------------------------------

  /** The actions whose epoch is at or below `safe`, in registration order. */
  function Ready(list: seq<Deferred>, safe: nat): (ready: seq<Deferred>)
    ensures forall d :: d in ready <==> d in list && d.epoch <= safe
  {
    if list == [] then []
    else if list[0].epoch <= safe then [list[0]] + Ready(list[1..], safe)
    else Ready(list[1..], safe)
  }

  /** The actions that must keep waiting. */
  function Waiting(list: seq<Deferred>, safe: nat): (waiting: seq<Deferred>)
    ensures forall d :: d in waiting <==> d in list && safe < d.epoch
  {
    if list == [] then []
    else if list[0].epoch <= safe then Waiting(list[1..], safe)
    else [list[0]] + Waiting(list[1..], safe)
  }

  class HybridLog<P> {
    const pageSize: nat
    const bufferSize: nat
    const mutablePages: nat

    // The packed tail word.
    var tailPage: nat
    var tailOffset: nat

    var beginAddress: nat
    var closedUntil: nat
    var safeHead: nat
    var head: nat
    var flushedUntil: nat
    var safeReadOnly: nat
    var readOnly: nat

    var pages: map<nat, Record<P>>
    var device: map<nat, Record<P>>

    // The epoch table: slot 0 belongs to the thread that runs the methods below.
    var current: nat
    var slots: seq<nat>
    var drainList: seq<Deferred>

    // Every record ever initialised, with its latest contents.
    ghost var records: map<nat, Record<P>>
    // Head as this thread found it when it last entered the epoch.
    ghost var entryHead: nat

    ghost function TailAddress(): nat
      reads this
    {
      PageAddress(tailPage, pageSize) + tailOffset
    }

    ghost predicate Geometry() {
      FIRST_VALID_ADDRESS < pageSize && 2 <= bufferSize && 1 <= mutablePages < bufferSize
    }

    /** The order of the address boundaries (log.rs:15-16), from ClosedUntil up. */
    ghost predicate BoundariesOrdered()
      reads this
    {
      && closedUntil <= safeHead <= head <= flushedUntil <= safeReadOnly <= readOnly <= TailAddress()
      && FIRST_VALID_ADDRESS <= tailOffset <= pageSize
      && FIRST_VALID_ADDRESS <= safeHead
      && beginAddress == FIRST_VALID_ADDRESS
    }

    /** Memory still holds every record the page buffer has not given up. */
    ghost predicate MemoryHolds()
      reads this
    {
      && (forall a :: a in records ==> FIRST_VALID_ADDRESS <= a < TailAddress())
      && (forall a :: a in records && closedUntil <= a ==> a in pages && pages[a] == records[a])
    }

    /** What has been flushed is the latest contents, up to the Sealed bit. */
    ghost predicate DeviceHolds()
      reads this
    {
      forall a :: a in records && a < flushedUntil ==> a in device && SameOnDisk(device[a], records[a])
    }

    /** Deferred actions never overtake the boundary they were issued for. */
    ghost predicate EpochOrdered(outstanding: seq<Deferred>)
      reads this
    {
      && 1 <= current && 1 <= |slots|
      && (forall i :: 0 <= i < |slots| ==> slots[i] <= current)
      && (forall d :: d in outstanding ==> d.epoch < current)
      && (forall d :: d in outstanding && d.action.PagesMarkedReadOnly? ==> d.action.addr <= readOnly)
      && (forall d :: d in outstanding && d.action.PagesClosed? ==> d.action.addr <= head)
      && (slots[0] != 0 ==>
            && closedUntil <= entryHead <= head
            && forall d :: d in outstanding && d.action.PagesClosed? && d.epoch < slots[0]
                       ==> d.action.addr <= entryHead)
    }

    /** A boundary that lags its published value has an action waiting for it. */
    ghost predicate NothingForgotten(outstanding: seq<Deferred>)
      reads this
    {
      && flushedUntil == safeReadOnly
      && safeHead < closedUntil + pageSize
      && (safeReadOnly != readOnly ==>
            exists d :: d in outstanding && d.action == PagesMarkedReadOnly(readOnly))
      && (safeHead != head ==> exists d :: d in outstanding && d.action == PagesClosed(head))
    }

    ghost predicate ValidWith(outstanding: seq<Deferred>)
      reads this
    {
      && Geometry() && BoundariesOrdered() && MemoryHolds() && DeviceHolds()
      && EpochOrdered(outstanding) && NothingForgotten(outstanding)
    }

    ghost predicate Valid()
      reads this
    {
      ValidWith(drainList)
    }

    ghost predicate NobodyProtected()
      reads this`slots
    {
      forall i :: 0 <= i < |slots| ==> slots[i] == 0
    }

    /** No thread but the one that runs the methods is inside the epoch. */
    ghost predicate NobodyElse()
      reads this`slots
    {
      forall i :: 1 <= i < |slots| ==> slots[i] == 0
    }

    constructor (pageSize: nat, bufferSize: nat, mutablePages: nat, threads: nat)
      requires FIRST_VALID_ADDRESS < pageSize && 2 <= bufferSize && 1 <= mutablePages < bufferSize
      requires 1 <= threads
      ensures Valid()
      ensures records == map[] && NobodyProtected()
      ensures this.pageSize == pageSize && beginAddress == FIRST_VALID_ADDRESS
    {
      this.pageSize, this.bufferSize, this.mutablePages := pageSize, bufferSize, mutablePages;
      tailPage, tailOffset := 0, FIRST_VALID_ADDRESS;
      beginAddress, closedUntil := FIRST_VALID_ADDRESS, 0;
      safeHead, head, flushedUntil := FIRST_VALID_ADDRESS, FIRST_VALID_ADDRESS, FIRST_VALID_ADDRESS;
      safeReadOnly, readOnly := FIRST_VALID_ADDRESS, FIRST_VALID_ADDRESS;
      pages, device, records := map[], map[], map[];
      current, slots, drainList := 1, seq(threads, _ => 0), [];
      entryHead := 0;
    }

    /** Only which actions are outstanding matters, not their order. */
    lemma SameOutstanding(xs: seq<Deferred>, ys: seq<Deferred>)
      requires ValidWith(xs) && forall d :: d in xs <==> d in ys
      ensures ValidWith(ys)
    {
    }

    // -------------------------------------------------------------------
    // Epochs (epoch.rs)
    // -------------------------------------------------------------------

    method Protect()
      requires Valid()
      modifies this`slots, this`entryHead
      ensures Valid() && slots == old(slots)[0 := current] && entryHead == head
    {
      slots := slots[0 := current];
      entryHead := head;
    }

    /** Another thread enters with an epoch it once loaded, or leaves with 0. */
    method SetOtherSlot(thread: nat, epoch: nat)
      requires Valid() && 0 < thread < |slots| && epoch <= current
      modifies this`slots
      ensures Valid() && slots == old(slots)[thread := epoch]
    {
      slots := slots[thread := epoch];
    }

    method Unprotect()
      requires Valid()
      modifies this`slots
      ensures Valid() && slots == old(slots)[0 := 0]
    {
      slots := slots[0 := 0];
    }

    /** One less than the lowest published epoch, or than the current one. */
    method ComputeSafeEpoch() returns (safe: nat)
      requires 1 <= current
      ensures safe < current
      ensures forall i :: 0 <= i < |slots| && slots[i] != 0 ==> safe < slots[i]
      ensures safe + 1 == current || safe + 1 in slots
    {
      var min := current;
      var i := 0;
      while i < |slots|
        invariant 0 <= i <= |slots|
        invariant 1 <= min <= current
        invariant forall j :: 0 <= j < i && slots[j] != 0 ==> min <= slots[j]
        invariant min == current || min in slots
      {
        if slots[i] != 0 && slots[i] < min {
          min := slots[i];
        }
        i := i + 1;
      }
      safe := min - 1;
    }

    /** Copy `[flushedUntil, until)` to the device, one page at a time. */
    method FlushUntil(until: nat)
      requires Geometry() && BoundariesOrdered() && MemoryHolds() && DeviceHolds()
      modifies this`device, this`flushedUntil
      ensures flushedUntil == Max(old(flushedUntil), until)
      ensures DeviceHolds()
    {
      var from := flushedUntil;
      if until <= from {
        return;
      }
      var addr := from;
      while addr < until
        invariant from <= addr <= until
        invariant flushedUntil == from
        invariant forall a :: a in records && a < addr ==> a in device && SameOnDisk(device[a], records[a])
      {
        var end := PageEnd(addr, pageSize, until);
        device := device + map a | a in pages && addr <= a < end :: pages[a];
        addr := end;
      }
      flushedUntil := until;
    }

    /** The deferred half of a ReadOnly shift: the last writer in place has gone, so the pages can be flushed. */
    method OnPagesMarkedReadOnly(d: Deferred, ghost outstanding: seq<Deferred>)
      requires d.action.PagesMarkedReadOnly? && ValidWith([d] + outstanding)
      modifies this`device, this`flushedUntil, this`safeReadOnly
      ensures ValidWith(outstanding)
      ensures safeReadOnly == Max(old(safeReadOnly), d.action.addr)
      ensures flushedUntil == Max(old(flushedUntil), d.action.addr)
      ensures old(flushedUntil) <= flushedUntil && old(closedUntil) <= closedUntil
    {
      assert d in [d] + outstanding;
      assert forall e :: e in outstanding ==> e in [d] + outstanding;
      safeReadOnly := Max(safeReadOnly, d.action.addr);
      FlushUntil(d.action.addr);
    }

    /** The deferred half of a Head shift: the last reader in memory has gone, so whole pages can be closed. */
    method OnPagesClosed(d: Deferred, ghost outstanding: seq<Deferred>)
      requires d.action.PagesClosed? && ValidWith([d] + outstanding)
      requires slots[0] != 0 ==> d.epoch < slots[0]
      modifies this`safeHead, this`closedUntil
      ensures ValidWith(outstanding)
      ensures safeHead == Max(old(safeHead), d.action.addr)
      ensures d.action.addr < closedUntil + pageSize && (old(closedUntil) < closedUntil ==> closedUntil <= d.action.addr)
      ensures old(flushedUntil) <= flushedUntil && old(closedUntil) <= closedUntil
    {
      assert d in [d] + outstanding;
      assert forall e :: e in outstanding ==> e in [d] + outstanding;
      var newHead := d.action.addr;
      safeHead := Max(safeHead, newHead);
      ghost var before := closedUntil;
      while closedUntil + pageSize <= newHead
        invariant before <= closedUntil <= Max(before, newHead)
        invariant safeHead == Max(old(safeHead), newHead)
        decreases newHead - closedUntil
      {
        closedUntil := closedUntil + pageSize;
      }
    }

    method RunAll(ready: seq<Deferred>)
      requires ValidWith(ready + drainList)
      requires slots[0] != 0 ==> forall d :: d in ready ==> d.epoch < slots[0]
      modifies this`safeHead, this`closedUntil, this`device, this`flushedUntil, this`safeReadOnly
      ensures Valid()
      ensures old(flushedUntil) <= flushedUntil && old(closedUntil) <= closedUntil
    {
      var i := 0;
      assert ready[0..] == ready;
      while i < |ready|
        invariant 0 <= i <= |ready|
        invariant ValidWith(ready[i..] + drainList)
        invariant old(flushedUntil) <= flushedUntil && old(closedUntil) <= closedUntil
      {
        assert ready[i..] + drainList == [ready[i]] + (ready[i + 1..] + drainList);
        assert ready[i] in ready;
        match ready[i].action {
          case PagesMarkedReadOnly(_) => OnPagesMarkedReadOnly(ready[i], ready[i + 1..] + drainList);
          case PagesClosed(_) => OnPagesClosed(ready[i], ready[i + 1..] + drainList);
        }
        i := i + 1;
      }
      assert ready[i..] + drainList == drainList;
    }

    /** Take the actions at or below `safe` off the list. */
    method TakeReady(safe: nat) returns (ready: seq<Deferred>)
      requires Valid()
      modifies this`drainList
      ensures ValidWith(ready + drainList)
      ensures forall d :: d in ready <==> d in old(drainList) && d.epoch <= safe
      ensures forall d :: d in drainList <==> d in old(drainList) && safe < d.epoch
      ensures safe + 1 == current ==> drainList == []
    {
      var all := drainList;
      ready := Ready(all, safe);
      drainList := Waiting(all, safe);
      assert 0 < |drainList| ==> drainList[0] in drainList && drainList[0] in all;
      SameOutstanding(all, ready + drainList);
    }

    /** Run every action whose epoch no thread can still be in. */
    method Drain()
      requires Valid()
      modifies this`safeHead, this`closedUntil, this`device, this`flushedUntil, this`safeReadOnly, this`drainList
      ensures Valid()
      ensures old(flushedUntil) <= flushedUntil && old(closedUntil) <= closedUntil
      ensures NobodyProtected() ==> drainList == []
    {
      var safe := ComputeSafeEpoch();
      var ready := TakeReady(safe);
      RunAll(ready);
    }

    method BumpCurrentEpoch()
      requires Valid()
      modifies this`current
      modifies this`safeHead, this`closedUntil, this`device, this`flushedUntil, this`safeReadOnly, this`drainList
      ensures Valid() && current == old(current) + 1
      ensures old(flushedUntil) <= flushedUntil && old(closedUntil) <= closedUntil
      ensures NobodyProtected() ==> drainList == []
    {
      current := current + 1;
      if 0 < |drainList| {
        Drain();
      }
    }

    method BumpWithAction(action: Action)
      requires Geometry() && BoundariesOrdered() && MemoryHolds() && DeviceHolds() && EpochOrdered(drainList)
      requires NothingForgotten(drainList + [Deferred(current, action)])
      requires action.addr <= if action.PagesClosed? then head else readOnly
      modifies this`current
      modifies this`safeHead, this`closedUntil, this`device, this`flushedUntil, this`safeReadOnly, this`drainList
      ensures Valid() && current == old(current) + 1
      ensures old(flushedUntil) <= flushedUntil && old(closedUntil) <= closedUntil
      ensures NobodyProtected() ==> drainList == []
    {
      var prior := current;
      drainList := drainList + [Deferred(prior, action)];
      current := current + 1;
      Drain();
    }

    // -------------------------------------------------------------------
    // Boundary shifts (log.rs:307-433)
    // -------------------------------------------------------------------

    method ShiftReadOnlyAddress(newReadOnly: nat) returns (shifted: bool)
      requires Valid() && newReadOnly <= TailAddress()
      modifies this`readOnly, this`current
      modifies this`safeHead, this`closedUntil, this`device, this`flushedUntil, this`safeReadOnly, this`drainList
      ensures Valid() && readOnly == Max(old(readOnly), newReadOnly)
      ensures old(flushedUntil) <= flushedUntil && old(closedUntil) <= closedUntil
      ensures shifted == (old(readOnly) < newReadOnly)
      ensures NobodyProtected() && old(drainList) == [] ==> drainList == []
    {
      if newReadOnly <= readOnly {
        return false;
      }
      readOnly := newReadOnly;
      assert Deferred(current, PagesMarkedReadOnly(newReadOnly)) in drainList + [Deferred(current, PagesMarkedReadOnly(newReadOnly))];
      BumpWithAction(PagesMarkedReadOnly(newReadOnly));
      return true;
    }

    method ShiftHeadAddress(desired: nat) returns (shifted: bool)
      requires Valid()
      modifies this`head, this`current
      modifies this`safeHead, this`closedUntil, this`device, this`flushedUntil, this`safeReadOnly, this`drainList
      ensures Valid() && head == Max(old(head), Min(desired, old(flushedUntil)))
      ensures old(flushedUntil) <= flushedUntil && old(closedUntil) <= closedUntil
      ensures NobodyProtected() && old(drainList) == [] ==> drainList == []
    {
      var newHead := Min(desired, flushedUntil);
      if newHead <= head {
        return false;
      }
      head := newHead;
      assert Deferred(current, PagesClosed(newHead)) in drainList + [Deferred(current, PagesClosed(newHead))];
      BumpWithAction(PagesClosed(newHead));
      return true;
    }

    function DesiredHead(next: nat): nat {
      PageAddress(Excess(next + 2, bufferSize), pageSize)
    }

    function DesiredReadOnly(next: nat): nat {
      Max(PageAddress(Excess(next + 1, mutablePages), pageSize), DesiredHead(next))
    }

    lemma DesiredBounds(next: nat)
      requires Geometry()
      ensures DesiredHead(next) <= DesiredReadOnly(next) <= PageAddress(next, pageSize)
    {
      PageAddressMonotone(Excess(next + 1, mutablePages), next, pageSize);
      PageAddressMonotone(Excess(next + 2, bufferSize), next, pageSize);
    }

    method IssueShiftAddresses(next: nat)
      requires Valid() && PageAddress(next, pageSize) <= TailAddress()
      modifies this`readOnly, this`head, this`current
      modifies this`safeHead, this`closedUntil, this`device, this`flushedUntil, this`safeReadOnly, this`drainList
      ensures Valid()
      ensures old(flushedUntil) <= flushedUntil && old(closedUntil) <= closedUntil
      ensures readOnly == Max(old(readOnly), DesiredReadOnly(next))
      ensures old(head) <= head && Min(DesiredHead(next), old(flushedUntil)) <= head
    {
      DesiredBounds(next);
      var desiredReadOnly, desiredHead := DesiredReadOnly(next), DesiredHead(next);
      ShiftBoth(desiredReadOnly, desiredHead);
    }

    method ShiftBoth(desiredReadOnly: nat, desiredHead: nat)
      requires Valid() && desiredReadOnly <= TailAddress()
      modifies this`readOnly, this`head, this`current
      modifies this`safeHead, this`closedUntil, this`device, this`flushedUntil, this`safeReadOnly, this`drainList
      ensures Valid()
      ensures old(flushedUntil) <= flushedUntil && old(closedUntil) <= closedUntil
      ensures readOnly == Max(old(readOnly), desiredReadOnly)
      ensures old(head) <= head && Min(desiredHead, old(flushedUntil)) <= head
    {
      if readOnly < desiredReadOnly {
        var _ := ShiftReadOnlyAddress(desiredReadOnly);
      }
      if head < desiredHead {
        var _ := ShiftHeadAddress(desiredHead);
      }
    }

    // -------------------------------------------------------------------
    // Allocation (log.rs:248-305)
    // -------------------------------------------------------------------

    ghost predicate PageFree(page: nat)
      reads this`closedUntil
    {
      page < bufferSize || PageAddress(page - bufferSize + 1, pageSize) <= closedUntil
    }

    method PageIsFree(page: nat) returns (free: bool)
      ensures free == PageFree(page)
    {
      free := page < bufferSize || PageAddress(page - bufferSize + 1, pageSize) <= closedUntil;
    }

    /** The bytes that make room for a new page are all below ClosedUntil. */
    lemma ZeroedPageIsClosed(next: nat, a: nat)
      requires Valid() && PageFree(next) && a < PageAddress(next, pageSize)
      requires a / pageSize % bufferSize == next % bufferSize
      ensures a < closedUntil
    {
      PageBelow(a, pageSize, next);
      SlotReuse(a / pageSize, next, bufferSize);
      PageStart(a, pageSize, next - bufferSize + 1);
    }

    /** Zero the buffer slot that `next` takes over and move the tail onto it. */
    method TurnPage(next: nat, size: nat)
      requires Valid() && PageFree(next) && next == tailPage + 1
      requires FIRST_VALID_ADDRESS + size <= pageSize
      modifies this`pages, this`tailPage, this`tailOffset
      ensures Valid() && tailPage == next && tailOffset == FIRST_VALID_ADDRESS + size
    {
      PageAddressMonotone(tailPage, next, pageSize);
      forall a | a in records && a / pageSize % bufferSize == next % bufferSize
        ensures a < closedUntil
      {
        ZeroedPageIsClosed(next, a);
      }
      pages := map a | a in pages && a / pageSize % bufferSize != next % bufferSize :: pages[a];
      tailPage, tailOffset := next, FIRST_VALID_ADDRESS + size;
    }

    /** Move the tail forward on its page. */
    method SetTailOffset(offset: nat)
      requires Valid() && tailOffset <= offset <= pageSize
      modifies this`tailOffset
      ensures Valid() && tailOffset == offset
    {
      tailOffset := offset;
    }

    /** The next page is taken: park the tail at the page end and push the shifts. */
    method WaitForPage()
      requires Valid()
      modifies this`tailOffset, this`readOnly, this`head, this`current
      modifies this`safeHead, this`closedUntil, this`device, this`flushedUntil, this`safeReadOnly, this`drainList
      ensures Valid() && tailOffset == pageSize
      ensures DesiredReadOnly(tailPage + 1) <= readOnly
      ensures Min(DesiredHead(tailPage + 1), old(flushedUntil)) <= head
      ensures old(readOnly) <= readOnly && old(head) <= head
      ensures old(flushedUntil) <= flushedUntil && old(closedUntil) <= closedUntil
    {
      SetTailOffset(pageSize);
      PageAddressMonotone(tailPage, tailPage + 1, pageSize);
      IssueShiftAddresses(tailPage + 1);
    }

    /** The owner of a page turn allocates first on the page it opens. */
    method StartPage(size: nat) returns (addr: nat)
      requires Valid() && PageFree(tailPage + 1)
      requires FIRST_VALID_ADDRESS + size <= pageSize
      modifies this`pages, this`tailPage, this`tailOffset
      modifies this`readOnly, this`head, this`current
      modifies this`safeHead, this`closedUntil, this`device, this`flushedUntil, this`safeReadOnly, this`drainList
      ensures Valid() && tailPage == old(tailPage) + 1 && tailOffset == FIRST_VALID_ADDRESS + size
      ensures addr == PageAddress(tailPage, pageSize) + FIRST_VALID_ADDRESS
      ensures old(TailAddress()) <= addr && addr + size == TailAddress() && readOnly <= addr
      ensures old(readOnly) <= readOnly && old(head) <= head
      ensures old(flushedUntil) <= flushedUntil && old(closedUntil) <= closedUntil
    {
      PageAddressMonotone(tailPage, tailPage + 1, pageSize);
      TurnPage(tailPage + 1, size);
      addr := PageAddress(tailPage, pageSize) + FIRST_VALID_ADDRESS;
      DesiredBounds(tailPage);
      IssueShiftAddresses(tailPage);
    }

    /** The record goes behind the others on the page that is open. */
    method StayOnPage(size: nat) returns (addr: nat)
      requires Valid() && tailOffset + size <= pageSize
      modifies this`tailOffset
      ensures Valid() && tailOffset == old(tailOffset) + size
      ensures addr == PageAddress(tailPage, pageSize) + old(tailOffset)
      ensures old(TailAddress()) <= addr && addr + size == TailAddress() && readOnly <= addr
      ensures PageAddress(tailPage, pageSize) + FIRST_VALID_ADDRESS <= addr
    {
      addr := PageAddress(tailPage, pageSize) + tailOffset;
      SetTailOffset(tailOffset + size);
    }

    /** How many boundaries still have to move before the next page can be free. */
    ghost function Pending(): nat
      reads this`head, this`readOnly, this`tailPage
    {
      if DesiredHead(tailPage + 1) <= head then 0
      else if DesiredHead(tailPage + 1) <= readOnly then 1
      else 2
    }

    /** How many times an allocation may still have to wait if nobody else is inside the epoch. */
    ghost function Rank(): (rank: nat)
      reads this`head, this`readOnly, this`tailPage, this`drainList
      ensures rank <= 3
    {
      if drainList == [] then Pending() else 3
    }

    /** With every action run, a page that is not free wants Head to move. */
    lemma NotFreeIsPending()
      requires Valid() && drainList == [] && !PageFree(tailPage + 1)
      ensures 0 < Pending() && flushedUntil == readOnly
    {
      HeadRoom(tailPage + 1);
    }

    /** A record that this page size can hold at all (log.rs:261-264). */
    predicate FitsPage(size: nat) {
      FIRST_VALID_ADDRESS + size <= pageSize
    }

    /** The page turn cannot be taken yet. */
    method RefusePage()
      requires Valid() && !PageFree(tailPage + 1)
      modifies this`tailOffset, this`readOnly, this`head, this`current
      modifies this`safeHead, this`closedUntil, this`device, this`flushedUntil, this`safeReadOnly, this`drainList
      ensures Valid() && tailOffset == pageSize
      ensures DesiredReadOnly(tailPage + 1) <= readOnly
      ensures Min(DesiredHead(tailPage + 1), old(flushedUntil)) <= head
      ensures old(readOnly) <= readOnly && old(head) <= head
      ensures old(flushedUntil) <= flushedUntil && old(closedUntil) <= closedUntil
      ensures Pending() < old(Rank())
    {
      if drainList == [] {
        NotFreeIsPending();
      }
      DesiredBounds(tailPage + 1);
      WaitForPage();
    }

    /** The record does not fit on the page that is open. */
    method CrossPage(size: nat) returns (r: AllocResult)
      requires Valid() && FitsPage(size)
      modifies this`pages, this`tailPage, this`tailOffset
      modifies this`readOnly, this`head, this`current
      modifies this`safeHead, this`closedUntil, this`device, this`flushedUntil, this`safeReadOnly, this`drainList
      ensures Valid() && !r.TooLarge?
      ensures r.RetryLater? <==> !old(PageFree(tailPage + 1))
      ensures r.Allocated? ==> tailPage == old(tailPage) + 1 && tailOffset == FIRST_VALID_ADDRESS + size
      ensures r.Allocated? ==> r.addr == PageAddress(tailPage, pageSize) + FIRST_VALID_ADDRESS
      ensures r.Allocated? ==> old(TailAddress()) <= r.addr && r.addr + size == TailAddress() && readOnly <= r.addr
      ensures r.RetryLater? ==>
                && tailPage == old(tailPage) && tailOffset == pageSize
                && DesiredReadOnly(tailPage + 1) <= readOnly
                && Min(DesiredHead(tailPage + 1), old(flushedUntil)) <= head
      ensures r.RetryLater? ==> Pending() < old(Rank())
      ensures old(readOnly) <= readOnly && old(head) <= head
      ensures old(flushedUntil) <= flushedUntil && old(closedUntil) <= closedUntil
    {
      var free := PageIsFree(tailPage + 1);
      if !free {
        RefusePage();
        return RetryLater;
      }
      var addr := StartPage(size);
      return Allocated(addr);
    }

    /**
      Reserve `size` bytes at the tail. RetryNow, which needs another thread in
      the middle of a page turn, is left to the concurrent allocator.
     */
    method TryAllocate(size: nat) returns (r: AllocResult)
      requires Valid() && 0 < size
      modifies this`pages, this`tailPage, this`tailOffset
      modifies this`readOnly, this`head, this`current
      modifies this`safeHead, this`closedUntil, this`device, this`flushedUntil, this`safeReadOnly, this`drainList
      ensures Valid()
      ensures r.TooLarge? <==> !FitsPage(size)
      ensures r.RetryLater? <==> FitsPage(size) && old(pageSize < tailOffset + size && !PageFree(tailPage + 1))
      ensures r.Allocated? ==> (tailPage, tailOffset, r.addr) == Placed(old(tailPage), old(tailOffset), size, pageSize)
      ensures r.Allocated? ==> old(TailAddress()) <= r.addr && r.addr + size == TailAddress()
      ensures r.Allocated? ==> readOnly <= r.addr
      ensures r.Allocated? ==> PageAddress(tailPage, pageSize) + FIRST_VALID_ADDRESS <= r.addr
      ensures r.RetryLater? ==>
                && tailPage == old(tailPage) && tailOffset == pageSize
                && DesiredReadOnly(tailPage + 1) <= readOnly
                && Min(DesiredHead(tailPage + 1), old(flushedUntil)) <= head
      ensures r.RetryLater? ==> Pending() < old(Rank())
      ensures r.TooLarge? ==> TailAddress() == old(TailAddress()) && drainList == old(drainList)
      ensures old(readOnly) <= readOnly && old(head) <= head
      ensures old(flushedUntil) <= flushedUntil && old(closedUntil) <= closedUntil
    {
      if !FitsPage(size) {
        return TooLarge;
      }
      if tailOffset + size <= pageSize {
        var addr := StayOnPage(size);
        return Allocated(addr);
      }
      r := CrossPage(size);
    }

    /** With no thread protected, one bump runs everything that was deferred. */
    method BackOffAlone()
      requires Valid() && NobodyProtected()
      modifies this`current
      modifies this`safeHead, this`closedUntil, this`device, this`flushedUntil, this`safeReadOnly, this`drainList
      ensures Valid() && flushedUntil == readOnly && safeHead == head
    {
      BumpCurrentEpoch();
    }

    method AllocateProtected(size: nat) returns (r: AllocResult)
      requires Valid() && 0 < size && FitsPage(size)
      requires NobodyProtected()
      modifies this
      ensures Valid() && records == old(records) && slots == old(slots) && !r.TooLarge?
      ensures r.Allocated? ==> old(TailAddress()) <= r.addr && r.addr + size == TailAddress()
      ensures r.RetryLater? ==>
                && !old(PageFree(tailPage + 1))
                && tailPage == old(tailPage) && tailOffset == pageSize
                && DesiredHead(tailPage + 1) <= readOnly
                && Min(DesiredHead(tailPage + 1), old(flushedUntil)) <= head
    {
      hide PageFree, PageAddress, MemoryHolds, DeviceHolds, NothingForgotten;
      Protect();
      r := TryAllocate(size);
      DesiredBounds(tailPage + 1);
      Unprotect();
    }

    /** One attempt by the only protected thread, with the back-off after RetryLater (store.rs:604-682). */
    method AttemptAlone(size: nat) returns (r: AllocResult)
      requires Valid() && 0 < size && FitsPage(size)
      requires NobodyProtected()
      modifies this
      ensures Valid() && records == old(records) && !r.TooLarge?
      ensures NobodyProtected()
      ensures r.Allocated? ==> old(TailAddress()) <= r.addr && r.addr + size == TailAddress()
      ensures r.RetryLater? ==> !old(PageFree(tailPage + 1))
      ensures r.RetryLater? ==> tailPage == old(tailPage) && tailOffset == pageSize
      ensures r.RetryLater? ==> old(TailAddress()) <= TailAddress()
      ensures r.RetryLater? ==> DesiredHead(tailPage + 1) <= flushedUntil
      ensures r.RetryLater? && DesiredHead(tailPage + 1) <= old(flushedUntil) ==> PageFree(tailPage + 1)
    {
      r := AllocateProtected(size);
      if r.Allocated? {
        return;
      }
      BackOffAlone();
      HeadRoom(tailPage + 1);
    }

    /** With no other thread protected, an allocation sees RetryLater at most twice. */
    method AllocateAlone(size: nat) returns (addr: nat, retries: nat)
      requires Valid() && 0 < size && FitsPage(size)
      requires NobodyProtected()
      modifies this
      ensures Valid() && records == old(records)
      ensures retries <= 2
      ensures old(TailAddress()) <= addr && addr + size == TailAddress()
    {
      ghost var tail := TailAddress();
      retries := 0;
      var r := AttemptAlone(size);
      while r.RetryLater?
        invariant Valid() && records == old(records) && !r.TooLarge?
        invariant NobodyProtected()
        invariant retries <= if r.RetryLater? then 1 else 2
        invariant r.RetryLater? ==> tail <= TailAddress()
        invariant r.RetryLater? ==> DesiredHead(tailPage + 1) <= flushedUntil
        invariant r.RetryLater? && 1 <= retries ==> PageFree(tailPage + 1)
        invariant r.Allocated? ==> tail <= r.addr && r.addr + size == TailAddress()
        decreases r.RetryLater?, 2 - retries
      {
        retries := retries + 1;
        r := AttemptAlone(size);
      }
      addr := r.addr;
    }

    /** Once SafeHead has reached the head a page turn asks for, the page is free. */
    lemma HeadRoom(next: nat)
      requires Geometry() && safeHead < closedUntil + pageSize
      ensures DesiredHead(next) <= safeHead ==> PageFree(next)
    {
      if bufferSize <= next {
        PageAddressMonotone(next - bufferSize + 1, next, pageSize);
      }
    }

    // -------------------------------------------------------------------
    // Records
    // -------------------------------------------------------------------

    /** Fill a fresh record, or overwrite one in the mutable region. */
    method Put(addr: nat, rec: Record<P>)
      requires Valid() && FIRST_VALID_ADDRESS <= addr && readOnly <= addr < TailAddress()
      modifies this`pages, this`records
      ensures Valid() && records == old(records)[addr := rec]
    {
      pages := pages[addr := rec];
      records := records[addr := rec];
    }

    /** Set the Sealed bit of a record the page buffer still holds (record.rs:117-135). */
    method TrySeal(addr: nat)
      requires Valid() && addr in records && closedUntil <= addr
      modifies this`pages, this`records
      ensures Valid()
      ensures records == old(records)[addr := Sealed(old(records[addr]))]
    {
      pages := pages[addr := Sealed(pages[addr])];
      records := records[addr := Sealed(records[addr])];
    }
  }
}
