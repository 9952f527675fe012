/**
  A log as it comes to be (crates/tsavorite/src/log.rs:258-305, 307-453): records
  placed at the tail by the allocator and filled in, updated in memory, copied to
  the device up to a shift target, and given up page by page when the circular
  buffer turns. Placing and filling a record is one step. Whatever the steps,
  a scan of the log finds the records that were put there.
 */
module ScanRun {
  import opened Bytes
  import opened HybridLogs
  import opened RecordLayout
  import opened Scan

  /** The records of a page: as memory has them, and as the device will have them once they are flushed. */
  datatype Page = Page(latest: seq<seq<Byte>>, disk: seq<seq<Byte>>)

  /**
    `frames` is the circular page buffer and `device` the file, page by page;
    `closed` pages have been given up. `pages` and `tails` are history: what was
    put where, and every address the tail has had.
   */
  datatype State = State(ps: nat, frames: seq<seq<Byte>>, device: seq<seq<Byte>>, tailOffset: nat,
                         closed: nat, head: nat, flushed: nat, pages: seq<Page>, tails: set<nat>)

  datatype Step =
    | Append(image: seq<Byte>)
    | Refuse(size: nat)
    | Flush(target: nat)
    | ShiftHead(target: nat)
    | Close(pages: nat)
    | Rewrite(page: nat, k: nat, image: seq<Byte>)

  function Write(bytes: seq<Byte>, off: nat, r: seq<Byte>): (w: seq<Byte>)
    requires off + |r| <= |bytes|
    ensures |w| == |bytes|
  {
    bytes[..off] + r + bytes[off + |r|..]
  }

  /** How far an address reaches into a page. */
  function Offset(a: nat, page: nat, ps: nat): (o: nat)
    ensures o <= ps
  {
    PageAddressMonotone(page, page, ps);
    Excess(Min(a, PageAddress(page + 1, ps)), PageAddress(page, ps))
  }

  function Slot(s: State, page: nat): (slot: nat)
    requires 0 < |s.frames|
    ensures slot < |s.frames|
  {
    page % |s.frames|
  }

  function TailPage(s: State): nat
    requires s.pages != []
  {
    |s.pages| - 1
  }

  function Tail(s: State): nat
    requires s.pages != []
  {
    PageAddress(TailPage(s), s.ps) + s.tailOffset
  }

  /** `page_is_free` for the page after the last. */
  predicate NextIsFree(s: State) {
    |s.pages| < |s.frames| || |s.pages| - |s.frames| + 1 <= s.closed
  }

  ghost predicate Enabled(s: State, step: Step)
    requires Inv(s)
  {
    match step
    case Append(image) =>
      && IsRecord(image) && FIRST_VALID_ADDRESS + |image| <= s.ps
      && (s.ps < s.tailOffset + |image| ==> NextIsFree(s))
    case Refuse(size) => s.ps < s.tailOffset + size && !NextIsFree(s)
    case Flush(target) => s.flushed < target <= Tail(s) && (target in s.tails || IsPageStart(target, s.ps))
    case ShiftHead(target) => s.head <= target <= s.flushed && (target == s.flushed || IsPageStart(target, s.ps))
    case Close(pages) => s.closed <= pages && PageAddress(pages, s.ps) <= s.head
    case Rewrite(p, k, image) =>
      && s.closed <= p < |s.pages| && k < |s.pages[p].latest|
      && IsRecord(image) && |image| == |s.pages[p].latest[k]|
  }

  ghost predicate IsPageStart(a: nat, ps: nat) {
    exists p: nat :: a == PageAddress(p, ps)
  }

  /** The bytes of a page after those of `[from, until)` were copied to the device. */
  function Copied(device: seq<Byte>, frame: seq<Byte>, from: nat, until: nat): (bytes: seq<Byte>)
    requires from <= until <= |frame| == |device|
    ensures |bytes| == |device|
  {
    device[..from] + frame[from..until] + device[until..]
  }

  function FlushedPage(page: Page, from: nat, until: nat): Page
    requires |page.latest| == |page.disk|
  {
    page.(disk := seq(|page.disk|, k requires 0 <= k < |page.disk| =>
      if from <= At(page.latest, k) && At(page.latest, k + 1) <= until then page.latest[k] else page.disk[k]))
  }

  function Do(s: State, step: Step): State
    requires Inv(s) && Enabled(s, step)
  {
    match step
    case Append(image) =>
      var (page, offset, _) := Placed(TailPage(s), s.tailOffset, |image|, s.ps);
      if page == TailPage(s) then AppendHere(s, image, offset) else AppendNext(s, image, offset)
    case Refuse(_) => s.(tailOffset := s.ps, tails := s.tails + {PageAddress(|s.pages|, s.ps)})
    case Flush(target) =>
      s.(flushed := target,
         device := seq(|s.device|, p requires 0 <= p < |s.device| =>
           CopiedOf(s, p, target)),
         pages := seq(|s.pages|, p requires 0 <= p < |s.pages| =>
           FlushedPage(s.pages[p], Offset(s.flushed, p, s.ps), Max(Offset(s.flushed, p, s.ps), Offset(target, p, s.ps)))))
    case ShiftHead(target) => s.(head := target)
    case Close(pages) => s.(closed := pages)
    case Rewrite(p, k, image) =>
      var page := s.pages[p];
      AtWithin(page.latest, k, s.ps);
      s.(frames := s.frames[Slot(s, p) := Write(s.frames[Slot(s, p)], At(page.latest, k), image)],
         pages := s.pages[p := page.(latest := page.latest[k := image])])
  }

  function CopiedOf(s: State, p: nat, target: nat): (bytes: seq<Byte>)
    requires Shape(s) && p < |s.device|
    ensures |bytes| == s.ps
  {
    var from := Offset(s.flushed, p, s.ps);
    Copied(s.device[p], s.frames[Slot(s, p)], from, Max(from, Offset(target, p, s.ps)))
  }

  function AppendHere(s: State, image: seq<Byte>, offset: nat): State
    requires Shape(s) && s.tailOffset + |image| <= s.ps
  {
    var p := TailPage(s);
    s.(tailOffset := offset, tails := s.tails + {PageAddress(p, s.ps) + offset},
       frames := s.frames[Slot(s, p) := Write(s.frames[Slot(s, p)], s.tailOffset, image)],
       pages := s.pages[p := Page(s.pages[p].latest + [image], s.pages[p].disk + [image])])
  }

  function AppendNext(s: State, image: seq<Byte>, offset: nat): State
    requires Shape(s) && FIRST_VALID_ADDRESS + |image| <= s.ps
  {
    var p := |s.pages|;
    s.(tailOffset := offset, tails := s.tails + {PageAddress(p, s.ps) + offset},
       frames := s.frames[Slot(s, p) := Write(Zeros(s.ps), FIRST_VALID_ADDRESS, image)],
       device := s.device + [Zeros(s.ps)],
       pages := s.pages + [Page([image], [image])])
  }

  function Init(ps: nat, slots: nat): State {
    State(ps, seq(slots, _ => Zeros(ps)), [Zeros(ps)], FIRST_VALID_ADDRESS, 0,
          FIRST_VALID_ADDRESS, FIRST_VALID_ADDRESS, [Page([], [])], {FIRST_VALID_ADDRESS})
  }

  // ---------------------------------------------------------------------
  // What every run keeps
  // ---------------------------------------------------------------------

  ghost predicate Shape(s: State) {
    && FIRST_VALID_ADDRESS < s.ps && 2 <= |s.frames| && 0 < |s.pages| == |s.device|
    && (forall f :: 0 <= f < |s.frames| ==> |s.frames[f]| == s.ps)
    && (forall p :: 0 <= p < |s.device| ==> |s.device[p]| == s.ps)
    && (forall p :: 0 <= p < |s.pages| ==> PageShape(s.pages[p], s.ps))
  }

  ghost predicate PageShape(page: Page, ps: nat) {
    && |page.disk| == |page.latest| && At(page.latest, |page.latest|) <= ps
    && forall k :: 0 <= k < |page.latest| ==>
         IsRecord(page.latest[k]) && IsRecord(page.disk[k]) && |page.disk[k]| == |page.latest[k]|
  }

  ghost predicate Bounds(s: State)
    requires Shape(s)
  {
    && PageAddress(s.closed, s.ps) <= s.head <= s.flushed <= Tail(s)
    && |s.pages| <= s.closed + |s.frames|
    && (s.tailOffset == s.ps || s.tailOffset == At(s.pages[TailPage(s)].latest, |s.pages[TailPage(s)].latest|))
  }

  /** A page offset at which no record is cut in two. */
  ghost predicate Cut(records: seq<seq<Byte>>, o: nat, ps: nat) {
    o == 0 || o == ps || exists k: nat :: k <= |records| && o == At(records, k)
  }

  ghost predicate CutsAll(s: State, a: nat)
    requires Shape(s)
  {
    forall p :: 0 <= p < |s.pages| ==> Cut(s.pages[p].latest, Offset(a, p, s.ps), s.ps)
  }

  ghost predicate Cuts(s: State)
    requires Shape(s)
  {
    CutsAll(s, s.flushed) && forall t :: t in s.tails ==> t <= Tail(s) && CutsAll(s, t)
  }

  /** Memory holds all records of the page, and zeros behind them. */
  ghost predicate MemHolds(bytes: seq<Byte>, records: seq<seq<Byte>>) {
    && At(records, |records|) <= |bytes| && Holds(bytes, records, 0, |records|)
    && forall x: nat :: At(records, |records|) <= x < |bytes| ==> bytes[x] == 0
  }

  /** The device holds the records that end by `upto`, and zeros behind the last as far as that. */
  ghost predicate DevHolds(bytes: seq<Byte>, records: seq<seq<Byte>>, upto: nat) {
    && upto <= |bytes|
    && (forall k: nat :: k < |records| && At(records, k + 1) <= upto ==> HoldsAt(bytes, records, k))
    && (forall x: nat :: At(records, |records|) <= x < upto ==> bytes[x] == 0)
  }

  ghost predicate Memory(s: State)
    requires Shape(s)
  {
    forall p :: s.closed <= p < |s.pages| ==> MemHolds(s.frames[Slot(s, p)], s.pages[p].latest)
  }

  ghost predicate Device(s: State)
    requires Shape(s)
  {
    forall p :: 0 <= p < |s.pages| ==> DevHolds(s.device[p], s.pages[p].disk, Offset(s.flushed, p, s.ps))
  }

  ghost predicate Inv(s: State) {
    Shape(s) && Bounds(s) && Cuts(s) && Memory(s) && Device(s)
  }

  // ---------------------------------------------------------------------
  // Offsets of records
  // ---------------------------------------------------------------------

  /** Record starts depend on the lengths before them alone. */
  lemma {:induction false} AtSame(a: seq<seq<Byte>>, b: seq<seq<Byte>>, k: nat)
    requires k <= |a| && k <= |b| && forall i :: 0 <= i < k ==> |a[i]| == |b[i]|
    ensures At(a, k) == At(b, k)
  {
    if 0 < k {
      AtSame(a, b, k - 1);
    }
  }

  lemma AtNext(records: seq<seq<Byte>>, k: nat)
    requires k < |records|
    ensures At(records, k + 1) == At(records, k) + |records[k]|
  {
  }

  lemma AtWithin(records: seq<seq<Byte>>, k: nat, ps: nat)
    requires k < |records| && At(records, |records|) <= ps
    ensures At(records, k) + |records[k]| <= ps
  {
    hide At;
    AtNext(records, k);
    AtAscends(records, k + 1, |records|);
  }

  lemma RecordIsLong(r: seq<Byte>)
    requires IsRecord(r)
    ensures FIXED_HEADER_SIZE <= |r|
  {
  }

  /** Records take room. */
  lemma AtStrict(records: seq<seq<Byte>>, j: nat, k: nat)
    requires j < k <= |records| && forall i :: 0 <= i < |records| ==> IsRecord(records[i])
    ensures At(records, j) + FIXED_HEADER_SIZE <= At(records, k)
  {
    hide IsRecord, At;
    AtNext(records, j);
    AtAscends(records, j + 1, k);
    RecordIsLong(records[j]);
  }

  /** A cut falls between two records: each ends by then or starts no earlier. */
  lemma CutSplits(records: seq<seq<Byte>>, o: nat, ps: nat, k: nat)
    requires Cut(records, o, ps) && At(records, |records|) <= ps && k < |records|
    ensures At(records, k + 1) <= o || o <= At(records, k)
  {
    AtAscends(records, k + 1, |records|);
    if j: nat :| j <= |records| && o == At(records, j) {
      if j <= k {
        AtAscends(records, j, k);
      } else {
        AtAscends(records, k + 1, j);
      }
    }
  }

  lemma CutKept(a: seq<seq<Byte>>, b: seq<seq<Byte>>, o: nat, ps: nat)
    requires Cut(a, o, ps) && |a| <= |b| && forall i :: 0 <= i < |a| ==> |a[i]| == |b[i]|
    ensures Cut(b, o, ps)
  {
    if o != 0 && o != ps {
      var k: nat :| k <= |a| && o == At(a, k);
      AtSame(a, b, k);
    }
  }

  lemma OffsetInside(a: nat, page: nat, ps: nat)
    requires PageAddress(page, ps) <= a <= PageAddress(page + 1, ps)
    ensures Offset(a, page, ps) == a - PageAddress(page, ps)
  {
  }

  lemma OffsetMonotone(a: nat, b: nat, page: nat, ps: nat)
    requires a <= b
    ensures Offset(a, page, ps) <= Offset(b, page, ps)
  {
  }

  lemma PageStartCuts(a: nat, page: nat, ps: nat)
    requires IsPageStart(a, ps)
    ensures Offset(a, page, ps) == 0 || Offset(a, page, ps) == ps
  {
    var q: nat :| a == PageAddress(q, ps);
    PageAddressMonotone(page, page, ps);
    if q <= page {
      PageAddressMonotone(q, page, ps);
    } else {
      PageAddressMonotone(page + 1, q, ps);
    }
  }

  // ---------------------------------------------------------------------
  // One page through a step
  // ---------------------------------------------------------------------

  lemma WriteKeeps(bytes: seq<Byte>, off: nat, r: seq<Byte>, from: nat, len: nat)
    requires off + |r| <= |bytes| && from + len <= |bytes| && (from + len <= off || off + |r| <= from)
    ensures Write(bytes, off, r)[from..from + len] == bytes[from..from + len]
    ensures Write(bytes, off, r)[off..off + |r|] == r
  {
  }

  lemma WriteBehind(bytes: seq<Byte>, off: nat, r: seq<Byte>)
    requires off + |r| <= |bytes|
    ensures Write(bytes, off, r)[off + |r|..] == bytes[off + |r|..]
  {
  }

  lemma HoldsAtSame(bytes: seq<Byte>, a: seq<seq<Byte>>, b: seq<seq<Byte>>, k: nat)
    requires k < |a| && k < |b| && a[k] == b[k] && HoldsAt(bytes, a, k)
    requires forall i :: 0 <= i < k ==> |a[i]| == |b[i]|
    ensures HoldsAt(bytes, b, k)
  {
    AtSame(a, b, k);
  }

  lemma AppendHolds(bytes: seq<Byte>, records: seq<seq<Byte>>, image: seq<Byte>)
    requires MemHolds(bytes, records) && IsRecord(image) && At(records, |records|) + |image| <= |bytes|
    ensures MemHolds(Write(bytes, At(records, |records|), image), records + [image])
    ensures At(records + [image], |records| + 1) == At(records, |records|) + |image|
  {
    hide IsRecord, At, Write;
    var n := |records|;
    var off, more := At(records, n), records + [image];
    var bytes' := Write(bytes, off, image);
    AtSame(records, more, n);
    AtNext(more, n);
    WriteKeeps(bytes, off, image, 0, 0);
    WriteBehind(bytes, off, image);
    forall x: nat | off + |image| <= x < |bytes|
      ensures bytes'[x] == 0
    {
      assert bytes'[x] == bytes'[off + |image|..][x - off - |image|] == bytes[x];
    }
    forall k: nat | k < |more|
      ensures HoldsAt(bytes', more, k)
    {
      AtNext(more, k);
      if k < n {
        assert HoldsAt(bytes, records, k);
        AtNext(records, k);
        AtAscends(records, k + 1, n);
        WriteKeeps(bytes, off, image, At(records, k), |records[k]|);
        assert HoldsAt(bytes', records, k);
        HoldsAtSame(bytes', records, more, k);
      }
    }
  }

  lemma AppendDevice(bytes: seq<Byte>, records: seq<seq<Byte>>, image: seq<Byte>, upto: nat)
    requires DevHolds(bytes, records, upto) && upto <= At(records, |records|) && IsRecord(image)
    ensures DevHolds(bytes, records + [image], upto)
  {
    hide IsRecord, At;
    var more := records + [image];
    AtSame(records, more, |records|);
    AtNext(more, |records|);
    forall k: nat | k < |more| && At(more, k + 1) <= upto
      ensures HoldsAt(bytes, more, k)
    {
      if k < |records| {
        AtSame(records, more, k + 1);
        HoldsAtSame(bytes, records, more, k);
      }
    }
  }

  lemma FreshPageHolds(ps: nat, image: seq<Byte>)
    requires IsRecord(image) && FIRST_VALID_ADDRESS + |image| <= ps
    ensures MemHolds(Write(Zeros(ps), FIRST_VALID_ADDRESS, image), [image])
    ensures At([image], 1) == FIRST_VALID_ADDRESS + |image|
    ensures DevHolds(Zeros(ps), [image], 0)
  {
    AppendHolds(Zeros(ps), [], image);
    assert [] + [image] == [image];
  }

  lemma RewriteHolds(bytes: seq<Byte>, records: seq<seq<Byte>>, k: nat, image: seq<Byte>)
    requires MemHolds(bytes, records) && k < |records| && IsRecord(image) && |image| == |records[k]|
    requires At(records, k) + |image| <= |bytes|
    ensures MemHolds(Write(bytes, At(records, k), image), records[k := image])
    ensures At(records[k := image], |records|) == At(records, |records|)
  {
    hide IsRecord, At;
    var off, records' := At(records, k), records[k := image];
    var bytes' := Write(bytes, off, image);
    AtSame(records, records', |records|);
    AtNext(records, k);
    AtAscends(records, k + 1, |records|);
    WriteKeeps(bytes, off, image, 0, 0);
    forall j: nat | j < |records|
      ensures HoldsAt(bytes', records', j)
    {
      assert HoldsAt(bytes, records, j);
      AtSame(records, records', j);
      AtNext(records, j);
      AtNext(records', j);
      if j < k {
        AtAscends(records, j + 1, k);
        WriteKeeps(bytes, off, image, At(records, j), |records[j]|);
      } else if k < j {
        AtAscends(records, k + 1, j);
        WriteKeeps(bytes, off, image, At(records, j), |records[j]|);
      }
    }
  }

  /** Below the copied bytes the device is as it was, and the copied ones are those of the frame. */
  lemma CopiedSlice(device: seq<Byte>, frame: seq<Byte>, from: nat, until: nat, off: nat, len: nat)
    requires from <= until <= |frame| == |device|
    ensures off + len <= from ==> Copied(device, frame, from, until)[off..off + len] == device[off..off + len]
    ensures from <= off && off + len <= until ==>
              Copied(device, frame, from, until)[off..off + len] == frame[off..off + len]
  {
    var bytes := Copied(device, frame, from, until);
    if off + len <= from {
      assert bytes[off..off + len] == device[off..off + len];
    } else if from <= off && off + len <= until {
      assert bytes[off..off + len] == frame[off..off + len];
    }
  }

  lemma CopiedAt(device: seq<Byte>, frame: seq<Byte>, from: nat, until: nat)
    requires from <= until <= |frame| == |device|
    ensures forall x: nat :: x < until ==>
              Copied(device, frame, from, until)[x] == if x < from then device[x] else frame[x]
  {
  }

  lemma FlushHolds(device: seq<Byte>, frame: seq<Byte>, page: Page, from: nat, until: nat, ps: nat)
    requires PageShape(page, ps) && |device| == |frame| == ps && from <= until <= ps
    requires Cut(page.latest, from, ps) && DevHolds(device, page.disk, from)
    requires from < until ==> MemHolds(frame, page.latest)
    ensures DevHolds(Copied(device, frame, from, until), FlushedPage(page, from, until).disk, until)
    ensures PageShape(FlushedPage(page, from, until), ps)
  {
    hide IsRecord, At, Cut, Copied;
    var bytes, disk := Copied(device, frame, from, until), FlushedPage(page, from, until).disk;
    var n := |disk|;
    AtSame(disk, page.disk, n);
    AtSame(disk, page.latest, n);
    CopiedAt(device, frame, from, until);
    forall k: nat | k < n && At(disk, k + 1) <= until
      ensures HoldsAt(bytes, disk, k)
    {
      AtNext(disk, k);
      AtSame(disk, page.disk, k);
      AtSame(disk, page.disk, k + 1);
      AtSame(disk, page.latest, k);
      AtSame(disk, page.latest, k + 1);
      CutSplits(page.latest, from, ps, k);
      var off, len := At(disk, k), |disk[k]|;
      if off + len <= from {
        assert HoldsAt(device, page.disk, k);
      } else {
        assert HoldsAt(frame, page.latest, k);
      }
      CopiedSlice(device, frame, from, until, off, len);
    }
  }

  // ---------------------------------------------------------------------
  // Steps
  // ---------------------------------------------------------------------

  /** Open pages lie in different slots of the buffer. */
  lemma SlotsApart(s: State, p: nat, q: nat)
    requires 0 < |s.frames| && p < q < p + |s.frames|
    ensures Slot(s, p) != Slot(s, q)
  {
    if Slot(s, p) == Slot(s, q) {
      SlotReuse(p, q, |s.frames|);
    }
  }

  lemma OtherSlot(s: State, p: nat, q: nat)
    requires 0 < |s.frames| && p != q && p < q + |s.frames| && q < p + |s.frames|
    ensures Slot(s, p) != Slot(s, q)
  {
    if p < q {
      SlotsApart(s, p, q);
    } else {
      SlotsApart(s, q, p);
    }
  }

  lemma TailBelowNext(s: State)
    requires Shape(s) && s.tailOffset <= s.ps
    ensures Tail(s) <= PageAddress(|s.pages|, s.ps)
  {
    PageAddressMonotone(TailPage(s), |s.pages|, s.ps);
  }

  /** What was known of the tail page's lengths bounds the tail. */
  lemma TailInside(s: State)
    requires Shape(s) && Bounds(s)
    ensures FIRST_VALID_ADDRESS <= s.tailOffset <= s.ps
    ensures Tail(s) <= PageAddress(|s.pages|, s.ps)
  {
    assert PageShape(s.pages[TailPage(s)], s.ps);
    TailBelowNext(s);
  }

  /** Boundaries stay between records when pages only get more of them. */
  lemma CutsKept(s: State, s': State, a: nat)
    requires Shape(s) && Shape(s') && s'.ps == s.ps && |s.pages| <= |s'.pages|
    requires CutsAll(s, a) && a <= PageAddress(|s.pages|, s.ps)
    requires forall p :: 0 <= p < |s.pages| ==>
               && |s.pages[p].latest| <= |s'.pages[p].latest|
               && forall k :: 0 <= k < |s.pages[p].latest| ==> |s'.pages[p].latest[k]| == |s.pages[p].latest[k]|
    ensures CutsAll(s', a)
  {
    forall p | 0 <= p < |s'.pages|
      ensures Cut(s'.pages[p].latest, Offset(a, p, s.ps), s.ps)
    {
      if p < |s.pages| {
        CutKept(s.pages[p].latest, s'.pages[p].latest, Offset(a, p, s.ps), s.ps);
      } else {
        PageAddressMonotone(|s.pages|, p, s.ps);
      }
    }
  }

  /** The end of the last page's records, or of the page, cuts no record. */
  lemma TailCuts(s: State)
    requires Shape(s) && FIRST_VALID_ADDRESS <= s.tailOffset
    requires s.tailOffset == s.ps || s.tailOffset == At(s.pages[TailPage(s)].latest, |s.pages[TailPage(s)].latest|)
    ensures CutsAll(s, Tail(s))
  {
    hide IsRecord, At;
    var last := TailPage(s);
    assert PageShape(s.pages[last], s.ps);
    TailBelowNext(s);
    forall p | 0 <= p < |s.pages|
      ensures Cut(s.pages[p].latest, Offset(Tail(s), p, s.ps), s.ps)
    {
      if p < last {
        PageAddressMonotone(p + 1, last, s.ps);
        PageAddressMonotone(p, p, s.ps);
      } else {
        OffsetInside(Tail(s), p, s.ps);
      }
    }
  }

  lemma CutsAfter(s: State, s': State)
    requires Inv(s) && Shape(s') && s'.ps == s.ps && |s.pages| <= |s'.pages| && s'.flushed == s.flushed
    requires forall p :: 0 <= p < |s.pages| ==>
               && |s.pages[p].latest| <= |s'.pages[p].latest|
               && forall k :: 0 <= k < |s.pages[p].latest| ==> |s'.pages[p].latest[k]| == |s.pages[p].latest[k]|
    requires Tail(s) <= Tail(s') && FIRST_VALID_ADDRESS <= s'.tailOffset
    requires s'.tailOffset == s'.ps || s'.tailOffset == At(s'.pages[TailPage(s')].latest, |s'.pages[TailPage(s')].latest|)
    requires s'.tails == s.tails + {Tail(s')} || s'.tails == s.tails
    ensures Cuts(s')
  {
    TailInside(s);
    TailCuts(s');
    CutsKept(s, s', s.flushed);
    forall t | t in s'.tails
      ensures t <= Tail(s') && CutsAll(s', t)
    {
      if t in s.tails {
        CutsKept(s, s', t);
      }
    }
  }

  lemma AppendPageShape(page: Page, image: seq<Byte>, ps: nat)
    requires PageShape(page, ps) && IsRecord(image) && At(page.latest, |page.latest|) + |image| <= ps
    ensures PageShape(Page(page.latest + [image], page.disk + [image]), ps)
    ensures At(page.latest + [image], |page.latest| + 1) == At(page.latest, |page.latest|) + |image|
  {
    hide IsRecord, At;
    AtSame(page.latest, page.latest + [image], |page.latest|);
    AtNext(page.latest + [image], |page.latest|);
  }

  lemma AppendHereShape(s: State, image: seq<Byte>)
    requires Inv(s) && Enabled(s, Append(image)) && s.tailOffset + |image| <= s.ps
    ensures var s' := AppendHere(s, image, s.tailOffset + |image|);
            Shape(s') && Bounds(s') && Tail(s) <= Tail(s')
    ensures s.tailOffset == At(s.pages[TailPage(s)].latest, |s.pages[TailPage(s)].latest|)
  {
    hide IsRecord, At, Write, PageAddress, PageShape, Cuts, Memory, Device;
    var last := TailPage(s);
    assert PageShape(s.pages[last], s.ps);
    assert 0 < |image| by {
      RecordIsLong(image);
    }
    AppendPageShape(s.pages[last], image, s.ps);
  }

  lemma AppendHereMemory(s: State, image: seq<Byte>)
    requires Inv(s) && Enabled(s, Append(image)) && s.tailOffset + |image| <= s.ps
    requires Shape(AppendHere(s, image, s.tailOffset + |image|))
    requires s.tailOffset == At(s.pages[TailPage(s)].latest, |s.pages[TailPage(s)].latest|)
    ensures Memory(AppendHere(s, image, s.tailOffset + |image|))
  {
    hide IsRecord, At, MemHolds, PageShape, Cuts, Device, Write;
    var last := TailPage(s);
    var s' := AppendHere(s, image, s.tailOffset + |image|);
    forall p | s'.closed <= p < |s'.pages|
      ensures MemHolds(s'.frames[Slot(s', p)], s'.pages[p].latest)
    {
      if p == last {
        AppendHolds(s.frames[Slot(s, last)], s.pages[last].latest, image);
      } else {
        SlotsApart(s, p, last);
      }
    }
  }

  lemma FlushedOnLast(s: State)
    requires Shape(s) && s.flushed <= Tail(s) && s.tailOffset <= s.ps
    ensures Offset(s.flushed, TailPage(s), s.ps) <= s.tailOffset
  {
    TailBelowNext(s);
    OffsetMonotone(s.flushed, Tail(s), TailPage(s), s.ps);
    OffsetInside(Tail(s), TailPage(s), s.ps);
  }

  lemma AppendPageDevice(bytes: seq<Byte>, page: Page, image: seq<Byte>, upto: nat, ps: nat)
    requires PageShape(page, ps) && DevHolds(bytes, page.disk, upto) && IsRecord(image)
    requires upto <= At(page.latest, |page.latest|)
    ensures DevHolds(bytes, page.disk + [image], upto)
  {
    AtSame(page.disk, page.latest, |page.disk|);
    AppendDevice(bytes, page.disk, image, upto);
  }

  lemma AppendHereDevice(s: State, image: seq<Byte>)
    requires Inv(s) && Enabled(s, Append(image)) && s.tailOffset + |image| <= s.ps
    requires Shape(AppendHere(s, image, s.tailOffset + |image|))
    requires s.tailOffset == At(s.pages[TailPage(s)].latest, |s.pages[TailPage(s)].latest|)
    ensures Device(AppendHere(s, image, s.tailOffset + |image|))
  {
    hide IsRecord, At, DevHolds, PageShape, Cuts, Memory, Write, PageAddress;
    var last := TailPage(s);
    var s' := AppendHere(s, image, s.tailOffset + |image|);
    FlushedOnLast(s);
    assert PageShape(s.pages[last], s.ps);
    AppendPageDevice(s.device[last], s.pages[last], image, Offset(s.flushed, last, s.ps), s.ps);
  }

  lemma AppendHereInv(s: State, image: seq<Byte>)
    requires Inv(s) && Enabled(s, Append(image)) && s.tailOffset + |image| <= s.ps
    ensures Inv(AppendHere(s, image, s.tailOffset + |image|))
  {
    hide IsRecord, At, PageShape, Cuts, Memory, Device, Write, PageAddress;
    var s' := AppendHere(s, image, s.tailOffset + |image|);
    AppendHereShape(s, image);
    CutsAfter(s, s');
    AppendHereMemory(s, image);
    AppendHereDevice(s, image);
  }

  lemma AppendNextInv(s: State, image: seq<Byte>)
    requires Inv(s) && Enabled(s, Append(image)) && s.ps < s.tailOffset + |image|
    ensures Inv(AppendNext(s, image, FIRST_VALID_ADDRESS + |image|))
  {
    hide IsRecord, At, MemHolds, DevHolds, Cut, Write, Zeros;
    var next := |s.pages|;
    var s' := AppendNext(s, image, FIRST_VALID_ADDRESS + |image|);
    TailInside(s);
    FreshPageHolds(s.ps, image);
    CutsAfter(s, s');
    forall p | s'.closed <= p < |s'.pages|
      ensures MemHolds(s'.frames[Slot(s', p)], s'.pages[p].latest)
    {
      if p < next {
        SlotsApart(s, p, next);
      }
    }
    assert Offset(s.flushed, next, s.ps) == 0;
  }

  lemma RefuseInv(s: State, size: nat)
    requires Inv(s) && Enabled(s, Refuse(size))
    ensures Inv(Do(s, Refuse(size)))
  {
    hide IsRecord, At, MemHolds, DevHolds, Cut, PageShape;
    var s' := Do(s, Refuse(size));
    TailInside(s);
    PageAddressMonotone(TailPage(s), TailPage(s), s.ps);
    CutsAfter(s, s');
  }

  lemma RewriteInv(s: State, p: nat, k: nat, image: seq<Byte>)
    requires Inv(s) && Enabled(s, Rewrite(p, k, image))
    ensures Inv(Do(s, Rewrite(p, k, image)))
  {
    hide IsRecord, At, MemHolds, DevHolds, Cut;
    var s' := Do(s, Rewrite(p, k, image));
    var records := s.pages[p].latest;
    assert PageShape(s.pages[p], s.ps);
    AtWithin(records, k, s.ps);
    RewriteHolds(s.frames[Slot(s, p)], records, k, image);
    assert PageShape(s'.pages[p], s.ps);
    TailInside(s);
    CutsAfter(s, s');
    forall q | s'.closed <= q < |s'.pages|
      ensures MemHolds(s'.frames[Slot(s', q)], s'.pages[q].latest)
    {
      if q != p {
        OtherSlot(s, p, q);
      }
    }
  }

  /** A flush target cuts no record. */
  lemma TargetCuts(s: State, target: nat)
    requires Inv(s) && Enabled(s, Flush(target))
    ensures CutsAll(s, target)
  {
    if target !in s.tails {
      forall p | 0 <= p < |s.pages|
        ensures Cut(s.pages[p].latest, Offset(target, p, s.ps), s.ps)
      {
        PageStartCuts(target, p, s.ps);
      }
    }
  }

  /** What a flush copies lies on pages that memory still has. */
  lemma FlushPage(s: State, target: nat, p: nat)
    requires Inv(s) && Enabled(s, Flush(target)) && p < |s.pages|
    ensures var from, until := Offset(s.flushed, p, s.ps), Offset(target, p, s.ps);
            && from <= until
            && DevHolds(CopiedOf(s, p, target), FlushedPage(s.pages[p], from, until).disk, until)
            && PageShape(FlushedPage(s.pages[p], from, until), s.ps)
  {
    hide IsRecord, At, Cut, DevHolds;
    var from, until := Offset(s.flushed, p, s.ps), Offset(target, p, s.ps);
    OffsetMonotone(s.flushed, target, p, s.ps);
    assert PageShape(s.pages[p], s.ps);
    if from < until && p < s.closed {
      PageAddressMonotone(p + 1, s.closed, s.ps);
      assert false;
    }
    FlushHolds(s.device[p], s.frames[Slot(s, p)], s.pages[p], from, until, s.ps);
  }

  lemma FlushInv(s: State, target: nat)
    requires Inv(s) && Enabled(s, Flush(target))
    ensures Inv(Do(s, Flush(target)))
  {
    hide IsRecord, At, MemHolds, Cut, DevHolds;
    var s' := Do(s, Flush(target));
    forall p | 0 <= p < |s.pages|
      ensures PageShape(s'.pages[p], s.ps) && s'.pages[p].latest == s.pages[p].latest
      ensures DevHolds(s'.device[p], s'.pages[p].disk, Offset(target, p, s.ps))
    {
      FlushPage(s, target, p);
    }
    TargetCuts(s, target);
  }

  lemma ShiftHeadInv(s: State, target: nat)
    requires Inv(s) && Enabled(s, ShiftHead(target))
    ensures Inv(Do(s, ShiftHead(target)))
  {
    hide PageShape, MemHolds, DevHolds, Cut;
  }

  lemma CloseInv(s: State, pages: nat)
    requires Inv(s) && Enabled(s, Close(pages))
    ensures Inv(Do(s, Close(pages)))
  {
    hide PageShape, MemHolds, DevHolds, Cut;
  }

  lemma StepInv(s: State, step: Step)
    requires Inv(s) && Enabled(s, step)
    ensures Inv(Do(s, step))
  {
    hide Inv, Enabled, Shape, AppendHere, AppendNext;
    match step
    case Append(image) =>
      if s.tailOffset + |image| <= s.ps {
        AppendHereInv(s, image);
      } else {
        AppendNextInv(s, image);
      }
    case Refuse(size) => RefuseInv(s, size);
    case Flush(target) => FlushInv(s, target);
    case ShiftHead(target) => ShiftHeadInv(s, target);
    case Close(pages) => CloseInv(s, pages);
    case Rewrite(p, k, image) => RewriteInv(s, p, k, image);
  }

  ghost predicate IsRun(ps: nat, slots: nat, states: seq<State>, steps: seq<Step>) {
    && FIRST_VALID_ADDRESS < ps && 2 <= slots
    && |states| == |steps| + 1 && states[0] == Init(ps, slots)
    && forall i :: 0 <= i < |steps| ==> Follows(states[i], steps[i], states[i + 1])
  }

  ghost predicate Follows(s: State, step: Step, s': State) {
    Inv(s) ==> Enabled(s, step) && s' == Do(s, step)
  }

  lemma InitInv(ps: nat, slots: nat)
    requires FIRST_VALID_ADDRESS < ps && 2 <= slots
    ensures Inv(Init(ps, slots))
  {
    var s := Init(ps, slots);
    assert PageShape(s.pages[0], ps);
    TailCuts(s);
  }

  lemma {:induction false} RunInv(ps: nat, slots: nat, states: seq<State>, steps: seq<Step>, i: nat)
    requires IsRun(ps, slots, states, steps) && i < |states|
    ensures Inv(states[i])
  {
    hide Inv, Enabled, Do, Init;
    if i == 0 {
      InitInv(ps, slots);
    } else {
      RunInv(ps, slots, states, steps, i - 1);
      assert Follows(states[i - 1], steps[i - 1], states[i - 1 + 1]);
      StepInv(states[i - 1], steps[i - 1]);
    }
  }

  /** A log that some run comes to. */
  ghost predicate Reached(slots: nat, s: State): (r: bool)
    ensures r ==> Inv(s)
  {
    if states: seq<State>, steps: seq<Step> :| EndsIn(slots, states, steps, s) then
      RunInv(s.ps, slots, states, steps, |steps|);
      true
    else
      false
  }

  ghost predicate EndsIn(slots: nat, states: seq<State>, steps: seq<Step>, s: State) {
    IsRun(s.ps, slots, states, steps) && states[|steps|] == s
  }
}
