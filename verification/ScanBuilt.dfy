/**
  What a scan (crates/tsavorite/src/log.rs:530-591) visits of a log that came to
  be by any run of its allocator, its writers and its boundary shifts: every
  record in range, once, in address order, and nothing else.
 */
module ScanBuilt {
  import opened Bytes
  import opened HybridLogs
  import opened RecordLayout
  import opened Scan
  import opened ScanRun

  /** What a reader finds where: memory is the frame that the page's slot has now. */
  function MediumOf(s: State): Medium
    requires Shape(s)
  {
    Medium(s.ps, s.head, s.flushed, s.device, seq(|s.pages|, p requires 0 <= p < |s.pages| => s.frames[Slot(s, p)]))
  }

  lemma ReadableOf(s: State, to: nat)
    requires Inv(s) && to <= Tail(s)
    ensures Readable(MediumOf(s), to)
  {
    TailInside(s);
  }

  ghost predicate IsThere(s: State, p: nat, k: nat) {
    p < |s.pages| && k < |s.pages[p].latest|
  }

  function Address(s: State, p: nat, k: nat): nat
    requires p < |s.pages| && k <= |s.pages[p].latest|
  {
    PageAddress(p, s.ps) + At(s.pages[p].latest, k)
  }

  /** Where the scan enters a page. */
  function Entry(s: State, p: nat, from: nat): nat {
    Max(from, PageAddress(p, s.ps))
  }

  /** A record as a scan gives it: the device's image below the flushed boundary if it entered below Head. */
  function Shown(s: State, from: nat, p: nat, k: nat): Visit
    requires Shape(s) && IsThere(s, p, k)
  {
    assert PageShape(s.pages[p], s.ps);
    (Address(s, p, k),
     if Entry(s, p, from) < s.head && Address(s, p, k) < s.flushed then s.pages[p].disk[k] else s.pages[p].latest[k])
  }

  // ---------------------------------------------------------------------
  // The records below an offset
  // ---------------------------------------------------------------------

  function CutFrom(records: seq<seq<Byte>>, k: nat, o: nat): (d: nat)
    requires k <= |records|
    ensures d <= k && (0 < d ==> At(records, d) <= o)
    ensures forall j: nat :: d < j <= k ==> o < At(records, j)
  {
    if k == 0 || At(records, k) <= o then k else CutFrom(records, k - 1, o)
  }

  /** How many records of a page end by an offset. */
  function Ending(records: seq<seq<Byte>>, o: nat): (d: nat)
    ensures d <= |records| && (0 < d ==> At(records, d) <= o)
    ensures forall j: nat :: d < j <= |records| ==> o < At(records, j)
  {
    CutFrom(records, |records|, o)
  }

  lemma EndingMonotone(records: seq<seq<Byte>>, o: nat, o': nat)
    requires o <= o'
    ensures Ending(records, o) <= Ending(records, o')
  {
  }

  ghost predicate AllRecords(records: seq<seq<Byte>>) {
    forall i :: 0 <= i < |records| ==> IsRecord(records[i])
  }

  /** At a cut, the records below it reach right up to it, or are all there are. */
  lemma CutLands(records: seq<seq<Byte>>, o: nat, ps: nat)
    requires Cut(records, o, ps) && AllRecords(records) && At(records, |records|) <= ps
    ensures o <= PAGE_HEADER_SIZE ==> Ending(records, o) == 0
    ensures PAGE_HEADER_SIZE <= o ==>
              At(records, Ending(records, o)) <= o
              && (At(records, Ending(records, o)) < o ==> Ending(records, o) == |records|)
  {
    hide IsRecord;
    var d := Ending(records, o);
    if o <= PAGE_HEADER_SIZE {
      if 0 < d {
        AtStrict(records, 0, d);
      }
    } else if o != ps {
      var j: nat :| j <= |records| && o == At(records, j);
      if j < d {
        AtStrict(records, j, d);
      }
    }
  }

  /** A record ends by a cut exactly if it starts before it. */
  lemma BelowCut(records: seq<seq<Byte>>, o: nat, ps: nat, k: nat)
    requires Cut(records, o, ps) && AllRecords(records) && At(records, |records|) <= ps && k < |records|
    ensures k < Ending(records, o) <==> At(records, k) < o
  {
    hide IsRecord, Cut;
    CutSplits(records, o, ps, k);
    AtStrict(records, k, k + 1);
    var d := Ending(records, o);
    if k < d {
      AtAscends(records, k + 1, d);
    }
  }

  // ---------------------------------------------------------------------
  // One page of the scan
  // ---------------------------------------------------------------------

  /** The page's records as they are read: from the device the first `d`, from memory the rest. */
  function Mixed(page: Page, d: nat): (records: seq<seq<Byte>>)
    requires |page.disk| == |page.latest| && d <= |page.latest|
    ensures |records| == |page.latest|
  {
    page.disk[..d] + page.latest[d..]
  }

  lemma MixedAt(page: Page, d: nat, k: nat, ps: nat)
    requires PageShape(page, ps) && d <= |page.latest| && k <= |page.latest|
    ensures At(Mixed(page, d), k) == At(page.latest, k) == At(page.disk, k)
  {
    hide IsRecord;
    AtSame(Mixed(page, d), page.latest, k);
    AtSame(page.disk, page.latest, k);
  }

  lemma DiskHolds(bytes: seq<Byte>, page: Page, upto: nat, d: nat, ps: nat)
    requires PageShape(page, ps) && DevHolds(bytes, page.disk, upto)
    requires d <= |page.latest| && (0 < d ==> At(page.latest, d) <= upto)
    ensures Holds(bytes, Mixed(page, d), 0, d)
  {
    hide IsRecord, At;
    forall k: nat | k < d
      ensures HoldsAt(bytes, Mixed(page, d), k)
    {
      MixedAt(page, d, k, ps);
      MixedAt(page, d, k + 1, ps);
      AtAscends(page.latest, k + 1, d);
      assert HoldsAt(bytes, page.disk, k);
    }
  }

  lemma MemoryHolds(bytes: seq<Byte>, page: Page, d: nat, j: nat, ps: nat)
    requires PageShape(page, ps) && MemHolds(bytes, page.latest) && d <= j <= |page.latest|
    ensures Holds(bytes, Mixed(page, d), d, j)
  {
    hide IsRecord, At;
    forall k: nat | d <= k < j
      ensures HoldsAt(bytes, Mixed(page, d), k)
    {
      MixedAt(page, d, k, ps);
      MixedAt(page, d, k + 1, ps);
      assert HoldsAt(bytes, page.latest, k);
    }
  }

  /** Bytes that are zero behind the last record end well at every cut. */
  lemma CutEnds(bytes: seq<Byte>, page: Page, d: nat, o: nat, ps: nat)
    requires PageShape(page, ps) && Cut(page.latest, o, ps) && PAGE_HEADER_SIZE <= o <= ps == |bytes|
    requires d <= |page.latest|
    requires forall x: nat :: At(page.latest, |page.latest|) <= x < o ==> bytes[x] == 0
    ensures Ends(bytes, Mixed(page, d), Ending(page.latest, o), o)
  {
    hide IsRecord, Cut, At;
    CutLands(page.latest, o, ps);
    MixedAt(page, d, Ending(page.latest, o), ps);
  }

  /** The page's bytes as the scan of `[from, to)` reads them, and the limits it reads them to. */
  lemma PageStraddles(disk: seq<Byte>, memory: seq<Byte>, page: Page, upto: nat, dl: nat, lim: nat, ps: nat)
    requires PageShape(page, ps) && |disk| == |memory| == ps && DevHolds(disk, page.disk, upto)
    requires dl <= lim <= ps && dl <= upto && Cut(page.latest, dl, ps) && Cut(page.latest, lim, ps)
    requires PAGE_HEADER_SIZE <= lim
    requires dl < lim ==> MemHolds(memory, page.latest)
    ensures Straddles(disk, memory, Mixed(page, Ending(page.latest, dl)),
                      Ending(page.latest, dl), Ending(page.latest, lim), dl, lim)
  {
    hide IsRecord, Cut, At, Ends, Holds;
    var d, j := Ending(page.latest, dl), Ending(page.latest, lim);
    EndingMonotone(page.latest, dl, lim);
    MixedAt(page, d, |page.latest|, ps);
    MixedAt(page, d, d, ps);
    DiskHolds(disk, page, upto, d, ps);
    CutLands(page.latest, dl, ps);
    if PAGE_HEADER_SIZE < dl {
      CutEnds(disk, page, d, dl, ps);
    }
    if dl < lim {
      MemoryHolds(memory, page, d, j, ps);
      CutEnds(memory, page, d, lim, ps);
      if At(page.latest, d) < dl {
        LastBelow(page.latest, d, dl, ps);
      }
    }
  }

  lemma LastBelow(records: seq<seq<Byte>>, d: nat, dl: nat, ps: nat)
    requires Cut(records, dl, ps) && AllRecords(records) && At(records, |records|) <= ps
    requires d == Ending(records, dl) && At(records, d) < dl
    ensures d == |records| && At(records, |records|) < dl
  {
    hide IsRecord, Cut;
    CutLands(records, dl, ps);
  }

  // ---------------------------------------------------------------------
  // The layout of a built log
  // ---------------------------------------------------------------------

  /** A place between records, where a scan may begin. */
  ghost predicate StartsAt(s: State, from: nat, page: nat, i: nat) {
    && page < |s.pages| && i <= |s.pages[page].latest| && At(s.pages[page].latest, i) < s.ps
    && from == Address(s, page, i)
  }

  function DiskEnd(s: State, p: nat, from: nat, to: nat): nat
    requires Shape(s)
  {
    DiskLimit(MediumOf(s), p, Entry(s, p, from), to)
  }

  function LayoutOf(s: State, from: nat, to: nat): Layout
    requires Shape(s)
  {
    Layout(seq(|s.pages|, p requires 0 <= p < |s.pages| => RecordsRead(s, p, from, to)),
           seq(|s.pages|, p requires 0 <= p < |s.pages| => Ending(s.pages[p].latest, DiskEnd(s, p, from, to))),
           seq(|s.pages|, p requires 0 <= p < |s.pages| => Ending(s.pages[p].latest, Offset(to, p, s.ps))))
  }

  function RecordsRead(s: State, p: nat, from: nat, to: nat): (records: seq<seq<Byte>>)
    requires Shape(s) && p < |s.pages|
    ensures |records| == |s.pages[p].latest|
  {
    assert PageShape(s.pages[p], s.ps);
    Mixed(s.pages[p], Ending(s.pages[p].latest, DiskEnd(s, p, from, to)))
  }

  lemma LimitsAre(s: State, p: nat, from: nat, to: nat)
    requires Shape(s)
    ensures Limit(MediumOf(s), p, to) == Offset(to, p, s.ps)
    ensures DiskEnd(s, p, from, to)
            == if Entry(s, p, from) < s.head then Min(Offset(to, p, s.ps), Offset(s.flushed, p, s.ps)) else 0
  {
    PageAddressMonotone(p, p, s.ps);
  }

  /** Pages that the scan still needs from memory have not been given up. */
  lemma StillOpen(s: State, p: nat, from: nat, to: nat)
    requires Inv(s) && p < |s.pages| && Entry(s, p, from) < PageAddress(p + 1, s.ps)
    requires DiskEnd(s, p, from, to) < Offset(to, p, s.ps)
    ensures s.closed <= p
  {
    LimitsAre(s, p, from, to);
    if p < s.closed {
      PageAddressMonotone(p + 1, s.closed, s.ps);
      PageAddressMonotone(p, p, s.ps);
    }
  }

  lemma PageIsOk(s: State, p: nat, i: nat, from: nat, to: nat)
    requires Inv(s) && to <= Tail(s) && CutsAll(s, to) && p < |s.pages|
    requires Entry(s, p, from) < to && Entry(s, p, from) < PageAddress(p + 1, s.ps)
    requires i <= |s.pages[p].latest|
    requires Max(Excess(from, PageAddress(p, s.ps)), PAGE_HEADER_SIZE) == At(s.pages[p].latest, i)
    ensures Readable(MediumOf(s), to) && PageOk(MediumOf(s), LayoutOf(s, from, to), p, i, Entry(s, p, from), to)
  {
    hide IsRecord, At, Cut, MemHolds, DevHolds, Straddles;
    ReadableOf(s, to);
    LimitsAre(s, p, from, to);
    var page := s.pages[p];
    assert PageShape(page, s.ps);
    var dl, lim := DiskEnd(s, p, from, to), Offset(to, p, s.ps);
    CutPastHeader(page.latest, lim, s.ps);
    if dl < lim {
      StillOpen(s, p, from, to);
    }
    assert Cut(page.latest, dl, s.ps) by {
      ZeroCuts(page.latest, s.ps);
    }
    PageStraddles(s.device[p], s.frames[Slot(s, p)], page, Offset(s.flushed, p, s.ps), dl, lim, s.ps);
    MixedAt(page, Ending(page.latest, dl), i, s.ps);
  }

  lemma CutPastHeader(records: seq<seq<Byte>>, o: nat, ps: nat)
    requires Cut(records, o, ps) && 0 < o && PAGE_HEADER_SIZE < ps
    ensures PAGE_HEADER_SIZE <= o
  {
  }

  lemma ZeroCuts(records: seq<seq<Byte>>, ps: nat)
    ensures Cut(records, 0, ps)
  {
  }

  /** Every page from here on is laid out as the scan expects it. */
  lemma {:induction false} BuiltLaidOut(s: State, from: nat, to: nat, p: nat, i: nat)
    requires Inv(s) && to <= Tail(s) && CutsAll(s, to) && p <= |s.pages|
    requires p < |s.pages| ==> i <= |s.pages[p].latest| && Entry(s, p, from) < PageAddress(p + 1, s.ps)
    requires p < |s.pages| ==> Max(Excess(from, PageAddress(p, s.ps)), PAGE_HEADER_SIZE) == At(s.pages[p].latest, i)
    requires p < |s.pages| && 0 < i ==> Entry(s, p, from) == Address(s, p, i)
    ensures Readable(MediumOf(s), to)
    ensures LaidOut(MediumOf(s), LayoutOf(s, from, to), p, i, Entry(s, p, from), to)
    decreases |s.pages| - p
  {
    hide Inv, PageOk, LayoutOf;
    ReadableOf(s, to);
    assert |LayoutOf(s, from, to).records| == |s.pages| by {
      LayoutSizes(s, from, to);
    }
    LayoutSizes(s, from, to);
    if p < |s.pages| && Entry(s, p, from) < to {
      PageIsOk(s, p, i, from, to);
      NextEntry(s, p, from);
      BuiltLaidOut(s, from, to, p + 1, 0);
    }
  }

  lemma LayoutSizes(s: State, from: nat, to: nat)
    requires Inv(s)
    ensures var l := LayoutOf(s, from, to);
            |MediumOf(s).device| == |s.pages| == |l.records| == |l.below| == |l.ends|
    ensures Shape(s) && Bounds(s)
  {
  }

  lemma NextEntry(s: State, p: nat, from: nat)
    requires FIRST_VALID_ADDRESS < s.ps && from < PageAddress(p + 1, s.ps)
    ensures Entry(s, p + 1, from) == PageAddress(p + 1, s.ps) < PageAddress(p + 2, s.ps)
    ensures Excess(from, PageAddress(p + 1, s.ps)) == 0
  {
    PageAddressMonotone(p + 1, p + 2, s.ps);
  }

  // ---------------------------------------------------------------------
  // What the scan visits
  // ---------------------------------------------------------------------

  /** Records one behind the other: strictly ascending, and none overlaps the next. */
  ghost predicate InOrder(v: seq<Visit>) {
    forall x, y :: 0 <= x < y < |v| ==> v[x].0 + |v[x].1| <= v[y].0
  }

  /** A record at or behind the i-th of page `p`, and before `to`. */
  ghost predicate Wanted(s: State, p: nat, i: nat, to: nat, q: nat, k: nat) {
    IsThere(s, q, k) && (p < q || (p == q && i <= k)) && Address(s, q, k) < to
  }

  /** All records from the i-th of page `p` up to `to`, each once and in order, and nothing else. */
  ghost predicate Exactly(s: State, from: nat, p: nat, i: nat, to: nat, v: seq<Visit>)
    requires Shape(s)
  {
    && InOrder(v)
    && (forall q: nat, k: nat :: Wanted(s, p, i, to, q, k) ==> Shown(s, from, q, k) in v)
    && (forall x :: x in v ==> exists q: nat, k: nat :: Wanted(s, p, i, to, q, k) && x == Shown(s, from, q, k))
  }

  /** On a page that the scan has entered, the records it reads are those before `to`, as `Shown` has them. */
  lemma ReadIsShown(s: State, from: nat, to: nat, p: nat, k: nat)
    requires Inv(s) && CutsAll(s, to) && IsThere(s, p, k) && from < PageAddress(p + 1, s.ps)
    ensures k < Ending(s.pages[p].latest, Offset(to, p, s.ps)) <==> Address(s, p, k) < to
    ensures Address(s, p, k) < to ==>
              (PageAddress(p, s.ps) + At(RecordsRead(s, p, from, to), k), RecordsRead(s, p, from, to)[k])
              == Shown(s, from, p, k)
  {
    hide IsRecord, Cut, At, Ending, MemHolds, DevHolds, DiskLimit;
    var page := s.pages[p];
    assert PageShape(page, s.ps);
    AtNext(page.latest, k);
    AtStrict(page.latest, k, k + 1);
    AtAscends(page.latest, k + 1, |page.latest|);
    PageAddressMonotone(p, p, s.ps);
    LimitsAre(s, p, from, to);
    var dl := DiskEnd(s, p, from, to);
    ZeroCuts(page.latest, s.ps);
    BelowCut(page.latest, Offset(to, p, s.ps), s.ps, k);
    BelowCut(page.latest, dl, s.ps, k);
    MixedAt(page, Ending(page.latest, dl), k, s.ps);
  }

  /** The visits on one page. */
  function OnePage(s: State, from: nat, to: nat, p: nat, i: nat): seq<Visit>
    requires Shape(s) && p < |s.pages| && i <= Ending(s.pages[p].latest, Offset(to, p, s.ps))
  {
    Addressed(Between(RecordsRead(s, p, from, to), i, Ending(s.pages[p].latest, Offset(to, p, s.ps))),
              PageAddress(p, s.ps))
  }

  lemma OnePageAt(s: State, from: nat, to: nat, p: nat, i: nat, k: nat)
    requires Inv(s) && CutsAll(s, to) && p < |s.pages| && from < PageAddress(p + 1, s.ps)
    requires i <= k < Ending(s.pages[p].latest, Offset(to, p, s.ps))
    ensures |OnePage(s, from, to, p, i)| == Ending(s.pages[p].latest, Offset(to, p, s.ps)) - i
    ensures Address(s, p, k) < to && OnePage(s, from, to, p, i)[k - i] == Shown(s, from, p, k)
  {
    hide Bounds, Cuts, Memory, Device, PageShape, CutsAll, Ending, Between, RecordsRead, Shown, Address;
    hide PageAddress;
    BetweenAt(RecordsRead(s, p, from, to), i, Ending(s.pages[p].latest, Offset(to, p, s.ps)), k);
    ReadIsShown(s, from, to, p, k);
  }

  lemma OnePageSize(s: State, from: nat, to: nat, p: nat, i: nat)
    requires Inv(s) && CutsAll(s, to) && p < |s.pages| && from < PageAddress(p + 1, s.ps)
    requires i <= Ending(s.pages[p].latest, Offset(to, p, s.ps))
    ensures |OnePage(s, from, to, p, i)| == Ending(s.pages[p].latest, Offset(to, p, s.ps)) - i
  {
    if i < Ending(s.pages[p].latest, Offset(to, p, s.ps)) {
      OnePageAt(s, from, to, p, i, i);
    }
  }

  /** A record lies on its page, and before the next. */
  lemma OnItsPage(s: State, from: nat, p: nat, k: nat)
    requires Shape(s) && IsThere(s, p, k)
    ensures PageAddress(p, s.ps) <= Shown(s, from, p, k).0
    ensures Shown(s, from, p, k).0 + |Shown(s, from, p, k).1| <= PageAddress(p + 1, s.ps)
    ensures forall j: nat :: k < j < |s.pages[p].latest| ==>
              Shown(s, from, p, k).0 + |Shown(s, from, p, k).1| <= Shown(s, from, p, j).0
  {
    hide IsRecord, At;
    assert PageShape(s.pages[p], s.ps);
    var records := s.pages[p].latest;
    AtNext(records, k);
    AtAscends(records, k + 1, |records|);
    PageAddressMonotone(p, p, s.ps);
    forall j: nat | k < j < |records|
      ensures At(records, k + 1) <= At(records, j)
    {
      AtAscends(records, k + 1, j);
    }
  }

  lemma OnePageInOrder(s: State, from: nat, to: nat, p: nat, i: nat)
    requires Inv(s) && CutsAll(s, to) && p < |s.pages| && from < PageAddress(p + 1, s.ps)
    requires i <= Ending(s.pages[p].latest, Offset(to, p, s.ps))
    ensures InOrder(OnePage(s, from, to, p, i))
    ensures forall x :: 0 <= x < |OnePage(s, from, to, p, i)| ==>
              OnePage(s, from, to, p, i)[x].0 + |OnePage(s, from, to, p, i)[x].1| <= PageAddress(p + 1, s.ps)
  {
    hide Bounds, Cuts, Memory, Device, PageShape, CutsAll, Ending, OnePage, Shown, PageAddress, Address;
    var v := OnePage(s, from, to, p, i);
    OnePageSize(s, from, to, p, i);
    LayoutSizes(s, from, to);
    forall x | 0 <= x < |v|
      ensures v[x].0 + |v[x].1| <= PageAddress(p + 1, s.ps)
      ensures forall y :: x < y < |v| ==> v[x].0 + |v[x].1| <= v[y].0
    {
      OnePageAt(s, from, to, p, i, i + x);
      OnItsPage(s, from, p, i + x);
      forall y | x < y < |v|
        ensures v[x].0 + |v[x].1| <= v[y].0
      {
        OnePageAt(s, from, to, p, i, i + y);
      }
    }
  }

  /** One page's visits in front of those of all later pages. */
  lemma PageInFront(s: State, from: nat, to: nat, p: nat, i: nat, rest: seq<Visit>)
    requires Inv(s) && CutsAll(s, to) && p < |s.pages| && from < PageAddress(p + 1, s.ps)
    requires i <= Ending(s.pages[p].latest, Offset(to, p, s.ps))
    requires Exactly(s, from, p + 1, 0, to, rest)
    ensures Exactly(s, from, p, i, to, OnePage(s, from, to, p, i) + rest)
  {
    hide Bounds, Cuts, Memory, Device, PageShape, CutsAll, Ending, OnePage, Shown, Address, PageAddress;
    var v := OnePage(s, from, to, p, i);
    var end := Ending(s.pages[p].latest, Offset(to, p, s.ps));
    OnePageSize(s, from, to, p, i);
    OnePageInOrder(s, from, to, p, i);
    forall x | x in rest
      ensures PageAddress(p + 1, s.ps) <= x.0
    {
      var q: nat, k: nat :| Wanted(s, p + 1, 0, to, q, k) && x == Shown(s, from, q, k);
      OnItsPage(s, from, q, k);
      PageAddressMonotone(p + 1, q, s.ps);
    }
    forall q: nat, k: nat | Wanted(s, p, i, to, q, k)
      ensures Shown(s, from, q, k) in v + rest
    {
      if q == p {
        ReadIsShown(s, from, to, p, k);
        OnePageAt(s, from, to, p, i, k);
      } else {
        assert Wanted(s, p + 1, 0, to, q, k);
      }
    }
    forall x | x in v + rest
      ensures exists q: nat, k: nat :: Wanted(s, p, i, to, q, k) && x == Shown(s, from, q, k)
    {
      if x in v {
        var n :| 0 <= n < |v| && v[n] == x;
        OnePageAt(s, from, to, p, i, i + n);
        assert Wanted(s, p, i, to, p, i + n);
      } else {
        var q: nat, k: nat :| Wanted(s, p + 1, 0, to, q, k) && x == Shown(s, from, q, k);
        assert Wanted(s, p, i, to, q, k);
      }
    }
  }

  /** Behind the end of the scan there is nothing to visit. */
  lemma NothingBehind(s: State, from: nat, to: nat, p: nat, i: nat)
    requires Shape(s) && p <= |s.pages|
    requires p < |s.pages| ==> i <= |s.pages[p].latest| && to <= Entry(s, p, from) < PageAddress(p + 1, s.ps)
    requires p < |s.pages| ==> Max(Excess(from, PageAddress(p, s.ps)), PAGE_HEADER_SIZE) == At(s.pages[p].latest, i)
    ensures Exactly(s, from, p, i, to, [])
  {
    hide PageShape, Shown, PageAddress;
    forall q: nat, k: nat | Wanted(s, p, i, to, q, k)
      ensures false
    {
      if q == p {
        AtAscends(s.pages[p].latest, i, k);
      } else {
        PageAddressMonotone(p + 1, q, s.ps);
      }
    }
  }

  lemma ExpectedStep(s: State, from: nat, to: nat, p: nat, i: nat)
    requires Inv(s) && to <= Tail(s) && CutsAll(s, to) && p < |s.pages| && Entry(s, p, from) < to
    requires i <= Ending(s.pages[p].latest, Offset(to, p, s.ps)) && from < PageAddress(p + 1, s.ps)
    ensures |MediumOf(s).device| == |LayoutOf(s, from, to).records| == |LayoutOf(s, from, to).ends|
    ensures var m, l := MediumOf(s), LayoutOf(s, from, to);
            Expected(m, l, p, i, Entry(s, p, from), to)
            == OnePage(s, from, to, p, i) + Expected(m, l, p + 1, 0, PageAddress(p + 1, s.ps), to)
  {
    hide Ending, RecordsRead, Bounds, Cuts, Memory, Device, PageShape, Between;
  }

  /** The list that the page walk comes to is the records in range. */
  lemma {:induction false} BuiltExact(s: State, from: nat, to: nat, p: nat, i: nat)
    requires Inv(s) && to <= Tail(s) && CutsAll(s, to) && p <= |s.pages|
    requires p < |s.pages| ==> i <= |s.pages[p].latest| && Entry(s, p, from) < PageAddress(p + 1, s.ps)
    requires p < |s.pages| ==> Max(Excess(from, PageAddress(p, s.ps)), PAGE_HEADER_SIZE) == At(s.pages[p].latest, i)
    ensures |MediumOf(s).device| == |LayoutOf(s, from, to).records| == |LayoutOf(s, from, to).ends|
    ensures Exactly(s, from, p, i, to,
                    Expected(MediumOf(s), LayoutOf(s, from, to), p, i, Entry(s, p, from), to))
    decreases |s.pages| - p
  {
    hide Bounds, Cuts, Memory, Device, PageShape, CutsAll, Exactly, LayoutOf, PageOk;
    LayoutSizes(s, from, to);
    if p < |s.pages| && Entry(s, p, from) < to {
      PageIsOk(s, p, i, from, to);
      EndsOf(s, from, to, p, i);
      NextEntry(s, p, from);
      BuiltExact(s, from, to, p + 1, 0);
      PageInFront(s, from, to, p, i,
                  Expected(MediumOf(s), LayoutOf(s, from, to), p + 1, 0, PageAddress(p + 1, s.ps), to));
      ExpectedStep(s, from, to, p, i);
    } else {
      NothingBehind(s, from, to, p, i);
    }
  }

  lemma EndsOf(s: State, from: nat, to: nat, p: nat, i: nat)
    requires Inv(s) && p < |s.pages|
    requires Readable(MediumOf(s), to) && |MediumOf(s).device| == |LayoutOf(s, from, to).records|
    requires |LayoutOf(s, from, to).below| == |LayoutOf(s, from, to).ends| == |s.pages|
    requires PageOk(MediumOf(s), LayoutOf(s, from, to), p, i, Entry(s, p, from), to)
    ensures i <= Ending(s.pages[p].latest, Offset(to, p, s.ps))
  {
    hide Ending, RecordsRead, Bounds, Cuts, Memory, Device, PageShape, Straddles;
  }

  /** Positions and addresses are ordered alike. */
  lemma PositionOrder(s: State, p: nat, i: nat, q: nat, k: nat)
    requires Shape(s) && p < |s.pages| && i <= |s.pages[p].latest| && At(s.pages[p].latest, i) < s.ps
    requires IsThere(s, q, k)
    ensures (p < q || (p == q && i <= k)) <==> Address(s, p, i) <= Address(s, q, k)
  {
    hide IsRecord, At, PageAddress;
    assert PageShape(s.pages[q], s.ps);
    AtNext(s.pages[q].latest, k);
    AtStrict(s.pages[q].latest, k, k + 1);
    AtAscends(s.pages[q].latest, k + 1, |s.pages[q].latest|);
    PageAddressMonotone(p, q, s.ps);
    PageAddressMonotone(p + 1, q, s.ps);
    PageAddressMonotone(q, p, s.ps);
    PageAddressMonotone(q + 1, p, s.ps);
    if p == q {
      if i <= k {
        AtAscends(s.pages[p].latest, i, k);
      } else {
        AtStrict(s.pages[p].latest, k, i);
      }
    }
  }

  /** The first place of the scan, as an address and as a position. */
  lemma FromPosition(s: State, from: nat, to: nat, p: nat, i: nat)
    requires Shape(s) && StartsAt(s, from, p, i)
    ensures PAGE_HEADER_SIZE <= from && PageOfAddress(from, s.ps) == p && Entry(s, p, from) == from
    ensures from < PageAddress(p + 1, s.ps)
    ensures Max(Excess(from, PageAddress(p, s.ps)), PAGE_HEADER_SIZE) == At(s.pages[p].latest, i)
    ensures forall q: nat, k: nat :: Wanted(s, p, i, to, q, k) <==> IsThere(s, q, k) && from <= Address(s, q, k) < to
  {
    FromPage(s, from, p, i);
    hide Shape, PageAddress, At;
    forall q: nat, k: nat | IsThere(s, q, k)
      ensures (p < q || (p == q && i <= k)) <==> from <= Address(s, q, k)
    {
      PositionOrder(s, p, i, q, k);
    }
  }

  lemma FromPage(s: State, from: nat, p: nat, i: nat)
    requires Shape(s) && StartsAt(s, from, p, i)
    ensures PAGE_HEADER_SIZE <= from && PageOfAddress(from, s.ps) == p && Entry(s, p, from) == from
    ensures from < PageAddress(p + 1, s.ps)
    ensures Max(Excess(from, PageAddress(p, s.ps)), PAGE_HEADER_SIZE) == At(s.pages[p].latest, i)
  {
    hide IsRecord, PageShape, At;
    PageAddressMonotone(p, p, s.ps);
    PageOf(from, s.ps, p);
  }

  /** The records in `[from, to)`, each once, in address order, and nothing else. */
  ghost predicate ScanRight(s: State, from: nat, to: nat, v: seq<Visit>)
    requires Shape(s)
  {
    && InOrder(v)
    && (forall p: nat, k: nat :: IsThere(s, p, k) && from <= Address(s, p, k) < to ==> Shown(s, from, p, k) in v)
    && (forall x :: x in v ==>
          exists p: nat, k: nat :: IsThere(s, p, k) && from <= Address(s, p, k) < to && x == Shown(s, from, p, k))
  }

  /** A scan from any record to any place between records visits exactly the records in between. */
  lemma BuiltScan(s: State, from: nat, to: nat, p: nat, i: nat)
    requires Inv(s) && StartsAt(s, from, p, i) && to <= Tail(s) && CutsAll(s, to)
    ensures Readable(MediumOf(s), to)
    ensures ScanRight(s, from, to, LogVisits(MediumOf(s), p, from, to))
  {
    hide Bounds, Cuts, Memory, Device, PageShape, CutsAll, StartsAt, LayoutOf;
    assert p < |s.pages| && i <= |s.pages[p].latest| && from == Address(s, p, i) by {
      Begins(s, from, p, i);
    }
    FromPosition(s, from, to, p, i);
    LayoutSizes(s, from, to);
    BuiltLaidOut(s, from, to, p, i);
    ScanExact(MediumOf(s), LayoutOf(s, from, to), p, i, from, to);
    BuiltExact(s, from, to, p, i);
    WantedIsInRange(s, from, to, p, i, LogVisits(MediumOf(s), p, from, to));
  }

  lemma Begins(s: State, from: nat, p: nat, i: nat)
    requires StartsAt(s, from, p, i)
    ensures p < |s.pages| && i <= |s.pages[p].latest| && from == Address(s, p, i)
  {
  }

  lemma WantedIsInRange(s: State, from: nat, to: nat, p: nat, i: nat, v: seq<Visit>)
    requires Shape(s) && Exactly(s, from, p, i, to, v)
    requires forall q: nat, k: nat :: Wanted(s, p, i, to, q, k) <==> IsThere(s, q, k) && from <= Address(s, q, k) < to
    ensures ScanRight(s, from, to, v)
  {
    hide Shape, Wanted, InOrder, Shown, Address;
    forall x | x in v
      ensures exists q: nat, k: nat :: IsThere(s, q, k) && from <= Address(s, q, k) < to && x == Shown(s, from, q, k)
    {
      var q: nat, k: nat :| Wanted(s, p, i, to, q, k) && x == Shown(s, from, q, k);
      assert IsThere(s, q, k);
    }
  }

  /** `scan` over a log after any number of steps. */
  method ScanOfRun(m: Medium, from: nat, to: nat, ghost slots: nat, ghost s: State, ghost p: nat, ghost i: nat)
    returns (visits: seq<Visit>)
    requires Reached(slots, s) && m == MediumOf(s)
    requires StartsAt(s, from, p, i) && to <= Tail(s) && CutsAll(s, to)
    ensures ScanRight(s, from, to, visits)
  {
    FromPosition(s, from, to, p, i);
    BuiltScan(s, from, to, p, i);
    visits := ScanLog(m, from, to);
  }

  /** Where a scan may end: at any tail the log has had, at a page start, and before or behind any record. */
  lemma PlacesCut(s: State, a: nat)
    requires Inv(s)
    requires a in s.tails || IsPageStart(a, s.ps) || exists p: nat, k: nat :: EndsRecord(s, a, p, k)
    ensures CutsAll(s, a)
  {
    if a !in s.tails {
      forall q | 0 <= q < |s.pages|
        ensures Cut(s.pages[q].latest, Offset(a, q, s.ps), s.ps)
      {
        if IsPageStart(a, s.ps) {
          PageStartCuts(a, q, s.ps);
        } else {
          var p: nat, k: nat :| EndsRecord(s, a, p, k);
          RecordCuts(s, a, p, k, q);
        }
      }
    }
  }

  ghost predicate EndsRecord(s: State, a: nat, p: nat, k: nat) {
    p < |s.pages| && k <= |s.pages[p].latest| && a == Address(s, p, k)
  }

  lemma RecordCuts(s: State, a: nat, p: nat, k: nat, q: nat)
    requires Shape(s) && EndsRecord(s, a, p, k) && q < |s.pages|
    ensures Cut(s.pages[q].latest, Offset(a, q, s.ps), s.ps)
  {
    hide IsRecord, At;
    var records := s.pages[p].latest;
    assert PageShape(s.pages[p], s.ps);
    AtAscends(records, k, |records|);
    PageAddressMonotone(p, p, s.ps);
    if p < q {
      PageAddressMonotone(p + 1, q, s.ps);
    } else if q < p {
      PageAddressMonotone(q + 1, p, s.ps);
      PageAddressMonotone(q, q, s.ps);
    }
  }
}
