/**
  Record layout and the scans over it (crates/tsavorite/src/record.rs:180-215,
  338-402, crates/tsavorite/src/log.rs:455-484, 530-591). A record's header says
  how long it is, so a page can be walked record by record until a header of
  zeros. A scan reads what is flushed from the device and the rest from memory,
  and one page can lie across the boundary.
 */
module Scan {
  import opened Bytes
  import opened Numbers
  import opened HybridLogs
  import opened RecordLayout

  const PAGE_HEADER_SIZE: nat := 64

  function Field(bytes: seq<Byte>, off: nat, len: nat): nat
    requires off + len <= |bytes|
  {
    FromLe(bytes[off..off + len])
  }

  /** `total_size_from_header`: what a reader makes of the header. */
  function SizeAt(bytes: seq<Byte>, off: nat): (n: nat)
    requires off + FIXED_HEADER_SIZE <= |bytes|
    ensures FIXED_HEADER_SIZE <= n
  {
    TotalSize(Field(bytes, off + 8, 4), Field(bytes, off + 16, 4), Field(bytes, off + 20, 4) % 2 == 1)
  }

  /** The walker's stop sign: no header word, no key and no value. */
  predicate BlankAt(bytes: seq<Byte>, off: nat)
    requires off + FIXED_HEADER_SIZE <= |bytes|
  {
    Field(bytes, off, 8) == 0 && Field(bytes, off + 8, 4) == 0 && Field(bytes, off + 16, 4) == 0
  }

  /** A record as it lies in a page: as long as its header says, and not blank. */
  predicate IsRecord(r: seq<Byte>) {
    FIXED_HEADER_SIZE <= |r| && SizeAt(r, 0) == |r| && !BlankAt(r, 0)
  }

  /** Header word, lengths, capacity and flags, as `init` writes them. */
  function HeaderBytes(info: nat, keyLen: nat, valueLen: nat, cap: nat, flags: nat): (h: seq<Byte>)
    ensures |h| == FIXED_HEADER_SIZE
  {
    Le(info, 8) + Le(keyLen, 4) + Le(valueLen, 4) + Le(cap, 4) + Le(flags, 4)
  }

  /** Deadline, key and value buffer, padded so that the whole record is a multiple of eight. */
  function BodyBytes(key: seq<Byte>, buffer: seq<Byte>, expiration: Option<nat>): (body: seq<Byte>)
    ensures FIXED_HEADER_SIZE + |body| == TotalSize(|key|, |buffer|, expiration.Some?)
  {
    var raw := (if expiration.Some? then Le(expiration.value, 8) else []) + key + buffer;
    raw + seq(Align8(FIXED_HEADER_SIZE + |raw|) - FIXED_HEADER_SIZE - |raw|, _ => 0)
  }

  /** A record as `init` and the writers leave it. */
  function Image(info: nat, key: seq<Byte>, valueLen: nat, buffer: seq<Byte>, expiration: Option<nat>): seq<Byte> {
    HeaderBytes(info, |key|, valueLen, |buffer|, if expiration.Some? then 1 else 0) + BodyBytes(key, buffer, expiration)
  }

  lemma Parts(a: seq<Byte>, b: seq<Byte>, c: seq<Byte>, d: seq<Byte>, e: seq<Byte>, rest: seq<Byte>)
    requires |a| == 8 && |b| == |c| == |d| == |e| == 4
    ensures var s := a + b + c + d + e + rest;
            s[0..8] == a && s[8..12] == b && s[16..20] == d && s[20..24] == e
  {
  }

  /** What the header fields read back. */
  lemma HeaderReads(info: nat, keyLen: nat, valueLen: nat, cap: nat, flags: nat, rest: seq<Byte>)
    requires info < Pow256(8) && keyLen < Pow256(4) && cap < Pow256(4) && flags < Pow256(4)
    ensures var s := HeaderBytes(info, keyLen, valueLen, cap, flags) + rest;
            && Field(s, 0, 8) == info && Field(s, 8, 4) == keyLen
            && Field(s, 16, 4) == cap && Field(s, 20, 4) == flags
  {
    LeRoundTrip(info, 8);
    LeRoundTrip(keyLen, 4);
    LeRoundTrip(cap, 4);
    LeRoundTrip(flags, 4);
    Parts(Le(info, 8), Le(keyLen, 4), Le(valueLen, 4), Le(cap, 4), Le(flags, 4), rest);
  }

  /** What the allocator set aside for a record is what its header says. */
  lemma ImageIsRecord(info: nat, key: seq<Byte>, valueLen: nat, buffer: seq<Byte>, expiration: Option<nat>)
    requires 0 < info < Pow256(8) && |key| < Pow256(4) && |buffer| < Pow256(4)
    ensures IsRecord(Image(info, key, valueLen, buffer, expiration))
    ensures |Image(info, key, valueLen, buffer, expiration)| == TotalSize(|key|, |buffer|, expiration.Some?)
  {
    HeaderReads(info, |key|, valueLen, |buffer|, if expiration.Some? then 1 else 0,
                BodyBytes(key, buffer, expiration));
  }

  // ---------------------------------------------------------------------
  // One page
  // ---------------------------------------------------------------------

  /** A record and the offset at which it was found. */
  type Visit = (nat, seq<Byte>)

  predicate Stops(bytes: seq<Byte>, off: nat, limit: nat)
    requires limit <= |bytes|
  {
    || limit < off + FIXED_HEADER_SIZE
    || BlankAt(bytes, off)
    || limit < off + SizeAt(bytes, off)
  }

  /** `for_each_record_in_buf`: the records it finds from `off` on. */
  function Walk(bytes: seq<Byte>, off: nat, limit: nat): seq<Visit>
    requires limit <= |bytes|
    decreases limit - off
  {
    if Stops(bytes, off, limit) then []
    else
      var size := SizeAt(bytes, off);
      [(off, bytes[off..off + size])] + Walk(bytes, off + size, limit)
  }

  /** Where the walk stands after these visits. */
  function EndOf(visits: seq<Visit>, from: nat): nat {
    if visits == [] then from else visits[|visits| - 1].0 + |visits[|visits| - 1].1|
  }

  /** What the walker has found, and what it has ahead. */
  ghost predicate WalkedTo(whole: seq<Visit>, bytes: seq<Byte>, limit: nat, visits: seq<Visit>, off: nat)
    requires limit <= |bytes|
  {
    whole == visits + Walk(bytes, off, limit)
  }

  lemma WalkBegins(whole: seq<Visit>, bytes: seq<Byte>, limit: nat, off: nat)
    requires limit <= |bytes| && whole == Walk(bytes, off, limit)
    ensures WalkedTo(whole, bytes, limit, [], off)
  {
    assert [] + whole == whole;
  }

  lemma WalkStops(whole: seq<Visit>, bytes: seq<Byte>, limit: nat, visits: seq<Visit>, off: nat)
    requires limit <= |bytes| && WalkedTo(whole, bytes, limit, visits, off) && Stops(bytes, off, limit)
    ensures visits == whole
  {
    assert visits + [] == visits;
  }

  lemma WalkStep(whole: seq<Visit>, bytes: seq<Byte>, limit: nat, visits: seq<Visit>, off: nat,
                 visit: Visit, next: nat)
    requires limit <= |bytes| && !Stops(bytes, off, limit) && WalkedTo(whole, bytes, limit, visits, off)
    requires next == off + SizeAt(bytes, off) && visit == (off, bytes[off..next])
    ensures WalkedTo(whole, bytes, limit, visits + [visit], next)
  {
  }

  /** The size of the record at `off`, or 0 where the walk stops. */
  method RecordSize(bytes: seq<Byte>, off: nat, limit: nat) returns (size: nat)
    requires off + FIXED_HEADER_SIZE <= limit <= |bytes|
    ensures size == if Stops(bytes, off, limit) then 0 else SizeAt(bytes, off)
  {
    if BlankAt(bytes, off) {
      return 0;
    }
    size := SizeAt(bytes, off);
    if limit < off + size {
      return 0;
    }
  }

  method ForEachRecord(bytes: seq<Byte>, fromOff: nat, limit: nat) returns (visits: seq<Visit>, next: nat)
    requires limit <= |bytes|
    ensures visits == Walk(bytes, fromOff, limit) && next == EndOf(visits, fromOff)
  {
    visits, next := [], fromOff;
    ghost var whole := Walk(bytes, fromOff, limit);
    WalkBegins(whole, bytes, limit, fromOff);
    while next + FIXED_HEADER_SIZE <= limit
      invariant WalkedTo(whole, bytes, limit, visits, next)
      invariant next == EndOf(visits, fromOff)
      decreases limit - next
    {
      var size := RecordSize(bytes, next, limit);
      if size == 0 {
        WalkStops(whole, bytes, limit, visits, next);
        return;
      }
      var visit := (next, bytes[next..next + size]);
      WalkStep(whole, bytes, limit, visits, next, visit, next + size);
      visits := visits + [visit];
      next := next + size;
    }
    WalkStops(whole, bytes, limit, visits, next);
  }

  /** Where the k-th record of a page starts. */
  function At(records: seq<seq<Byte>>, k: nat): (off: nat)
    requires k <= |records|
    ensures PAGE_HEADER_SIZE <= off
  {
    if k == 0 then PAGE_HEADER_SIZE else At(records, k - 1) + |records[k - 1]|
  }

  /** The records from the i-th up to the j-th, each with its offset. */
  function Between(records: seq<seq<Byte>>, i: nat, j: nat): seq<Visit>
    requires i <= j <= |records|
    decreases j - i
  {
    if i == j then [] else [(At(records, i), records[i])] + Between(records, i + 1, j)
  }

  predicate HoldsAt(bytes: seq<Byte>, records: seq<seq<Byte>>, k: nat)
    requires k < |records|
  {
    && IsRecord(records[k]) && At(records, k + 1) <= |bytes|
    && bytes[At(records, k)..At(records, k) + |records[k]|] == records[k]
  }

  /** The page holds the records from the i-th up to the j-th where they belong. */
  ghost predicate Holds(bytes: seq<Byte>, records: seq<seq<Byte>>, i: nat, j: nat)
    requires j <= |records|
  {
    forall k: nat :: i <= k < j ==> HoldsAt(bytes, records, k)
  }

  /** A limit that ends with the j-th record, or lies in the zeros after the last. */
  ghost predicate Ends(bytes: seq<Byte>, records: seq<seq<Byte>>, j: nat, limit: nat)
    requires j <= |records|
  {
    && At(records, j) <= limit <= |bytes|
    && (At(records, j) < limit ==> j == |records| && forall x: nat :: At(records, j) <= x < limit ==> bytes[x] == 0)
  }

  lemma FieldShift(bytes: seq<Byte>, r: seq<Byte>, off: nat, from: nat, len: nat)
    requires off + |r| <= |bytes| && bytes[off..off + |r|] == r && from + len <= |r|
    ensures Field(bytes, off + from, len) == Field(r, from, len)
  {
    var a, b := bytes[off + from..off + from + len], r[from..from + len];
    forall x: nat | x < len
      ensures a[x] == b[x]
    {
      assert bytes[off..off + |r|][from + x] == bytes[off + from + x];
    }
    assert a == b;
  }

  /** A record reads the same in its page as alone. */
  lemma RecordInPlace(bytes: seq<Byte>, records: seq<seq<Byte>>, k: nat)
    requires k < |records| && HoldsAt(bytes, records, k)
    ensures SizeAt(bytes, At(records, k)) == |records[k]| && !BlankAt(bytes, At(records, k))
  {
    var off, r := At(records, k), records[k];
    FieldShift(bytes, r, off, 0, 8);
    FieldShift(bytes, r, off, 8, 4);
    FieldShift(bytes, r, off, 16, 4);
    FieldShift(bytes, r, off, 20, 4);
  }

  lemma {:induction false} ZerosRead(s: seq<Byte>)
    requires forall x: nat :: x < |s| ==> s[x] == 0
    ensures FromLe(s) == 0
  {
    if s != [] {
      ZerosRead(s[1..]);
    }
  }

  lemma ZerosAreBlank(bytes: seq<Byte>, off: nat)
    requires off + FIXED_HEADER_SIZE <= |bytes|
    requires forall x: nat :: off <= x < off + FIXED_HEADER_SIZE ==> bytes[x] == 0
    ensures BlankAt(bytes, off)
  {
    ZerosRead(bytes[off..off + 8]);
    ZerosRead(bytes[off + 8..off + 12]);
    ZerosRead(bytes[off + 16..off + 20]);
  }

  /** Past the records, the walker finds nothing. */
  lemma WalkNothing(bytes: seq<Byte>, off: nat, limit: nat)
    requires limit <= |bytes| && forall x: nat :: off <= x < limit ==> bytes[x] == 0
    ensures Walk(bytes, off, limit) == []
  {
    if off + FIXED_HEADER_SIZE <= limit {
      ZerosAreBlank(bytes, off);
    }
  }

  lemma {:induction false} AtAscends(records: seq<seq<Byte>>, i: nat, j: nat)
    requires i <= j <= |records|
    ensures At(records, i) <= At(records, j)
    decreases j
  {
    if i < j {
      AtAscends(records, i, j - 1);
    }
  }

  lemma WalkOne(bytes: seq<Byte>, off: nat, limit: nat, r: seq<Byte>)
    requires FIXED_HEADER_SIZE <= |r| && off + |r| <= limit <= |bytes| && bytes[off..off + |r|] == r
    requires SizeAt(bytes, off) == |r| && !BlankAt(bytes, off)
    ensures Walk(bytes, off, limit) == [(off, r)] + Walk(bytes, off + |r|, limit)
  {
  }

  /** The walker recovers the records of a page, each once and in order. */
  lemma {:induction false} WalkExact(bytes: seq<Byte>, records: seq<seq<Byte>>, i: nat, j: nat, limit: nat)
    requires i <= j <= |records| && limit <= |bytes| && Holds(bytes, records, i, j) && Ends(bytes, records, j, limit)
    ensures Walk(bytes, At(records, i), limit) == Between(records, i, j)
    decreases j - i
  {
    if i == j {
      WalkNothing(bytes, At(records, i), limit);
    } else {
      assert HoldsAt(bytes, records, i);
      RecordInPlace(bytes, records, i);
      AtAscends(records, i + 1, j);
      WalkOne(bytes, At(records, i), limit, records[i]);
      WalkExact(bytes, records, i + 1, j, limit);
    }
  }

  // ---------------------------------------------------------------------
  // Across the device and memory
  // ---------------------------------------------------------------------

  lemma {:induction false} BetweenJoins(records: seq<seq<Byte>>, i: nat, d: nat, j: nat)
    requires i <= d <= j <= |records|
    ensures Between(records, i, j) == Between(records, i, d) + Between(records, d, j)
    decreases d - i
  {
    if i < d {
      BetweenJoins(records, i + 1, d, j);
    }
  }

  lemma {:induction false} BetweenEnds(records: seq<seq<Byte>>, i: nat, j: nat)
    requires i < j <= |records|
    ensures Between(records, i, j) != [] && EndOf(Between(records, i, j), At(records, i)) == At(records, j)
    decreases j - i
  {
    if i + 1 < j {
      BetweenEnds(records, i + 1, j);
    }
  }

  /**
    What is known of a page that a scan reads: the image flushed to the device
    holds the records below `diskLimit`, and memory those from there to `limit`,
    if there are any. Otherwise memory may hold another page by now. `d` is the
    number of records below `diskLimit`.
   */
  ghost predicate Straddles(disk: seq<Byte>, memory: seq<Byte>, records: seq<seq<Byte>>,
                            d: nat, j: nat, diskLimit: nat, limit: nat)
  {
    && d <= j <= |records| && diskLimit <= limit
    && Holds(disk, records, 0, d)
    && (if diskLimit <= PAGE_HEADER_SIZE then d == 0 else Ends(disk, records, d, diskLimit))
    && (if diskLimit == limit then d == j else
          && Holds(memory, records, d, j) && Ends(memory, records, j, limit)
          && (At(records, d) < diskLimit ==> forall x: nat :: diskLimit <= x < limit ==> memory[x] == 0))
  }

  /** One page of a scan: the device up to `diskLimit`, then memory. */
  method ScanPage(disk: seq<Byte>, memory: seq<Byte>, startOff: nat, diskLimit: nat, limit: nat)
    returns (visits: seq<Visit>)
    requires diskLimit <= |disk| && diskLimit <= limit <= |memory|
    ensures visits == PageVisits(disk, memory, startOff, diskLimit, limit)
  {
    visits := [];
    var nextOff := startOff;
    if startOff < diskLimit {
      visits, nextOff := ForEachRecord(disk, startOff, diskLimit);
    }
    if nextOff < limit {
      var rest, _ := ForEachRecord(memory, Max(nextOff, diskLimit), limit);
      visits := visits + rest;
    }
  }

  /** What one page of a scan visits. */
  function PageVisits(disk: seq<Byte>, memory: seq<Byte>, startOff: nat, diskLimit: nat, limit: nat): seq<Visit>
    requires diskLimit <= |disk| && diskLimit <= limit <= |memory|
  {
    var below := if startOff < diskLimit then Walk(disk, startOff, diskLimit) else [];
    var nextOff := EndOf(below, startOff);
    below + if nextOff < limit then Walk(memory, Max(nextOff, diskLimit), limit) else []
  }

  lemma HoldsFrom(bytes: seq<Byte>, records: seq<seq<Byte>>, i: nat, k: nat, j: nat)
    requires i <= k <= j <= |records| && Holds(bytes, records, i, j)
    ensures Holds(bytes, records, k, j)
  {
  }

  lemma {:induction false} AtGrows(bytes: seq<Byte>, records: seq<seq<Byte>>, i: nat, j: nat)
    requires i < j <= |records| && Holds(bytes, records, i, j)
    ensures At(records, i) + FIXED_HEADER_SIZE <= At(records, j)
  {
    assert HoldsAt(bytes, records, i);
    AtAscends(records, i + 1, j);
  }

  /** The walk in memory from where the device stopped, or from a record above that. */
  lemma UpperPart(disk: seq<Byte>, memory: seq<Byte>, records: seq<seq<Byte>>,
                  i: nat, d: nat, j: nat, diskLimit: nat, limit: nat)
    requires diskLimit <= |disk| && limit <= |memory|
    requires Straddles(disk, memory, records, d, j, diskLimit, limit) && d <= i <= j
    ensures (if At(records, i) < limit then Walk(memory, Max(At(records, i), diskLimit), limit) else [])
            == Between(records, i, j)
  {
    if diskLimit == limit {
      return;
    }
    HoldsFrom(memory, records, d, i, j);
    if i < j {
      AtGrows(memory, records, i, j);
    }
    AtAscends(records, d, i);
    if At(records, i) < diskLimit {
      WalkNothing(memory, diskLimit, limit);
    } else {
      WalkExact(memory, records, i, j, limit);
    }
  }

  lemma LowerPart(disk: seq<Byte>, memory: seq<Byte>, records: seq<seq<Byte>>,
                  i: nat, d: nat, j: nat, diskLimit: nat, limit: nat)
    requires diskLimit <= |disk| && limit <= |memory|
    requires Straddles(disk, memory, records, d, j, diskLimit, limit) && i < d
    ensures At(records, i) < diskLimit && Walk(disk, At(records, i), diskLimit) == Between(records, i, d)
    ensures EndOf(Between(records, i, d), At(records, i)) == At(records, d)
  {
    HoldsFrom(disk, records, 0, i, d);
    AtGrows(disk, records, i, d);
    WalkExact(disk, records, i, d, diskLimit);
    BetweenEnds(records, i, d);
  }

  /** Wherever the boundary lies, the page's records are visited once, in order. */
  lemma PageExact(disk: seq<Byte>, memory: seq<Byte>, records: seq<seq<Byte>>,
                  i: nat, d: nat, j: nat, diskLimit: nat, limit: nat)
    requires i <= j && diskLimit <= |disk| && diskLimit <= limit <= |memory|
    requires Straddles(disk, memory, records, d, j, diskLimit, limit)
    ensures PageVisits(disk, memory, At(records, i), diskLimit, limit) == Between(records, i, j)
  {
    if i < d {
      LowerPart(disk, memory, records, i, d, j, diskLimit, limit);
      UpperPart(disk, memory, records, d, d, j, diskLimit, limit);
      BetweenJoins(records, i, d, j);
    } else {
      AtAscends(records, d, i);
      UpperPart(disk, memory, records, i, d, j, diskLimit, limit);
      if At(records, i) < diskLimit {
        WalkNothing(disk, At(records, i), diskLimit);
      }
    }
  }

  /** Offsets within a page as logical addresses. */
  function Addressed(visits: seq<Visit>, base: nat): seq<Visit> {
    seq(|visits|, k requires 0 <= k < |visits| => (base + visits[k].0, visits[k].1))
  }

  /** Where the log is: its pages on the device and in memory, and the two boundaries between them. */
  datatype Medium = Medium(ps: nat, head: nat, flushed: nat, device: seq<seq<Byte>>, memory: seq<seq<Byte>>)

  /** How much of a page is read from the device, when the scan enters it at `addr`. */
  function DiskLimit(m: Medium, page: nat, addr: nat, to: nat): nat {
    if addr < m.head then Excess(Min(PageAddress(page + 1, m.ps), Min(to, m.flushed)), PageAddress(page, m.ps)) else 0
  }

  function Limit(m: Medium, page: nat, to: nat): nat {
    Excess(Min(PageAddress(page + 1, m.ps), to), PageAddress(page, m.ps))
  }

  function StartOff(m: Medium, page: nat, addr: nat): nat {
    Max(Excess(addr, PageAddress(page, m.ps)), PAGE_HEADER_SIZE)
  }

  predicate Readable(m: Medium, to: nat) {
    && 0 < m.ps && |m.device| == |m.memory| && to <= PageAddress(|m.device|, m.ps)
    && forall p: nat :: p < |m.device| ==> |m.device[p]| == |m.memory[p]| == m.ps
  }

  lemma LimitsFit(m: Medium, page: nat, addr: nat, to: nat)
    ensures PageAddress(page + 1, m.ps) == PageAddress(page, m.ps) + m.ps
    ensures DiskLimit(m, page, addr, to) <= Limit(m, page, to) <= m.ps
  {
    PageAddressMonotone(page, page, m.ps);
  }

  /** What a scan that has come to `addr`, on this page, still visits. */
  function LogVisits(m: Medium, page: nat, addr: nat, to: nat): seq<Visit>
    requires Readable(m, to)
    decreases |m.device| - page
  {
    if to <= addr || |m.device| <= page then []
    else
      LimitsFit(m, page, addr, to);
      Addressed(PageVisits(m.device[page], m.memory[page], StartOff(m, page, addr),
                           DiskLimit(m, page, addr, to), Limit(m, page, to)), PageAddress(page, m.ps))
      + LogVisits(m, page + 1, PageAddress(page + 1, m.ps), to)
  }

  /** `page_of`. */
  function PageOfAddress(addr: nat, ps: nat): (page: nat)
    requires 0 < ps
    ensures addr < PageAddress(page + 1, ps)
  {
    PageStart(addr, ps, addr / ps + 1);
    addr / ps
  }

  ghost predicate ScannedTo(m: Medium, to: nat, goal: seq<Visit>, visits: seq<Visit>, page: nat, addr: nat)
    requires Readable(m, to)
  {
    goal == visits + LogVisits(m, page, addr, to)
  }

  lemma ScanStarts(m: Medium, to: nat, page: nat, addr: nat)
    requires Readable(m, to)
    ensures ScannedTo(m, to, LogVisits(m, page, addr, to), [], page, addr)
  {
    var goal := LogVisits(m, page, addr, to);
    assert [] + goal == goal;
  }

  lemma ScanEnds(m: Medium, to: nat, goal: seq<Visit>, visits: seq<Visit>, page: nat, addr: nat)
    requires Readable(m, to) && to <= addr && ScannedTo(m, to, goal, visits, page, addr)
    ensures visits == goal
  {
  }

  function OnPage(m: Medium, page: nat, addr: nat, to: nat): seq<Visit>
    requires Readable(m, to) && page < |m.device|
  {
    LimitsFit(m, page, addr, to);
    PageVisits(m.device[page], m.memory[page], StartOff(m, page, addr),
               DiskLimit(m, page, addr, to), Limit(m, page, to))
  }

  lemma ScanStep(m: Medium, to: nat, goal: seq<Visit>, visits: seq<Visit>, page: nat, addr: nat)
    requires Readable(m, to) && page < |m.device| && addr < to && ScannedTo(m, to, goal, visits, page, addr)
    ensures ScannedTo(m, to, goal, visits + Addressed(OnPage(m, page, addr, to), PageAddress(page, m.ps)),
                      page + 1, PageAddress(page + 1, m.ps))
  {
  }

  /** One page of `scan`: the device up to the flushed boundary, if the scan is below Head, and memory. */
  method ReadPage(m: Medium, page: nat, addr: nat, to: nat) returns (visits: seq<Visit>)
    requires Readable(m, to) && page < |m.device|
    ensures visits == OnPage(m, page, addr, to)
  {
    LimitsFit(m, page, addr, to);
    visits := ScanPage(m.device[page], m.memory[page], StartOff(m, page, addr),
                       DiskLimit(m, page, addr, to), Limit(m, page, to));
  }

  lemma NextPage(page: nat, ps: nat)
    requires 0 < ps
    ensures PageOfAddress(PageAddress(page, ps), ps) == page
  {
    PageAddressMonotone(page, page, ps);
    PageOf(PageAddress(page, ps), ps, page);
  }

  lemma OnDevice(m: Medium, addr: nat, to: nat)
    requires Readable(m, to) && addr < to
    ensures PageOfAddress(addr, m.ps) < |m.device|
  {
    PageBelow(addr, m.ps, |m.device|);
  }

  lemma ScanTurn(m: Medium, to: nat, goal: seq<Visit>, visits: seq<Visit>, visits': seq<Visit>, addr: nat, next: nat)
    requires Readable(m, to) && addr < to && PageOfAddress(addr, m.ps) < |m.device|
    requires ScannedTo(m, to, goal, visits, PageOfAddress(addr, m.ps), addr)
    requires var page := PageOfAddress(addr, m.ps);
             && next == PageAddress(page + 1, m.ps)
             && visits' == visits + Addressed(OnPage(m, page, addr, to), PageAddress(page, m.ps))
    ensures ScannedTo(m, to, goal, visits', PageOfAddress(next, m.ps), next) && Excess(to, next) < Excess(to, addr)
  {
    ScanStep(m, to, goal, visits, PageOfAddress(addr, m.ps), addr);
    NextPage(PageOfAddress(addr, m.ps) + 1, m.ps);
  }

  /** One turn of the loop: visit the page that holds `addr`, and go to the next. */
  method VisitPage(m: Medium, to: nat, ghost goal: seq<Visit>, visits: seq<Visit>, addr: nat)
    returns (visits': seq<Visit>, next: nat)
    requires Readable(m, to) && addr < to && ScannedTo(m, to, goal, visits, PageOfAddress(addr, m.ps), addr)
    ensures ScannedTo(m, to, goal, visits', PageOfAddress(next, m.ps), next) && Excess(to, next) < Excess(to, addr)
  {
    var page := PageOfAddress(addr, m.ps);
    OnDevice(m, addr, to);
    var onPage := ReadPage(m, page, addr, to);
    visits' := visits + Addressed(onPage, PageAddress(page, m.ps));
    next := PageAddress(page + 1, m.ps);
    ScanTurn(m, to, goal, visits, visits', addr, next);
  }

  /** `scan`, page by page. */
  method ScanLog(m: Medium, from: nat, to: nat) returns (visits: seq<Visit>)
    requires Readable(m, to)
    ensures var start := Max(from, PAGE_HEADER_SIZE); visits == LogVisits(m, PageOfAddress(start, m.ps), start, to)
  {
    visits := [];
    var addr: nat := Max(from, PAGE_HEADER_SIZE);
    ghost var goal := LogVisits(m, PageOfAddress(addr, m.ps), addr, to);
    ScanStarts(m, to, PageOfAddress(addr, m.ps), addr);
    while addr < to
      invariant ScannedTo(m, to, goal, visits, PageOfAddress(addr, m.ps), addr)
      decreases Excess(to, addr)
    {
      visits, addr := VisitPage(m, to, goal, visits, addr);
    }
    ScanEnds(m, to, goal, visits, PageOfAddress(addr, m.ps), addr);
  }

  /** The pages of a log as its allocator laid them out: their records, and where the boundary and the end fall. */
  datatype Layout = Layout(records: seq<seq<seq<Byte>>>, below: seq<nat>, ends: seq<nat>)

  ghost predicate PageOk(m: Medium, l: Layout, page: nat, i: nat, addr: nat, to: nat)
    requires Readable(m, to) && page < |m.device| == |l.records| == |l.below| == |l.ends|
  {
    && i <= l.ends[page] <= |l.records[page]|
    && StartOff(m, page, addr) == At(l.records[page], i)
    && DiskLimit(m, page, addr, to) <= Limit(m, page, to) <= m.ps
    && Straddles(m.device[page], m.memory[page], l.records[page], l.below[page], l.ends[page],
                 DiskLimit(m, page, addr, to), Limit(m, page, to))
  }

  /** Every page that the scan reads is laid out, from record `i` of the first one. */
  ghost predicate LaidOut(m: Medium, l: Layout, page: nat, i: nat, addr: nat, to: nat)
    requires Readable(m, to) && |m.device| == |l.records| == |l.below| == |l.ends|
    decreases |m.device| - page
  {
    addr < to && page < |m.device| ==>
      PageOk(m, l, page, i, addr, to) && LaidOut(m, l, page + 1, 0, PageAddress(page + 1, m.ps), to)
  }

  /** All records in range, page after page, each at its logical address. */
  function Expected(m: Medium, l: Layout, page: nat, i: nat, addr: nat, to: nat): seq<Visit>
    requires |m.device| == |l.records| == |l.ends|
    decreases |m.device| - page
  {
    if to <= addr || |m.device| <= page || !(i <= l.ends[page] <= |l.records[page]|) then []
    else
      Addressed(Between(l.records[page], i, l.ends[page]), PageAddress(page, m.ps))
      + Expected(m, l, page + 1, 0, PageAddress(page + 1, m.ps), to)
  }

  /** A scan across device and memory visits each record in range once, in address order. */
  lemma {:induction false} ScanExact(m: Medium, l: Layout, page: nat, i: nat, addr: nat, to: nat)
    requires Readable(m, to) && |m.device| == |l.records| == |l.below| == |l.ends|
    requires LaidOut(m, l, page, i, addr, to)
    ensures LogVisits(m, page, addr, to) == Expected(m, l, page, i, addr, to)
    decreases |m.device| - page
  {
    if addr < to && page < |m.device| {
      PageExact(m.device[page], m.memory[page], l.records[page], i, l.below[page], l.ends[page],
                DiskLimit(m, page, addr, to), Limit(m, page, to));
      ScanExact(m, l, page + 1, 0, PageAddress(page + 1, m.ps), to);
    }
  }

  /** The k-th of them is the k-th record, where it starts. */
  lemma {:induction false} BetweenAt(records: seq<seq<Byte>>, i: nat, j: nat, k: nat)
    requires i <= k < j <= |records|
    ensures |Between(records, i, j)| == j - i && Between(records, i, j)[k - i] == (At(records, k), records[k])
    decreases j - i
  {
    if i + 1 < j {
      BetweenAt(records, i + 1, j, Max(i + 1, k));
    }
  }
}
