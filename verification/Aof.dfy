/**
  The append-only file (crates/garnet/src/aof.rs): entries are framed into a
  buffer, handed to the file, and made durable by commit. The file is a byte
  string; a crash keeps any length of it from what is committed to what is
  written. Each method runs under the log's mutex and is one step.
 */
module Aof {
  import opened Bytes
  import opened Numbers

  const AOF_VERSION: Byte := 1
  const HEADER_LEN: nat := 16
  const FLUSH_AT: nat := 64 * 1024
  const U32_LIMIT: nat := 0x1_0000_0000
  const U64_LIMIT: int := 0x1_0000_0000_0000_0000

  datatype Op = Command | TxnStart | TxnCommit

  datatype Entry = Entry(op: Op, timestamp: I64, payload: seq<Byte>)

  datatype CommitMode = Never | Interval | Always

  // ---------------------------------------------------------------------
  // Framing
  // ---------------------------------------------------------------------

  /** Two's complement of an i64. */
  function ToUnsigned(v: I64): nat {
    if v < 0 then U64_LIMIT + v else v
  }

  function ToSigned(u: nat): int {
    if u <= I64_MAX then u else u - U64_LIMIT
  }

  function OpCode(op: Op): Byte {
    match op
    case Command => 1
    case TxnStart => 2
    case TxnCommit => 3
  }

  function OpFrom(b: Byte): Option<Op> {
    if b == 1 then Some(Command) else if b == 2 then Some(TxnStart) else if b == 3 then Some(TxnCommit) else None
  }

  function Header(e: Entry): (h: seq<Byte>)
    ensures |h| == HEADER_LEN
  {
    Le(|e.payload| % U32_LIMIT, 4) + [AOF_VERSION, OpCode(e.op), 0, 0] + Le(ToUnsigned(e.timestamp), 8)
  }

  function Frame(e: Entry): seq<Byte> {
    Header(e) + e.payload
  }

  function Frames(es: seq<Entry>): seq<Byte> {
    if es == [] then [] else Frames(es[..|es| - 1]) + Frame(es[|es| - 1])
  }

  // ---------------------------------------------------------------------
  // Reading back
  // ---------------------------------------------------------------------

  function LengthAt(s: seq<Byte>): nat
    requires HEADER_LEN <= |s|
  {
    FromLe(s[..4])
  }

  /** The entry at the start of the durable bytes, unless it is torn or no entry at all. */
  predicate ReadsEntry(s: seq<Byte>) {
    && HEADER_LEN <= |s| && OpFrom(s[5]).Some? && s[4] == AOF_VERSION
    && HEADER_LEN + LengthAt(s) <= |s|
  }

  function EntryAt(s: seq<Byte>): (e: Entry)
    requires ReadsEntry(s)
  {
    Timestamped(OpFrom(s[5]).value, FromLe(s[8..16]), s[HEADER_LEN..HEADER_LEN + LengthAt(s)])
  }

  function Timestamped(op: Op, u: nat, payload: seq<Byte>): Entry {
    Entry(op, if IsI64(ToSigned(u)) then ToSigned(u) else 0, payload)
  }

  /** The entries that replay delivers from the durable bytes. */
  function Replay(s: seq<Byte>): seq<Entry>
    decreases |s|
  {
    if !ReadsEntry(s) then [] else [EntryAt(s)] + Replay(s[HEADER_LEN + LengthAt(s)..])
  }

  /** Payloads that a u32 length can frame. */
  predicate Framable(es: seq<Entry>) {
    forall k :: 0 <= k < |es| ==> |es[k].payload| < U32_LIMIT
  }

  lemma HeaderFields(a: seq<Byte>, b: seq<Byte>, c: seq<Byte>, more: seq<Byte>)
    requires |a| == 4 && |b| == 4 && |c| == 8
    ensures var s := a + b + c + more; s[..4] == a && s[4] == b[0] && s[5] == b[1] && s[8..16] == c
  {
  }

  lemma StampRoundTrip(v: I64)
    ensures ToSigned(FromLe(Le(ToUnsigned(v), 8))) == v
  {
    assert Pow256(8) == U64_LIMIT;
    LeRoundTrip(ToUnsigned(v), 8);
  }

  lemma HeaderReads(e: Entry, more: seq<Byte>)
    requires |e.payload| < U32_LIMIT
    ensures var s := Header(e) + more;
            && LengthAt(s) == |e.payload| && s[4] == AOF_VERSION && OpFrom(s[5]) == Some(e.op)
            && ToSigned(FromLe(s[8..16])) == e.timestamp
  {
    hide Le, FromLe;
    assert Pow256(4) == U32_LIMIT;
    LeRoundTrip(|e.payload|, 4);
    StampRoundTrip(e.timestamp);
    HeaderFields(Le(|e.payload|, 4), [AOF_VERSION, OpCode(e.op), 0, 0], Le(ToUnsigned(e.timestamp), 8), more);
  }

  /** A whole entry is read back as it was written. */
  lemma FrameReads(e: Entry, more: seq<Byte>)
    requires |e.payload| < U32_LIMIT
    ensures Replay(Frame(e) + more) == [e] + Replay(more)
  {
    var s := Frame(e) + more;
    assert s == Header(e) + (e.payload + more);
    HeaderReads(e, e.payload + more);
    assert s[HEADER_LEN..HEADER_LEN + |e.payload|] == e.payload;
    assert s[HEADER_LEN + |e.payload|..] == more;
  }

  /** A torn one is not delivered. */
  lemma TornIsSkipped(e: Entry, n: nat)
    requires |e.payload| < U32_LIMIT && n < |Frame(e)|
    ensures Replay(Frame(e)[..n]) == []
  {
    if HEADER_LEN <= n {
      assert Frame(e)[..n] == Header(e) + e.payload[..n - HEADER_LEN];
      HeaderReads(e, e.payload[..n - HEADER_LEN]);
    }
  }

  lemma Associates<T>(a: seq<T>, b: seq<T>, c: seq<T>)
    ensures a + b + c == a + (b + c)
  {
  }

  lemma LastJoins(es: seq<Entry>, more: seq<Entry>)
    requires es != []
    ensures es + more == es[..|es| - 1] + ([es[|es| - 1]] + more)
  {
  }

  lemma FramesExtend(es: seq<Entry>, e: Entry)
    ensures Frames(es + [e]) == Frames(es) + Frame(e)
  {
    assert (es + [e])[..|es|] == es;
  }

  lemma {:induction false} FramesRead(es: seq<Entry>, tail: seq<Byte>)
    requires Framable(es)
    ensures Replay(Frames(es) + tail) == es + Replay(tail)
  {
    if es == [] {
      assert Frames(es) + tail == tail;
    } else {
      var n := |es| - 1;
      FramesRead(es[..n], Frame(es[n]) + tail);
      FrameReads(es[n], tail);
      Associates(Frames(es[..n]), Frame(es[n]), tail);
      LastJoins(es, Replay(tail));
    }
  }

  /** Where the k-th entry ends. */
  function End(es: seq<Entry>, k: nat): nat
    requires k <= |es|
  {
    |Frames(es[..k])|
  }

  lemma {:induction false} EndsAscend(es: seq<Entry>, j: nat, k: nat)
    requires j <= k <= |es|
    ensures End(es, j) + (k - j) <= End(es, k)
    decreases k
  {
    if j < k {
      EndsAscend(es, j, k - 1);
      assert es[..k][..k - 1] == es[..k - 1];
    }
  }

  /** A cut through the log falls inside, or right before, one entry. */
  lemma {:induction false} CutFalls(es: seq<Entry>, cut: nat) returns (k: nat)
    requires cut <= |Frames(es)|
    ensures k <= |es| && End(es, k) <= cut
    ensures k < |es| ==> cut < End(es, k + 1) && cut - End(es, k) < |Frame(es[k])|
    ensures Frames(es)[..cut] == Frames(es[..k]) + (if k < |es| then Frame(es[k])[..cut - End(es, k)] else [])
  {
    var n := |es| - 1;
    if cut == |Frames(es)| {
      k := |es|;
      assert es[..k] == es;
    } else if cut < |Frames(es[..n])| {
      k := CutFalls(es[..n], cut);
      assert es[..n][..k] == es[..k];
      assert k < n ==> es[..n][..k + 1] == es[..k + 1];
      assert Frames(es)[..cut] == Frames(es[..n])[..cut];
    } else {
      k := n;
      assert es[..k + 1] == es;
    }
  }

  /** After a crash at any length, replay delivers exactly the entries that lie whole below it. */
  lemma CrashReplay(es: seq<Entry>, cut: nat) returns (k: nat)
    requires Framable(es) && cut <= |Frames(es)|
    ensures k <= |es| && Replay(Frames(es)[..cut]) == es[..k]
    ensures forall j: nat :: j <= |es| ==> (End(es, j) <= cut <==> j <= k)
  {
    k := CutFalls(es, cut);
    var torn := if k < |es| then Frame(es[k])[..cut - End(es, k)] else [];
    FramesRead(es[..k], torn);
    if k < |es| {
      TornIsSkipped(es[k], cut - End(es, k));
    }
    forall j: nat | j <= |es|
      ensures End(es, j) <= cut <==> j <= k
    {
      if j <= k {
        EndsAscend(es, j, k);
      } else {
        EndsAscend(es, k + 1, j);
      }
    }
  }

  // ---------------------------------------------------------------------
  // Reopening. `open` appends behind whatever the file holds (aof.rs:90-109),
  // also behind the torn entry that a crash leaves.
  // ---------------------------------------------------------------------

  /** How far replay gets. */
  function ReplayEnd(s: seq<Byte>): (end: nat)
    ensures end <= |s| && !ReadsEntry(s[end..])
    decreases |s|
  {
    if !ReadsEntry(s) then assert s[0..] == s; 0
    else
      var n := HEADER_LEN + LengthAt(s);
      assert s[n..][ReplayEnd(s[n..])..] == s[n + ReplayEnd(s[n..])..];
      n + ReplayEnd(s[n..])
  }

  /** Replay gets to the end. */
  predicate Whole(s: seq<Byte>) {
    ReplayEnd(s) == |s|
  }

  /** An entry that is read is read the same whatever follows it. */
  lemma ReadsOn(s: seq<Byte>, more: seq<Byte>)
    requires ReadsEntry(s)
    ensures ReadsEntry(s + more) && EntryAt(s + more) == EntryAt(s)
    ensures Replay(s + more) == [EntryAt(s)] + Replay(s[HEADER_LEN + LengthAt(s)..] + more)
  {
    var n := HEADER_LEN + LengthAt(s);
    assert (s + more)[..4] == s[..4] && (s + more)[8..16] == s[8..16];
    assert (s + more)[HEADER_LEN..n] == s[HEADER_LEN..n];
    assert (s + more)[n..] == s[n..] + more;
  }

  /** The bytes behind the first entry, which is the first that replay delivers, now and later. */
  lemma ReplayStep(s: seq<Byte>, more: seq<Byte>) returns (tail: seq<Byte>)
    requires ReadsEntry(s)
    ensures |tail| < |s| && s[ReplayEnd(s)..] == tail[ReplayEnd(tail)..]
    ensures Replay(s) == [EntryAt(s)] + Replay(tail)
    ensures Replay(s + more) == [EntryAt(s)] + Replay(tail + more)
  {
    var n := HEADER_LEN + LengthAt(s);
    ReadsOn(s, more);
    tail := s[n..];
    assert tail[ReplayEnd(tail)..] == s[n + ReplayEnd(tail)..];
  }

  lemma ReplayStops(s: seq<Byte>, more: seq<Byte>)
    requires !ReadsEntry(s)
    ensures Replay(s + more) == Replay(s) + Replay(s[ReplayEnd(s)..] + more)
  {
    hide ReadsEntry;
    assert s[0..] == s && [] + Replay(s + more) == Replay(s + more);
  }

  /** Whatever is appended, replay delivers what it delivered before, and goes on from where it stopped. */
  lemma {:induction false} ReplayGoesOn(s: seq<Byte>, more: seq<Byte>)
    ensures Replay(s + more) == Replay(s) + Replay(s[ReplayEnd(s)..] + more)
    decreases |s|
  {
    hide *;
    if ReadsEntry(s) {
      var tail := ReplayStep(s, more);
      ReplayGoesOn(tail, more);
      Associates([EntryAt(s)], Replay(tail), Replay(tail[ReplayEnd(tail)..] + more));
    } else {
      ReplayStops(s, more);
    }
  }

  lemma ReplayOfWhole(s: seq<Byte>, more: seq<Byte>)
    requires Whole(s)
    ensures Replay(s + more) == Replay(s) + Replay(more)
  {
    ReplayGoesOn(s, more);
    assert s[|s|..] + more == more;
  }

  /** An entry that is lost, or read as another one, behind these bytes that are no entry. */
  function Spoiled(rest: seq<Byte>): Entry {
    if |rest| < 6 || OpFrom(rest[5]) != Some(Command) then Entry(Command, 0, []) else Entry(TxnStart, 0, [])
  }

  lemma SpoiledFrame(e: Entry)
    requires e.timestamp == 0 && e.payload == []
    ensures Frame(e) == [0, 0, 0, 0, AOF_VERSION, OpCode(e.op), 0, 0, 0, 0, 0, 0, 0, 0, 0, 0]
  {
    assert Le(0, 4) == [0, 0, 0, 0] && Le(0, 8) == Le(0, 4) + Le(0, 4) by {
      assert Le(0, 1) == [0] && Le(0, 2) == [0, 0] && Le(0, 3) == [0, 0, 0] && Le(0, 5) == [0, 0, 0, 0, 0];
      assert Le(0, 6) == [0] + Le(0, 5) && Le(0, 7) == [0] + Le(0, 6) && Le(0, 8) == [0] + Le(0, 7);
    }
    assert Frame(e) == Header(e);
  }

  lemma RestSpoils(rest: seq<Byte>)
    requires rest != [] && !ReadsEntry(rest)
    ensures Replay(rest + Frame(Spoiled(rest))) != [Spoiled(rest)]
  {
    var e := Spoiled(rest);
    var s := rest + Frame(e);
    SpoiledFrame(e);
    if |rest| < 6 {
      assert s[5] == Frame(e)[5 - |rest|] && (|rest| < 5 ==> s[4] == Frame(e)[4 - |rest|]);
      assert !ReadsEntry(s);
    } else {
      assert s[5] == rest[5];
      if ReadsEntry(s) {
        assert Replay(s)[0] == EntryAt(s) && EntryAt(s).op != e.op;
      }
    }
  }

  /** Everything that can be appended behind these bytes will be replayed. */
  ghost predicate KeepsAll(contents: seq<Byte>) {
    forall es: seq<Entry> :: Framable(es) ==> Replay(contents + Frames(es)) == Replay(contents) + es
  }

  lemma WholeKeepsAll(contents: seq<Byte>, es: seq<Entry>)
    requires Whole(contents) && Framable(es)
    ensures Replay(contents + Frames(es)) == Replay(contents) + es
  {
    ReplayOfWhole(contents, Frames(es));
    FramesRead(es, []);
    assert Frames(es) + [] == Frames(es) && es + [] == es;
  }

  lemma OneFrame(e: Entry)
    ensures Frames([e]) == Frame(e)
  {
    FramesExtend([], e);
    assert [] + [e] == [e] && Frames([]) + Frame(e) == Frame(e);
  }

  lemma TornSpoils(contents: seq<Byte>, e: Entry)
    requires !Whole(contents) && e == Spoiled(contents[ReplayEnd(contents)..])
    ensures Replay(contents + Frames([e])) != Replay(contents) + [e]
  {
    hide Replay, ReplayEnd, ReadsEntry, Spoiled, Frames, Frame;
    var rest := contents[ReplayEnd(contents)..];
    OneFrame(e);
    RestSpoils(rest);
    ReplayGoesOn(contents, Frame(e));
    SameFront(Replay(contents), Replay(rest + Frame(e)), [e]);
  }

  lemma SameFront(front: seq<Entry>, a: seq<Entry>, b: seq<Entry>)
    requires a != b
    ensures front + a != front + b
  {
    assert (front + a)[|front|..] == a && (front + b)[|front|..] == b;
  }

  /** What is appended to a file is replayed, all of it and always, exactly if replay gets to the file's end. */
  lemma ReopenedIff(contents: seq<Byte>)
    ensures KeepsAll(contents) <==> Whole(contents)
  {
    hide Replay, ReplayEnd;
    if Whole(contents) {
      forall es: seq<Entry> | Framable(es)
        ensures Replay(contents + Frames(es)) == Replay(contents) + es
      {
        WholeKeepsAll(contents, es);
      }
    } else {
      var e := Spoiled(contents[ReplayEnd(contents)..]);
      TornSpoils(contents, e);
      assert Framable([e]);
    }
  }

  /** How far replay gets in a log cut by a crash: to the end of the last entry that is whole. */
  lemma CutEnd(es: seq<Entry>, cut: nat) returns (k: nat)
    requires Framable(es) && cut <= |Frames(es)|
    ensures k <= |es| && ReplayEnd(Frames(es)[..cut]) == End(es, k) <= cut
    ensures forall j: nat :: j <= |es| ==> (End(es, j) <= cut <==> j <= k)
  {
    k := CrashReplay(es, cut);
    var whole, torn := Frames(es[..k]), Frames(es)[..cut][End(es, k)..];
    assert Frames(es)[..cut] == whole + torn by {
      FramesPrefix(es, k);
      assert Frames(es)[..cut][..End(es, k)] == whole;
    }
    EndOfFrames(es[..k], torn);
    FramesRead(es[..k], torn);
    assert Replay(torn) == [] by {
      assert |es[..k] + Replay(torn)| == k;
    }
  }

  lemma {:induction false} FramesPrefix(es: seq<Entry>, k: nat)
    requires k <= |es|
    ensures |Frames(es[..k])| <= |Frames(es)| && Frames(es)[..|Frames(es[..k])|] == Frames(es[..k])
    decreases |es|
  {
    if k < |es| {
      var n := |es| - 1;
      FramesPrefix(es[..n], k);
      assert es[..n][..k] == es[..k];
    } else {
      assert es[..k] == es;
    }
  }

  lemma FrameEnd(e: Entry, tail: seq<Byte>)
    requires |e.payload| < U32_LIMIT
    ensures ReplayEnd(Frame(e) + tail) == |Frame(e)| + ReplayEnd(tail)
  {
    var s := Frame(e) + tail;
    assert s == Header(e) + (e.payload + tail);
    HeaderReads(e, e.payload + tail);
    assert s[HEADER_LEN + |e.payload|..] == tail;
  }

  lemma {:induction false} EndOfFrames(es: seq<Entry>, tail: seq<Byte>)
    requires Framable(es)
    ensures ReplayEnd(Frames(es) + tail) == |Frames(es)| + ReplayEnd(tail)
    decreases |es|
  {
    hide ReplayEnd, Frame;
    if es == [] {
      assert Frames(es) + tail == tail;
    } else {
      var n := |es| - 1;
      EndOfFrames(es[..n], Frame(es[n]) + tail);
      Associates(Frames(es[..n]), Frame(es[n]), tail);
      FrameEnd(es[n], tail);
    }
  }

  /** A file reopened after a crash keeps what is appended exactly if the crash fell between two entries. */
  lemma CrashKeepsIff(es: seq<Entry>, cut: nat)
    requires Framable(es) && cut <= |Frames(es)|
    ensures KeepsAll(Frames(es)[..cut]) <==> exists k: nat :: k <= |es| && End(es, k) == cut
  {
    ReopenedIff(Frames(es)[..cut]);
    var k := CutEnd(es, cut);
    if j: nat :| j <= |es| && End(es, j) == cut {
      EndsAscend(es, j, k);
    }
  }

  /** What replay has delivered, and what it still has ahead. */
  ghost predicate ReadTo(whole: seq<Entry>, bytes: seq<Byte>, es: seq<Entry>, pos: nat)
    requires pos <= |bytes|
  {
    whole == es + Replay(bytes[pos..])
  }

  lemma ReadStep(whole: seq<Entry>, bytes: seq<Byte>, es: seq<Entry>, pos: nat, next: nat)
    requires pos <= next <= |bytes| && ReadTo(whole, bytes, es, pos) && ReadsEntry(bytes[pos..])
    requires next == pos + HEADER_LEN + LengthAt(bytes[pos..])
    ensures ReadTo(whole, bytes, es + [EntryAt(bytes[pos..])], next)
  {
    var rest := bytes[pos..];
    assert rest[next - pos..] == bytes[next..];
    assert es + ([EntryAt(rest)] + Replay(bytes[next..])) == (es + [EntryAt(rest)]) + Replay(bytes[next..]);
  }

  // ---------------------------------------------------------------------
  // The log
  // ---------------------------------------------------------------------

  class AppendOnlyFile {
    var file: seq<Byte>
    var buf: seq<Byte>
    var written: nat
    var committed: nat
    var tail: nat
    const mode: CommitMode
    // What the file held when it was opened, and what has been appended since.
    ghost var origin: seq<Byte>
    ghost var entries: seq<Entry>

    ghost predicate Valid()
      reads this
    {
      && Framable(entries)
      && written == |file| && |origin| <= committed <= written
      && file + buf == origin + Frames(entries)
      && tail == |origin| + |Frames(entries)|
    }

    /** Opens a file, whatever it holds. */
    constructor (contents: seq<Byte>, m: CommitMode)
      ensures Valid() && origin == contents && entries == [] && mode == m && committed == |contents|
    {
      file, buf := contents, [];
      written, committed, tail := |contents|, |contents|, |contents|;
      mode := m;
      origin, entries := contents, [];
    }

    method FlushBuffer()
      requires Valid()
      modifies this`file, this`buf, this`written
      ensures Valid() && buf == []
    {
      if buf == [] {
        return;
      }
      file := file[..written] + buf;
      written := written + |buf|;
      buf := [];
    }

    method Commit()
      requires Valid()
      modifies this`file, this`buf, this`written, this`committed
      ensures Valid() && buf == [] && committed == written == tail
    {
      FlushBuffer();
      if committed < written {
        committed := written;
      }
    }

    method Enqueue(op: Op, timestamp: I64, payload: seq<Byte>) returns (end: nat)
      requires Valid() && |payload| < U32_LIMIT
      modifies this
      ensures Valid() && origin == old(origin) && entries == old(entries) + [Entry(op, timestamp, payload)]
      ensures end == tail == |origin| + End(entries, |entries|)
      ensures old(committed) <= committed && (mode.Always? ==> committed == end)
    {
      hide Frames, Le, ToUnsigned;
      ghost var e := Entry(op, timestamp, payload);
      var hdr := Le(|payload| % U32_LIMIT, 4) + [AOF_VERSION, OpCode(op), 0, 0] + Le(ToUnsigned(timestamp), 8);
      Associates(file, buf, hdr + payload);
      Associates(buf, hdr, payload);
      Associates(origin, Frames(entries), hdr + payload);
      FramesExtend(entries, e);
      buf := buf + hdr + payload;
      end := written + |buf|;
      tail := end;
      entries := entries + [e];
      assert entries[..|entries|] == entries;
      if FLUSH_AT <= |buf| {
        FlushBuffer();
      }
      if mode.Always? {
        Commit();
      }
    }

    method WaitCommitted(addr: nat)
      requires Valid() && addr <= tail
      modifies this`file, this`buf, this`written, this`committed
      ensures Valid() && addr <= committed && old(committed) <= committed
    {
      if addr <= committed {
        return;
      }
      Commit();
    }

    /** After a checkpoint has captured everything. */
    method Truncate()
      requires Valid()
      modifies this
      ensures Valid() && origin == [] && entries == [] && tail == committed == 0
    {
      buf, file := [], [];
      written, committed, tail := 0, 0, 0;
      origin, entries := [], [];
    }

    /** The cursor loop of `replay` over the durable bytes. */
    static method ReadEntries(bytes: seq<Byte>) returns (es: seq<Entry>)
      ensures es == Replay(bytes)
    {
      es := [];
      var pos := 0;
      ghost var whole := Replay(bytes);
      assert bytes[0..] == bytes && [] + whole == whole;
      while pos + HEADER_LEN <= |bytes|
        invariant 0 <= pos <= |bytes| && ReadTo(whole, bytes, es, pos)
      {
        var rest := bytes[pos..];
        if OpFrom(rest[5]).None? {
          return;
        }
        var plen := FromLe(rest[..4]);
        if rest[4] != AOF_VERSION || |rest| < HEADER_LEN + plen {
          return;
        }
        var next := pos + HEADER_LEN + plen;
        ReadStep(whole, bytes, es, pos, next);
        es := es + [EntryAt(rest)];
        pos := next;
      }
    }

    /** Replay commits first, so it delivers every entry, if it gets as far as the appended ones. */
    method ReplayAll() returns (es: seq<Entry>)
      requires Valid()
      modifies this`file, this`buf, this`written, this`committed
      ensures Valid() && Replay(origin) <= es
      ensures Whole(origin) ==> es == Replay(origin) + entries
    {
      Commit();
      es := ReadEntries(file[..committed]);
      assert file[..committed] == origin + Frames(entries);
      ReplayGoesOn(origin, Frames(entries));
      ReopenedIff(origin);
    }

    /**
      A crash keeps `kept` bytes of the file, at least those committed: what the
      next start replays begins with what this one found. If that was whole, it
      goes on with a prefix of the entries appended since, with every entry in it
      whose end was committed.
     */
    method CrashAndReplay(kept: nat) returns (es: seq<Entry>)
      requires Valid() && committed <= kept <= written
      ensures Replay(origin) <= es
      ensures Whole(origin) ==> es <= Replay(origin) + entries
      ensures Whole(origin) ==>
                forall j: nat :: j <= |entries| ==>
                  (|origin| + End(entries, j) <= kept <==> |Replay(origin)| + j <= |es|)
    {
      hide Replay, ReplayEnd, Frames;
      es := ReadEntries(file[..kept]);
      ghost var appended := Frames(entries)[..kept - |origin|];
      assert file[..kept] == origin + appended by {
        assert file[..kept] == (file + buf)[..kept] == (origin + Frames(entries))[..kept];
      }
      ReplayGoesOn(origin, appended);
      if Whole(origin) {
        ReplayOfWhole(origin, appended);
        ghost var k := CrashReplay(entries, kept - |origin|);
      }
    }

    /** The next start, on the file as the crash left it. */
    method Restart(kept: nat) returns (next: AppendOnlyFile)
      requires Valid() && committed <= kept <= written
      ensures fresh(next) && next.Valid() && next.mode == mode && next.origin == file[..kept] && next.entries == []
    {
      next := new AppendOnlyFile(file[..kept], mode);
    }
  }
}
