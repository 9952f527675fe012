/**
  The store as a plain map with deadlines. A cell is seen at a time `now`
  through an abstraction that forgets capacity and padding and hides payloads
  that have expired. With callbacks that answer alike in every region, each
  operation does to the map what one region-free specification says, whatever
  region its record was in and however often it retried.
 */
module Refinement {
  import opened Bytes
  import opened Callbacks
  import opened Environment
  import opened Stores
  import RecordLayout

  /** How payloads appear in the map, and the map's own operations. */
  datatype Meaning<!I, !P, !A, !O> = Meaning(
    abs: P -> A,
    live: (int, A) -> bool,
    now: I -> int,
    read: (I, A) -> O,
    write: I -> A,
    update: (I, Option<A>) -> (Option<A>, Option<O>))

  function Visible<I, P, A, O>(m: Meaning<I, P, A, O>, now: int, entry: Option<A>): Option<A> {
    if entry.Some? && m.live(now, entry.value) then entry else None
  }

  function Seen<I, P, A, O>(m: Meaning<I, P, A, O>, now: int, cell: Option<P>): Option<A> {
    if cell.Some? then Visible(m, now, Some(m.abs(cell.value))) else None
  }

  function ReplyOf<O>(status: Status, out: Option<O>): Option<O> {
    if IsUpdated(status) then out else None
  }

  /** Once expired, always expired. */
  ghost predicate DeadlinesPass<I, P, A(!new), O>(m: Meaning<I, P, A, O>) {
    forall a: A, t: int, t': int :: t <= t' && m.live(t', a) ==> m.live(t, a)
  }

  ghost predicate ReaderAgrees<I(!new), P(!new), A, O>(f: Functions<I, P, O>, m: Meaning<I, P, A, O>) {
    forall i: I, p: P ::
      f.reader(i, p) == if m.live(m.now(i), m.abs(p)) then Some(m.read(i, m.abs(p))) else None
  }

  ghost predicate WriterAgrees<I(!new), P(!new), A, O>(f: Functions<I, P, O>, m: Meaning<I, P, A, O>) {
    && (forall i: I :: m.abs(f.write(i)) == m.write(i))
    && (forall i: I, p: P ::
          f.inPlaceWrite(i, p).Some? ==> m.abs(f.inPlaceWrite(i, p).value) == m.write(i))
  }

  ghost predicate InitialAgrees<I, P, A, O>(f: Functions<I, P, O>, m: Meaning<I, P, A, O>, i: I) {
    m.update(i, None) ==
    if f.needInitial(i) then (Seen(m, m.now(i), Some(f.initial(i).0)), Some(f.initial(i).1))
    else (None, None)
  }

  ghost predicate InPlaceAgrees<I, P, A, O>(f: Functions<I, P, O>, m: Meaning<I, P, A, O>, i: I, p: P) {
    var seen := Seen(m, m.now(i), Some(p));
    match f.inPlace(i, p)
    case Expired => seen == None
    case NeedCopy => true
    case Updated(q, o) => m.update(i, seen) == (Seen(m, m.now(i), Some(q)), Some(o))
    case Cancel(o) => m.update(i, seen) == (seen, None)
    case Delete(o) => m.update(i, seen) == (None, Some(o))
  }

  ghost predicate CopyAgrees<I, P, A, O>(f: Functions<I, P, O>, m: Meaning<I, P, A, O>, i: I, p: P) {
    var seen := Seen(m, m.now(i), Some(p));
    match f.copy(i, p)
    case Copy(q, o) => m.update(i, seen) == (Seen(m, m.now(i), Some(q)), Some(o))
    case CancelCopy => m.update(i, seen) == (seen, None)
    case DeleteCopy(o) => m.update(i, seen) == (None, Some(o))
  }

  /** On every record that shows this entry the callbacks give the same answer, wherever the record is. */
  ghost predicate AgreesSeen<I, P(!new), A, O>(f: Functions<I, P, O>, m: Meaning<I, P, A, O>, i: I, entry: Option<A>) {
    && (entry == None ==> InitialAgrees(f, m, i))
    && forall p: P :: Seen(m, m.now(i), Some(p)) == entry ==> InPlaceAgrees(f, m, i, p) && CopyAgrees(f, m, i, p)
  }

  /** The callbacks give the same answer on an input whatever the record and wherever it is. */
  ghost predicate RegionFree<I, P(!new), A, O>(f: Functions<I, P, O>, m: Meaning<I, P, A, O>, i: I) {
    && InitialAgrees(f, m, i)
    && (forall p: P :: InPlaceAgrees(f, m, i, p))
    && (forall p: P :: CopyAgrees(f, m, i, p))
  }

  /** One RMW, whatever the region: the map's update on what was visible. */
  lemma RmwRefines<I, P(!new), A, O>(f: Functions<I, P, O>, m: Meaning<I, P, A, O>, i: I,
                                     cell: Option<P>, cell': Option<P>, status: Status, out: Option<O>)
    requires AgreesSeen(f, m, i, Seen(m, m.now(i), cell)) && RmwStep(f, i, cell, cell', status, out)
    ensures (Seen(m, m.now(i), cell'), ReplyOf(status, out)) == m.update(i, Seen(m, m.now(i), cell))
    ensures status == Created ==> Seen(m, m.now(i), cell) == None
  {
    if cell.Some? {
      assert InPlaceAgrees(f, m, i, cell.value) && CopyAgrees(f, m, i, cell.value);
    }
  }

  /** Giving up after an expired record was tombstoned changes nothing anyone sees. */
  lemma UnfinishedRefines<I, P(!new), A, O>(f: Functions<I, P, O>, m: Meaning<I, P, A, O>, i: I,
                                            cell: Option<P>, cell': Option<P>)
    requires AgreesSeen(f, m, i, Seen(m, m.now(i), cell)) && Unfinished(f, i, cell, cell')
    ensures Seen(m, m.now(i), cell') == Seen(m, m.now(i), cell)
  {
    if cell.Some? {
      assert InPlaceAgrees(f, m, i, cell.value);
    }
  }

  /** Time passing acts on what is seen alone. */
  lemma SeenLater<I, P, A(!new), O>(m: Meaning<I, P, A, O>, now: int, later: int, cell: Option<P>)
    requires DeadlinesPass(m) && now <= later
    ensures Seen(m, later, cell) == Visible(m, later, Seen(m, now, cell))
  {
  }

  // ---------------------------------------------------------------------
  // Sequences of calls
  // ---------------------------------------------------------------------

  datatype Call<+I> =
    | CallRead(key: Key, input: I)
    | CallUpsert(key: Key, input: I)
    | CallRmw(key: Key, input: I)
    | CallDelete(key: Key, at: int)

  datatype Reply<+O> = Reply(status: Status, out: Option<O>)

  function TimeOf<I, P, A, O>(m: Meaning<I, P, A, O>, c: Call<I>): int {
    if c.CallDelete? then c.at else m.now(c.input)
  }

  type Table<A> = map<Key, A>

  function Entry<I, P, A, O>(m: Meaning<I, P, A, O>, table: Table<A>, now: int, key: Key): Option<A> {
    if key in table then Visible(m, now, Some(table[key])) else None
  }

  function SetEntry<A>(table: Table<A>, key: Key, entry: Option<A>): Table<A> {
    if entry.Some? then table[key := entry.value] else table - {key}
  }

  /** What one call does to the map. A call that gave up does nothing. */
  function Apply<I, P, A, O>(m: Meaning<I, P, A, O>, table: Table<A>, c: Call<I>, gaveUp: bool): Table<A> {
    if gaveUp then table
    else match c
      case CallRead(_, _) => table
      case CallUpsert(key, i) => table[key := m.write(i)]
      case CallRmw(key, i) => SetEntry(table, key, m.update(i, Entry(m, table, m.now(i), key)).0)
      case CallDelete(key, _) => table - {key}
  }

  /** The reply the map itself would give. */
  ghost predicate RightReply<I, P, A, O>(m: Meaning<I, P, A, O>, table: Table<A>, c: Call<I>, r: Reply<O>) {
    var entry := Entry(m, table, TimeOf(m, c), c.key);
    GaveUp(r.status) ||
    match c
    case CallRead(_, i) =>
      if entry.Some? then r == Reply(Found, Some(m.read(i, entry.value))) else r.status == NotFound
    case CallUpsert(_, _) => IsUpdated(r.status)
    case CallRmw(_, i) => ReplyOf(r.status, r.out) == m.update(i, entry).1 && (r.status == Created ==> entry == None)
    case CallDelete(_, _) =>
      if entry.Some? then r.status == Deleted else r.status == Deleted || r.status == NotFound
  }

  function ApplyAll<I, P, A, O>(m: Meaning<I, P, A, O>, table: Table<A>, calls: seq<Call<I>>,
                                replies: seq<Reply<O>>): Table<A>
    requires |calls| == |replies|
  {
    if calls == [] then table
    else
      var n := |calls| - 1;
      Apply(m, ApplyAll(m, table, calls[..n], replies[..n]), calls[n], GaveUp(replies[n].status))
  }

  ghost predicate AllRight<I, P, A, O>(m: Meaning<I, P, A, O>, table: Table<A>, calls: seq<Call<I>>,
                                       replies: seq<Reply<O>>)
    requires |calls| == |replies|
  {
    forall n :: 0 <= n < |calls| ==>
      RightReply(m, ApplyAll(m, table, calls[..n], replies[..n]), calls[n], replies[n])
  }

  /** The store looks like the map to anyone who asks at `now`. */
  ghost predicate LooksLike<I, P(!new), A, O>(store: Store<I, P, O>, m: Meaning<I, P, A, O>,
                                              table: Table<A>, now: int)
    reads store, store.log
  {
    forall key: Key :: Seen(m, now, store.Cell(key)) == Entry(m, table, now, key)
  }

  ghost predicate Agreeable<I(!new), P(!new), A(!new), O>(f: Functions<I, P, O>, m: Meaning<I, P, A, O>) {
    DeadlinesPass(m) && ReaderAgrees(f, m) && WriterAgrees(f, m)
  }

  lemma RmwOnTable<I, P(!new), A, O>(f: Functions<I, P, O>, m: Meaning<I, P, A, O>, table: Table<A>,
                                     key: Key, i: I, cell: Option<P>, cell': Option<P>,
                                     status: Status, out: Option<O>)
    requires AgreesSeen(f, m, i, Entry(m, table, m.now(i), key))
    requires Seen(m, m.now(i), cell) == Entry(m, table, m.now(i), key)
    requires if GaveUp(status) then Unfinished(f, i, cell, cell') else RmwStep(f, i, cell, cell', status, out)
    ensures RightReply(m, table, CallRmw(key, i), Reply(status, out))
    ensures var table' := Apply(m, table, CallRmw(key, i), GaveUp(status));
            && Seen(m, m.now(i), cell') == Entry(m, table', m.now(i), key)
            && forall k: Key :: k != key ==> Entry(m, table', m.now(i), k) == Entry(m, table, m.now(i), k)
  {
    if GaveUp(status) {
      UnfinishedRefines(f, m, i, cell, cell');
    } else {
      RmwRefines(f, m, i, cell, cell', status, out);
    }
  }

  /** Some record that the call may have to append is larger than a page. */
  ghost predicate Outgrows<I, P(!new), O>(store: Store<I, P, O>, c: Call<I>, cell: Option<P>) {
    match c
    case CallRead(_, _) => false
    case CallUpsert(key, i) => !store.Fits(key, Some(store.f.write(i)))
    case CallRmw(key, i) => store.RmwOverflows(key, i, cell)
    case CallDelete(key, _) => cell.Some? && !store.Fits(key, None)
  }

  /** When a call may panic, and where nothing was stored when it does. */
  ghost predicate Answered<I, P(!new), O>(store: Store<I, P, O>, c: Call<I>, cell: Option<P>,
                                          status: Status, cell': Option<P>)
  {
    && (status == Panicked ==> Outgrows(store, c, cell))
    && (cell == None && status != Error ==> (status == Panicked <==> Outgrows(store, c, cell)))
    && (status == Created || status == CopyUpdated ==> store.Fits(c.key, cell'))
    && (cell'.Some? ==> cell.Some? || status == Created || status == CopyUpdated)
  }

  /** Wherever something is stored there would be room for a tombstone. */
  ghost predicate Roomy<I, P(!new), O>(store: Store<I, P, O>)
    reads store, store.log
  {
    forall key: Key :: store.Cell(key).Some? ==> store.Fits(key, None)
  }

  /** A record that fits has room for its tombstone, so a call keeps the store roomy and a deletion does not panic. */
  lemma StaysRoomy<I, P(!new), O>(store: Store<I, P, O>, c: Call<I>, cell: Option<P>, status: Status, cell': Option<P>)
    requires Answered(store, c, cell, status, cell') && (cell.Some? ==> store.Fits(c.key, None))
    ensures cell'.Some? ==> store.Fits(c.key, None)
    ensures c.CallDelete? ==> status != Panicked
  {
    if cell'.Some? {
      RecordLayout.TotalSizeGrows(|c.key|, 0, false, store.f.cap(cell'.value), store.f.hasExpiration(cell'.value));
    }
  }

  ghost predicate NoDeletePanics<I, O>(calls: seq<Call<I>>, replies: seq<Reply<O>>)
    requires |replies| <= |calls|
  {
    forall n :: 0 <= n < |replies| && calls[n].CallDelete? ==> replies[n].status != Panicked
  }

  /** Whatever a call writes, it has to take the bucket latch for it. */
  predicate AlwaysLatches<I>(c: Call<I>) {
    c.CallUpsert? || c.CallRmw?
  }

  /** When a call may run out of retries, what it leaves of the others, and when it cannot but fail. */
  ghost predicate Waited(latches: bool, before: Around, env: Rounds, after: Around, status: Status, attempts: nat) {
    && (status == Error ==> Hopeless(before, env))
    && (Starved(env) && latches ==> status == Error)
    && Patience(before, env, after, attempts, status == Error)
  }

  /** The call is a read, a blind write or an RMW whose callbacks agree on the map's entry. */
  ghost predicate AgreesOn<I, P(!new), A, O>(f: Functions<I, P, O>, m: Meaning<I, P, A, O>, table: Table<A>,
                                             c: Call<I>)
  {
    c.CallRmw? ==> AgreesSeen(f, m, c.input, Entry(m, table, m.now(c.input), c.key))
  }

  /** The reply and the store are the map's. */
  ghost predicate Follows<I, P(!new), A, O>(store: Store<I, P, O>, m: Meaning<I, P, A, O>, table: Table<A>,
                                            c: Call<I>, r: Reply<O>)
    reads store, store.log
  {
    && RightReply(m, table, c, r)
    && LooksLike(store, m, Apply(m, table, c, GaveUp(r.status)), TimeOf(m, c))
  }

  method PerformRmw<I(!new), P(!new), A(!new), O>(
    store: Store<I, P, O>, ghost m: Meaning<I, P, A, O>, key: Key, input: I, env: Rounds, ghost table: Table<A>)
    returns (r: Reply<O>, ghost attempts: nat)
    requires store.Idle()
    modifies store, store.log
    ensures store.Idle()
    ensures old(LooksLike(store, m, table, m.now(input))) && AgreesOn(store.f, m, table, CallRmw(key, input)) ==>
              Follows(store, m, table, CallRmw(key, input), r)
    ensures forall k: Key :: k != key ==> store.Cell(k) == old(store.Cell(k))
    ensures Answered(store, CallRmw(key, input), old(store.Cell(key)), r.status, store.Cell(key))
    ensures Waited(true, old(store.AroundNow()), env, store.AroundNow(), r.status, attempts)
  {
    hide Store<I, P, O>.Valid, Store<I, P, O>.AroundNow, Store<I, P, O>.Cell, Patience, Hopeless, Starved;
    hide Calm;
    ghost var cell, right := store.Cell(key), LooksLike(store, m, table, m.now(input));
    var status, out;
    status, out, attempts := store.Rmw(key, input, env);
    if right && AgreesOn(store.f, m, table, CallRmw(key, input)) {
      RmwOnTable(store.f, m, table, key, input, cell, store.Cell(key), status, out);
    }
    r := Reply(status, out);
  }

  method PerformRead<I(!new), P(!new), A(!new), O>(
    store: Store<I, P, O>, ghost m: Meaning<I, P, A, O>, key: Key, input: I, env: Rounds, ghost table: Table<A>)
    returns (r: Reply<O>, ghost attempts: nat)
    requires store.Idle() && Agreeable(store.f, m)
    modifies store, store.log
    ensures store.Idle()
    ensures old(LooksLike(store, m, table, m.now(input))) ==>
              Follows(store, m, table, CallRead(key, input), r)
    ensures forall k: Key :: k != key ==> store.Cell(k) == old(store.Cell(k))
    ensures Answered(store, CallRead(key, input), old(store.Cell(key)), r.status, store.Cell(key))
    ensures Waited(false, old(store.AroundNow()), env, store.AroundNow(), r.status, attempts)
  {
    hide Store<I, P, O>.Valid, Store<I, P, O>.AroundNow, Store<I, P, O>.Cell, Patience, Hopeless, Starved;
    hide Calm;
    var status, out;
    status, out, attempts := store.Read(key, input, env);
    r := Reply(status, out);
  }

  method PerformUpsert<I(!new), P(!new), A(!new), O>(
    store: Store<I, P, O>, ghost m: Meaning<I, P, A, O>, key: Key, input: I, env: Rounds, ghost table: Table<A>)
    returns (r: Reply<O>, ghost attempts: nat)
    requires store.Idle() && Agreeable(store.f, m)
    modifies store, store.log
    ensures store.Idle()
    ensures old(LooksLike(store, m, table, m.now(input))) ==>
              Follows(store, m, table, CallUpsert(key, input), r)
    ensures forall k: Key :: k != key ==> store.Cell(k) == old(store.Cell(k))
    ensures Answered(store, CallUpsert(key, input), old(store.Cell(key)), r.status, store.Cell(key))
    ensures Waited(true, old(store.AroundNow()), env, store.AroundNow(), r.status, attempts)
  {
    hide Store<I, P, O>.Valid, Store<I, P, O>.AroundNow, Store<I, P, O>.Cell, Patience, Hopeless, Starved;
    hide Calm;
    var status;
    status, attempts := store.Upsert(key, input, env);
    r := Reply(status, None);
  }

  method PerformDelete<I(!new), P(!new), A(!new), O>(
    store: Store<I, P, O>, ghost m: Meaning<I, P, A, O>, key: Key, at: int, env: Rounds, ghost table: Table<A>)
    returns (r: Reply<O>, ghost attempts: nat)
    requires store.Idle()
    modifies store, store.log
    ensures store.Idle()
    ensures old(LooksLike(store, m, table, at)) ==>
              Follows(store, m, table, CallDelete(key, at), r)
    ensures forall k: Key :: k != key ==> store.Cell(k) == old(store.Cell(k))
    ensures Answered(store, CallDelete(key, at), old(store.Cell(key)), r.status, store.Cell(key))
    ensures Waited(false, old(store.AroundNow()), env, store.AroundNow(), r.status, attempts)
  {
    hide Store<I, P, O>.Valid, Store<I, P, O>.AroundNow, Store<I, P, O>.Cell, Patience, Hopeless, Starved;
    hide Calm;
    var status;
    status, attempts := store.Delete(key, env);
    r := Reply(status, None);
  }

  /**
    One call, with retries and with any environment between its attempts. If the
    store looked like the map and the callbacks agree on the entry, the reply and
    the store are the map's. From the moment the call is left in peace, four
    attempts more are enough.
   */
  method Perform<I(!new), P(!new), A(!new), O>(
    store: Store<I, P, O>, ghost m: Meaning<I, P, A, O>, c: Call<I>, env: Rounds,
    ghost table: Table<A>, ghost before: int)
    returns (r: Reply<O>, ghost attempts: nat)
    requires store.Idle() && Agreeable(store.f, m) && before <= TimeOf(m, c)
    modifies store, store.log
    ensures store.Idle()
    ensures old(LooksLike(store, m, table, before)) && AgreesOn(store.f, m, table, c) ==> Follows(store, m, table, c, r)
    ensures forall k: Key :: k != c.key ==> store.Cell(k) == old(store.Cell(k))
    ensures Answered(store, c, old(store.Cell(c.key)), r.status, store.Cell(c.key))
    ensures Waited(AlwaysLatches(c), old(store.AroundNow()), env, store.AroundNow(), r.status, attempts)
  {
    hide Store<I, P, O>.Valid, Store<I, P, O>.AroundNow, Store<I, P, O>.Cell, LooksLike, Follows, Answered;
    hide Waited;
    if LooksLike(store, m, table, before) {
      LooksLikeLater(store, m, table, before, TimeOf(m, c));
    }
    match c {
      case CallRead(key, input) =>
        r, attempts := PerformRead(store, m, key, input, env, table);
      case CallUpsert(key, input) =>
        r, attempts := PerformUpsert(store, m, key, input, env, table);
      case CallRmw(key, input) =>
        r, attempts := PerformRmw(store, m, key, input, env, table);
      case CallDelete(key, at) =>
        r, attempts := PerformDelete(store, m, key, at, env, table);
    }
  }

  lemma LooksLikeLater<I, P(!new), A(!new), O>(store: Store<I, P, O>, m: Meaning<I, P, A, O>,
                                               table: Table<A>, now: int, later: int)
    requires DeadlinesPass(m) && now <= later && LooksLike(store, m, table, now)
    ensures LooksLike(store, m, table, later)
  {
    forall key: Key ensures Seen(m, later, store.Cell(key)) == Entry(m, table, later, key) {
      SeenLater(m, now, later, store.Cell(key));
    }
  }

  /**
    The calls that may have panicked, in terms of the map: the cell the store held
    for the key of call `n`, which the map's entry is the image of, and the call
    together need a record larger than a page.
   */
  ghost predicate PanicsExplained<I, P(!new), A, O>(store: Store<I, P, O>, m: Meaning<I, P, A, O>, table: Table<A>,
                                                    calls: seq<Call<I>>, replies: seq<Reply<O>>)
    requires |calls| == |replies|
  {
    forall n :: 0 <= n < |calls| && replies[n].status == Panicked ==>
      PanicExplained(store, m, ApplyAll(m, table, calls[..n], replies[..n]), calls[n])
  }

  ghost predicate PanicExplained<I, P(!new), A, O>(store: Store<I, P, O>, m: Meaning<I, P, A, O>, table: Table<A>,
                                                   c: Call<I>)
  {
    exists cell: Option<P> ::
      Outgrows(store, c, cell) && Seen(m, TimeOf(m, c), cell) == Entry(m, table, TimeOf(m, c), c.key)
  }

  /** Every RMW met an entry of the map that its callbacks agree on. */
  ghost predicate AgreedAll<I, P(!new), A, O>(f: Functions<I, P, O>, m: Meaning<I, P, A, O>, table: Table<A>,
                                              calls: seq<Call<I>>, replies: seq<Reply<O>>)
    requires |calls| == |replies|
  {
    forall n :: 0 <= n < |calls| ==> AgreesOn(f, m, ApplyAll(m, table, calls[..n], replies[..n]), calls[n])
  }

  ghost predicate RightUpTo<I, P(!new), A, O>(store: Store<I, P, O>, m: Meaning<I, P, A, O>, table: Table<A>,
                                              calls: seq<Call<I>>, replies: seq<Reply<O>>, n: nat)
    requires n <= |calls| == |replies|
  {
    && AllRight(m, table, calls[..n], replies[..n])
    && PanicsExplained(store, m, table, calls[..n], replies[..n])
  }

  /** The replies are the map's up to the first RMW on an entry that its callbacks do not agree on. */
  ghost predicate RightWhileAgreed<I, P(!new), A, O>(store: Store<I, P, O>, m: Meaning<I, P, A, O>, table: Table<A>,
                                                     calls: seq<Call<I>>, replies: seq<Reply<O>>)
    requires |calls| == |replies|
  {
    forall n :: 0 <= n <= |calls| && AgreedAll(store.f, m, table, calls[..n], replies[..n]) ==>
      RightUpTo(store, m, table, calls, replies, n)
  }

  /** Who ran out of retries, and who had to. */
  ghost predicate AllWaited<I, O>(calls: seq<Call<I>>, around: Around, env: seq<Rounds>, replies: seq<Reply<O>>)
    requires |replies| <= |calls| == |env|
  {
    forall n :: 0 <= n < |replies| ==>
      && (replies[n].status == Error ==> HopelessCall(around, env, n))
      && (Starved(env[n]) && AlwaysLatches(calls[n]) ==> replies[n].status == Error)
  }

  predicate Untouched<I>(calls: seq<Call<I>>, key: Key) {
    forall n :: 0 <= n < |calls| ==> calls[n].key != key
  }

  ghost function Absent<I, P(!new), O>(store: Store<I, P, O>): iset<Key>
    reads store, store.log
  {
    iset key: Key | store.Cell(key) == None
  }

  /** The first call on a key with nothing stored for it panics exactly if the record it makes is larger than a page. */
  ghost predicate FirstsPanicIff<I, P(!new), O>(store: Store<I, P, O>, absent: iset<Key>, calls: seq<Call<I>>,
                                                replies: seq<Reply<O>>)
    requires |calls| == |replies|
  {
    forall n :: 0 <= n < |calls| && calls[n].key in absent && Untouched(calls[..n], calls[n].key)
                && replies[n].status != Error ==>
      (replies[n].status == Panicked <==> Outgrows(store, calls[n], None))
  }

  /**
    Any sequence of calls, each with its own environment: as long as the callbacks
    agree on the entries that RMW meets, the replies and the store are the map's.
    A call is left out of the map's history only if it panicked, on a record that
    did not fit, or ran out of retries. It can only run out of them if no round it
    could have lived to see was followed by peace; where every round tidies up
    after itself, if there were as many rounds as retries.
   */
  method PerformAll<I(!new), P(!new), A(!new), O>(
    store: Store<I, P, O>, ghost m: Meaning<I, P, A, O>, calls: seq<Call<I>>,
    env: seq<Rounds>, ghost table: Table<A>, ghost start: int)
    returns (replies: seq<Reply<O>>, ghost end: int)
    requires store.Idle() && Agreeable(store.f, m) && |env| == |calls|
    requires forall n :: 0 <= n < |calls| ==> start <= TimeOf(m, calls[n])
    requires forall n, k :: 0 <= n < k < |calls| ==> TimeOf(m, calls[n]) <= TimeOf(m, calls[k])
    requires LooksLike(store, m, table, start)
    modifies store, store.log
    ensures store.Idle() && |replies| == |calls|
    ensures RightWhileAgreed(store, m, table, calls, replies)
    ensures AgreedAll(store.f, m, table, calls, replies) ==>
              LooksLike(store, m, ApplyAll(m, table, calls, replies), end)
    ensures end == if calls == [] then start else TimeOf(m, calls[|calls| - 1])
    ensures FirstsPanicIff(store, old(Absent(store)), calls, replies)
    ensures old(Roomy(store)) ==> Roomy(store) && NoDeletePanics(calls, replies)
    ensures AllWaited(calls, old(store.AroundNow()), env, replies)
    ensures old(store.Quiet()) && AllCalm(env) ==> forall r :: r in replies ==> r.status != Error
    ensures old(store.Quiet()) && AllTidy(env) ==> store.Quiet()
    ensures old(store.Quiet()) && AllTidy(env) ==>
              forall n :: 0 <= n < |replies| && |env[n]| + 4 <= MAX_RETRIES ==> replies[n].status != Error
  {
    hide RightWhileAgreed, AgreedAll, LooksLike, Follows, AgreesOn, Answered, Waited, FirstsPanicIff;
    hide AllWaited, Store<I, P, O>.Valid, Store<I, P, O>.AroundNow, Store<I, P, O>.Cell;
    hide Store<I, P, O>.Quiet, Arrives, AllCalm, AllTidy, ApplyAll;
    ghost var around, absent := store.AroundNow(), Absent(store);
    store.QuietIff();
    NoCalls(store, m, table, absent);
    WaitsBegin<I, O>(calls, around, env);
    replies := [];
    end := start;
    var n := 0;
    while n < |calls|
      invariant 0 <= n <= |calls| && |replies| == n
      invariant store.Idle()
      invariant RightWhileAgreed(store, m, table, calls[..n], replies)
      invariant AgreedAll(store.f, m, table, calls[..n], replies) ==>
                  LooksLike(store, m, ApplyAll(m, table, calls[..n], replies), end)
      invariant end == if n == 0 then start else TimeOf(m, calls[n - 1])
      invariant FirstsPanicIff(store, absent, calls[..n], replies)
      invariant forall key: Key :: Untouched(calls[..n], key) ==> store.Cell(key) == old(store.Cell(key))
      invariant old(Roomy(store)) ==> Roomy(store) && NoDeletePanics(calls, replies)
      invariant Arrives(around, env, n, store.AroundNow()) && AllWaited(calls, around, env, replies)
    {
      ghost var now, cell := ApplyAll(m, table, calls[..n], replies), store.Cell(calls[n].key);
      ghost var before, right := store.AroundNow(), AgreedAll(store.f, m, table, calls[..n], replies);
      if right {
        SeenThen(store, m, now, end, calls[n]);
      }
      var r, attempts := Perform(store, m, calls[n], env[n], now, end);
      if right && AgreesOn(store.f, m, now, calls[n]) {
        RightAnswer(store, m, now, calls[n], cell, r, store.Cell(calls[n].key));
      }
      CallExtends(store, m, table, now, calls[..n], replies, calls[n], r);
      FirstsExtend(store, absent, calls[..n], replies, calls[n], cell, r, store.Cell(calls[n].key));
      if old(Roomy(store)) {
        StaysRoomy(store, calls[n], cell, r.status, store.Cell(calls[n].key));
      }
      WaitedExtends(calls, around, env, replies, before, store.AroundNow(), r, attempts);
      UntouchedExtends(calls[..n], calls[n]);
      assert calls[..n + 1] == calls[..n] + [calls[n]];
      replies := replies + [r];
      end := TimeOf(m, calls[n]);
      n := n + 1;
    }
    assert calls[..n] == calls;
    store.QuietIff();
    if Settled(around) {
      WaitedMeans(calls, around, env, replies, store.AroundNow());
    }
  }

  lemma NoCalls<I, P(!new), A, O>(store: Store<I, P, O>, m: Meaning<I, P, A, O>, table: Table<A>, absent: iset<Key>)
    ensures RightWhileAgreed(store, m, table, [], []) && FirstsPanicIff(store, absent, [], [])
    ensures ApplyAll(m, table, [], []) == table
  {
  }

  lemma WaitsBegin<I, O>(calls: seq<Call<I>>, around: Around, env: seq<Rounds>)
    requires |calls| == |env|
    ensures Arrives(around, env, 0, around)
    ensures var none: seq<Reply<O>> := []; AllWaited(calls, around, env, none)
  {
  }

  lemma UntouchedExtends<I>(calls: seq<Call<I>>, c: Call<I>)
    ensures forall key: Key :: Untouched(calls + [c], key) <==> Untouched(calls, key) && key != c.key
  {
    forall key: Key | Untouched(calls + [c], key)
      ensures Untouched(calls, key) && key != c.key
    {
      var calls' := calls + [c];
      assert calls'[|calls|] == c;
      forall n | 0 <= n < |calls|
        ensures calls[n].key != key
      {
        assert calls'[n] == calls[n];
      }
    }
  }

  lemma RightAnswer<I, P(!new), A, O>(store: Store<I, P, O>, m: Meaning<I, P, A, O>, table: Table<A>, c: Call<I>,
                                      cell: Option<P>, r: Reply<O>, cell': Option<P>)
    requires Follows(store, m, table, c, r) && Answered(store, c, cell, r.status, cell')
    requires Seen(m, TimeOf(m, c), cell) == Entry(m, table, TimeOf(m, c), c.key)
    ensures RightReply(m, table, c, r) && (r.status == Panicked ==> PanicExplained(store, m, table, c))
    ensures LooksLike(store, m, Apply(m, table, c, GaveUp(r.status)), TimeOf(m, c))
  {
    hide Outgrows, Seen, Entry;
  }

  lemma CallExtends<I, P(!new), A, O>(store: Store<I, P, O>, m: Meaning<I, P, A, O>, table: Table<A>, now: Table<A>,
                                      calls: seq<Call<I>>, replies: seq<Reply<O>>, c: Call<I>, r: Reply<O>)
    requires |calls| == |replies| && RightWhileAgreed(store, m, table, calls, replies)
    requires now == ApplyAll(m, table, calls, replies)
    requires AgreedAll(store.f, m, table, calls, replies) && AgreesOn(store.f, m, now, c) ==>
               RightReply(m, now, c, r) && (r.status == Panicked ==> PanicExplained(store, m, now, c))
    ensures RightWhileAgreed(store, m, table, calls + [c], replies + [r])
    ensures ApplyAll(m, table, calls + [c], replies + [r]) == Apply(m, now, c, GaveUp(r.status))
    ensures AgreedAll(store.f, m, table, calls + [c], replies + [r]) ==>
              AgreedAll(store.f, m, table, calls, replies) && AgreesOn(store.f, m, now, c)
  {
    hide RightReply, PanicExplained, AgreesOn, Apply, ApplyAll, AgreedAll, AllRight, PanicsExplained;
    var calls', replies', k := calls + [c], replies + [r], |calls|;
    AgreedExtends(store.f, m, table, calls, replies, c, r);
    AppliedExtends(m, table, calls, replies, c, r);
    assert calls[..k] == calls && replies[..k] == replies;
    forall n | 0 <= n <= k + 1 && AgreedAll(store.f, m, table, calls'[..n], replies'[..n])
      ensures RightUpTo(store, m, table, calls', replies', n)
    {
      if n == k + 1 {
        assert calls'[..n] == calls' && replies'[..n] == replies';
        assert RightUpTo(store, m, table, calls, replies, k);
        AllRightExtends(m, table, calls, replies, c, r);
        PanicsExtend(store, m, table, calls, replies, c, r);
      } else {
        assert calls'[..n] == calls[..n] && replies'[..n] == replies[..n];
        assert RightUpTo(store, m, table, calls, replies, n);
      }
    }
  }

  lemma AppliedExtends<I, P, A, O>(m: Meaning<I, P, A, O>, table: Table<A>, calls: seq<Call<I>>,
                                   replies: seq<Reply<O>>, c: Call<I>, r: Reply<O>)
    requires |calls| == |replies|
    ensures ApplyAll(m, table, calls + [c], replies + [r])
            == Apply(m, ApplyAll(m, table, calls, replies), c, GaveUp(r.status))
  {
    var calls', replies' := calls + [c], replies + [r];
    assert calls'[..|calls|] == calls && replies'[..|calls|] == replies;
  }

  lemma AgreedExtends<I, P(!new), A, O>(f: Functions<I, P, O>, m: Meaning<I, P, A, O>, table: Table<A>,
                                        calls: seq<Call<I>>, replies: seq<Reply<O>>, c: Call<I>, r: Reply<O>)
    requires |calls| == |replies|
    ensures AgreedAll(f, m, table, calls + [c], replies + [r]) <==>
            AgreedAll(f, m, table, calls, replies) && AgreesOn(f, m, ApplyAll(m, table, calls, replies), c)
  {
    hide AgreesOn, ApplyAll;
    var calls', replies', k := calls + [c], replies + [r], |calls|;
    assert calls'[..k] == calls && replies'[..k] == replies && calls'[k] == c;
    forall n | 0 <= n < k
      ensures calls'[..n] == calls[..n] && replies'[..n] == replies[..n] && calls'[n] == calls[n]
    {
    }
  }

  lemma FirstsExtend<I, P(!new), O>(store: Store<I, P, O>, absent: iset<Key>, calls: seq<Call<I>>,
                                    replies: seq<Reply<O>>, c: Call<I>, cell: Option<P>, r: Reply<O>, cell': Option<P>)
    requires |calls| == |replies| && FirstsPanicIff(store, absent, calls, replies)
    requires Answered(store, c, cell, r.status, cell') && (c.key in absent && Untouched(calls, c.key) ==> cell == None)
    ensures FirstsPanicIff(store, absent, calls + [c], replies + [r])
  {
    hide Outgrows, Untouched;
    var calls', replies', k := calls + [c], replies + [r], |calls|;
    assert calls'[..k] == calls && calls'[k] == c && replies'[k] == r;
    forall n | 0 <= n < k
      ensures calls'[..n] == calls[..n] && replies'[n] == replies[n] && calls'[n] == calls[n]
    {
    }
  }

  lemma WaitedExtends<I, O>(calls: seq<Call<I>>, around: Around, env: seq<Rounds>, replies: seq<Reply<O>>,
                            before: Around, after: Around, r: Reply<O>, attempts: nat)
    requires |replies| < |calls| == |env| && AllWaited(calls, around, env, replies)
    requires Arrives(around, env, |replies|, before)
    requires Waited(AlwaysLatches(calls[|replies|]), before, env[|replies|], after, r.status, attempts)
    ensures Arrives(around, env, |replies| + 1, after) && AllWaited(calls, around, env, replies + [r])
  {
    hide Hopeless, Starved;
    assert Leaves(before, env[|replies|], after);
  }

  lemma WaitedMeans<I, O>(calls: seq<Call<I>>, around: Around, env: seq<Rounds>, replies: seq<Reply<O>>, after: Around)
    requires |replies| == |calls| == |env| && AllWaited(calls, around, env, replies) && Settled(around)
    requires Arrives(around, env, |env|, after)
    ensures AllCalm(env) ==> forall r :: r in replies ==> r.status != Error
    ensures AllTidy(env) ==>
              && Settled(after)
              && forall n :: 0 <= n < |replies| && |env[n]| + 4 <= MAX_RETRIES ==> replies[n].status != Error
  {
    hide Starved, Tidy, Calm, HopelessCall;
    if AllCalm(env) {
      forall n: nat | n < |env|
        ensures !HopelessCall(around, env, n)
      {
        CalmIsHopeful(around, env, n);
      }
    }
    if AllTidy(env) {
      TidyArrives(around, env, |env|, after);
      forall n: nat | n < |env| && |env[n]| + 4 <= MAX_RETRIES
        ensures !HopelessCall(around, env, n)
      {
        if HopelessCall(around, env, n) {
          TidyIsHopeful(around, env, n);
          assert false;
        }
      }
    }
  }

  /** What a call sees of its key when its turn comes. */
  lemma SeenThen<I, P(!new), A(!new), O>(store: Store<I, P, O>, m: Meaning<I, P, A, O>, table: Table<A>,
                                         before: int, c: Call<I>)
    requires DeadlinesPass(m) && LooksLike(store, m, table, before) && before <= TimeOf(m, c)
    ensures Seen(m, TimeOf(m, c), store.Cell(c.key)) == Entry(m, table, TimeOf(m, c), c.key)
  {
    LooksLikeLater(store, m, table, before, TimeOf(m, c));
  }

  lemma PanicsExtend<I, P(!new), A, O>(store: Store<I, P, O>, m: Meaning<I, P, A, O>, table: Table<A>,
                                       calls: seq<Call<I>>, replies: seq<Reply<O>>, c: Call<I>, r: Reply<O>)
    requires |calls| == |replies| && PanicsExplained(store, m, table, calls, replies)
    requires r.status == Panicked ==> PanicExplained(store, m, ApplyAll(m, table, calls, replies), c)
    ensures PanicsExplained(store, m, table, calls + [c], replies + [r])
  {
    var calls', replies' := calls + [c], replies + [r];
    assert calls'[..|calls|] == calls && replies'[..|calls|] == replies;
    forall n | 0 <= n < |calls'| && replies'[n].status == Panicked
      ensures PanicExplained(store, m, ApplyAll(m, table, calls'[..n], replies'[..n]), calls'[n])
    {
      if n < |calls| {
        assert calls'[..n] == calls[..n] && replies'[..n] == replies[..n];
      }
    }
  }

  lemma AllRightExtends<I, P, A, O>(m: Meaning<I, P, A, O>, table: Table<A>, calls: seq<Call<I>>,
                                    replies: seq<Reply<O>>, c: Call<I>, r: Reply<O>)
    requires |calls| == |replies| && AllRight(m, table, calls, replies)
    requires RightReply(m, ApplyAll(m, table, calls, replies), c, r)
    ensures AllRight(m, table, calls + [c], replies + [r])
    ensures ApplyAll(m, table, calls + [c], replies + [r])
            == Apply(m, ApplyAll(m, table, calls, replies), c, GaveUp(r.status))
  {
    var calls', replies' := calls + [c], replies + [r];
    assert calls'[..|calls|] == calls && replies'[..|calls|] == replies;
    forall n | 0 <= n < |calls'|
      ensures RightReply(m, ApplyAll(m, table, calls'[..n], replies'[..n]), calls'[n], replies'[n])
    {
      if n < |calls| {
        assert calls'[..n] == calls[..n] && replies'[..n] == replies[..n];
      }
    }
  }
}
