/**
  Which keys a queued command locks and which it touches
  (crates/garnet/src/commands.rs:146-255, 699-771, 907-935). EXEC collects the
  lock list from `command_keys` before it runs the commands through
  `exec_command`, which decides on its own which keys to read and write.
 */
module Commands {
  import opened Bytes
  import opened TxnLock

  /** Command names, after `command_name` has normalized their case. */
  datatype Name =
    | GET | SET | SETNX | SETEX | PSETEX | GETSET | GETDEL | GETEX | APPEND | STRLEN
    | GETRANGE | SUBSTR | SETRANGE | INCR | DECR | INCRBY | DECRBY | MSET | MGET
    | DEL | UNLINK | EXISTS | EXPIRE | PEXPIRE | EXPIREAT | PEXPIREAT | TTL | PTTL
    | PERSIST | TYPE | KEYS | SCAN | DBSIZE | FLUSHDB | FLUSHALL | OTHER

  /** `args[0]` is the name as written; the rest are operands. */
  datatype Command = Command(name: Name, args: seq<Key>)

  type Access = (Key, LockType)

  /** Every `step`-th argument from `from` on. */
  function Every(args: seq<Key>, from: nat, step: nat, mode: LockType): seq<Access>
    requires 0 < step
    decreases |args| - from
  {
    if |args| <= from then [] else [(args[from], mode)] + Every(args, from + step, step, mode)
  }

  /** `command_keys`: what EXEC locks for a command. */
  function CommandKeys(c: Command): seq<Access> {
    match c.name
    case GET | STRLEN | GETRANGE | SUBSTR | TTL | PTTL | EXISTS | TYPE | MGET => Every(c.args, 1, 1, Shared)
    case DEL | UNLINK => Every(c.args, 1, 1, Exclusive)
    case MSET => Every(c.args, 1, 2, Exclusive)
    case _ => if 2 <= |c.args| then Every(c.args, 1, |c.args|, Exclusive) else []
  }

  function One(c: Command, arity: nat, mode: LockType): seq<Access>
    requires 2 <= arity
  {
    if |c.args| == arity then [(c.args[1], mode)] else []
  }

  /** The pairs of MSET: `as_chunks::<2>` of the operands. */
  function Chunks(operands: seq<Key>): seq<Access> {
    if |operands| < 2 then [] else [(operands[0], Exclusive)] + Chunks(operands[2..])
  }

  function Operands(operands: seq<Key>, mode: LockType): seq<Access> {
    if operands == [] then [] else [(operands[0], mode)] + Operands(operands[1..], mode)
  }

  /** The calls of the session that `exec_command` may make, key by key: reads are shared, writes exclusive. */
  function Touches(c: Command): seq<Access> {
    match c.name
    case GET | STRLEN | TTL | PTTL | TYPE => One(c, 2, Shared)
    case GETRANGE | SUBSTR => One(c, 4, Shared)
    case EXISTS | MGET => if 2 <= |c.args| then Operands(c.args[1..], Shared) else []
    case DEL | UNLINK => if 2 <= |c.args| then Operands(c.args[1..], Exclusive) else []
    case MSET => if 3 <= |c.args| && |c.args| % 2 == 1 then Chunks(c.args[1..]) else []
    case SET => if 3 <= |c.args| then [(c.args[1], Exclusive)] else []
    case GETEX =>
      if |c.args| < 2 then []
      else if |c.args| == 2 then [(c.args[1], Shared)]
      else [(c.args[1], Exclusive)]
    case SETNX | GETSET | APPEND | INCRBY | DECRBY | EXPIRE | PEXPIRE | EXPIREAT | PEXPIREAT => One(c, 3, Exclusive)
    case SETEX | PSETEX | SETRANGE => One(c, 4, Exclusive)
    case GETDEL | INCR | DECR | PERSIST => One(c, 2, Exclusive)
    case KEYS | SCAN | DBSIZE | FLUSHDB | FLUSHALL | OTHER => []
  }

  /**
    The commands that go over all keys: KEYS, SCAN and DBSIZE read every live
    record through `scan_live`, FLUSHDB and FLUSHALL clear the index.
   */
  function TouchesAll(c: Command): Option<LockType> {
    match c.name
    case KEYS => if |c.args| == 2 then Some(Shared) else None
    case SCAN => if 2 <= |c.args| then Some(Shared) else None
    case DBSIZE => Some(Shared)
    case FLUSHDB | FLUSHALL => Some(Exclusive)
    case _ => None
  }

  /** The keys that a command reads or writes, and how. */
  ghost predicate Touched(c: Command, touch: Access) {
    touch in Touches(c) || TouchesAll(c) == Some(touch.1)
  }

  /** A lock on the same key that is at least as strong. */
  predicate Suffices(lock: Access, touch: Access) {
    lock.0 == touch.0 && (touch.1.Exclusive? ==> lock.1.Exclusive?)
  }

  predicate Covers(locks: seq<Access>, touch: Access) {
    exists i :: 0 <= i < |locks| && Suffices(locks[i], touch)
  }

  lemma {:induction false} EveryAt(args: seq<Key>, from: nat, step: nat, mode: LockType, n: nat)
    requires 0 < step && from + n * step < |args|
    ensures n < |Every(args, from, step, mode)|
    ensures Every(args, from, step, mode)[n] == (args[from + n * step], mode)
    decreases n
  {
    if 0 < n {
      assert from + n * step == (from + step) + (n - 1) * step;
      EveryAt(args, from + step, step, mode, n - 1);
    }
  }

  lemma {:induction false} OperandAt(operands: seq<Key>, mode: LockType, k: nat)
    requires k < |Operands(operands, mode)|
    ensures k < |operands| && Operands(operands, mode)[k] == (operands[k], mode)
  {
    if 0 < k {
      OperandAt(operands[1..], mode, k - 1);
    }
  }

  lemma {:induction false} ChunkAt(operands: seq<Key>, k: nat)
    requires k < |Chunks(operands)|
    ensures 2 * k < |operands| && Chunks(operands)[k] == (operands[2 * k], Exclusive)
  {
    if 0 < k {
      ChunkAt(operands[2..], k - 1);
    }
  }

  /** Commands whose operands are all keys, or all pairs of key and value. */
  predicate IsList(name: Name) {
    name.EXISTS? || name.MGET? || name.DEL? || name.UNLINK? || name.MSET?
  }

  lemma ListCovered(c: Command, k: nat)
    requires IsList(c.name) && k < |Touches(c)|
    ensures Covers(CommandKeys(c), Touches(c)[k])
  {
    hide Every, Operands, Chunks;
    var mode := if c.name.EXISTS? || c.name.MGET? then Shared else Exclusive;
    if c.name.MSET? {
      ChunkAt(c.args[1..], k);
      EveryAt(c.args, 1, 2, mode, k);
    } else {
      OperandAt(c.args[1..], mode, k);
      EveryAt(c.args, 1, 1, mode, k);
    }
    assert Suffices(CommandKeys(c)[k], Touches(c)[k]);
  }

  /** The others touch their first operand only. */
  lemma SingleCovered(c: Command, k: nat)
    requires !IsList(c.name) && k < |Touches(c)|
    ensures Covers(CommandKeys(c), Touches(c)[k])
  {
    assert k == 0 && 2 <= |c.args| && Touches(c)[0].0 == c.args[1];
    assert CommandKeys(c) != [] && CommandKeys(c)[0].0 == c.args[1];
    assert Suffices(CommandKeys(c)[0], Touches(c)[0]);
  }

  lemma TouchCovered(c: Command, k: nat)
    requires k < |Touches(c)|
    ensures Covers(CommandKeys(c), Touches(c)[k])
  {
    if IsList(c.name) {
      ListCovered(c, k);
    } else {
      SingleCovered(c, k);
    }
  }

  /** A key that is on no list of locks this short: one longer than all of theirs. */
  function Longer(locks: seq<Access>): (key: Key)
    ensures forall lock :: lock in locks ==> |lock.0| < |key|
  {
    if locks == [] then [0]
    else Zeros(Max(|locks[|locks| - 1].0| + 1, |Longer(locks[..|locks| - 1])|))
  }

  /** All that a queued command reads or writes is locked for it exactly if it is none of those that go over all keys. */
  lemma KeysCovered(c: Command)
    ensures (forall touch: Access :: Touched(c, touch) ==> Covers(CommandKeys(c), touch)) <==> TouchesAll(c).None?
  {
    forall touch: Access | touch in Touches(c)
      ensures Covers(CommandKeys(c), touch)
    {
      var k :| 0 <= k < |Touches(c)| && Touches(c)[k] == touch;
      TouchCovered(c, k);
    }
    if TouchesAll(c).Some? {
      var touch := (Longer(CommandKeys(c)), TouchesAll(c).value);
      assert Touched(c, touch) && !Covers(CommandKeys(c), touch);
    }
  }

  // ---------------------------------------------------------------------
  // A whole transaction
  // ---------------------------------------------------------------------

  /** The lock list that EXEC collects from the queue, key by key. */
  function LockKeys(queued: seq<Command>): seq<Access> {
    if queued == [] then [] else LockKeys(queued[..|queued| - 1]) + CommandKeys(queued[|queued| - 1])
  }

  /** `txn_lock` turns each key into its bucket. */
  function Buckets(keys: seq<Access>, bucketOf: Key -> nat): seq<Want> {
    seq(|keys|, i requires 0 <= i < |keys| => (bucketOf(keys[i].0), keys[i].1))
  }

  lemma {:induction false} QueueCovered(queued: seq<Command>, i: nat, touch: Access)
    requires i < |queued| && touch in Touches(queued[i])
    ensures Covers(LockKeys(queued), touch)
  {
    hide Touches, CommandKeys;
    var n := |queued| - 1;
    var before, last := LockKeys(queued[..n]), CommandKeys(queued[n]);
    if i == n {
      var k :| 0 <= k < |Touches(queued[n])| && Touches(queued[n])[k] == touch;
      TouchCovered(queued[n], k);
      var j :| 0 <= j < |last| && Suffices(last[j], touch);
      assert (before + last)[|before| + j] == last[j];
    } else {
      QueueCovered(queued[..n], i, touch);
      var j :| 0 <= j < |before| && Suffices(before[j], touch);
      assert (before + last)[j] == before[j];
    }
  }

  /** The latch on the bucket of the key is held, in a mode that suffices. */
  ghost predicate Latched(queued: seq<Command>, bucketOf: Key -> nat, touch: Access) {
    exists w :: w in Wanted(Buckets(LockKeys(queued), bucketOf)) && Suffices((touch.0, w.1), touch)
                && w.0 == bucketOf(touch.0)
  }

  /** The latches that EXEC takes hold the bucket of everything that its commands read or write. */
  ghost predicate Isolated(queued: seq<Command>, bucketOf: Key -> nat) {
    forall i, touch: Access :: 0 <= i < |queued| && Touched(queued[i], touch) ==> Latched(queued, bucketOf, touch)
  }

  lemma TouchLatched(queued: seq<Command>, bucketOf: Key -> nat, i: nat, touch: Access)
    requires i < |queued| && touch in Touches(queued[i])
    ensures Latched(queued, bucketOf, touch)
  {
    var keys := LockKeys(queued);
    var wants := Buckets(keys, bucketOf);
    QueueCovered(queued, i, touch);
    var j :| 0 <= j < |keys| && Suffices(keys[j], touch);
    assert wants[j] in wants;
    WantedExact(wants);
    var m :| 0 <= m < |Wanted(wants)| && Wanted(wants)[m].0 == wants[j].0;
    assert Strongest(wants, Wanted(wants)[m]);
  }

  /** A key that is in a bucket of its own, and in no lock list, is not latched. */
  lemma KeyAside(queued: seq<Command>, mode: LockType)
    ensures var key := Longer(LockKeys(queued));
            !Latched(queued, k => if k == key then 1 else 0, (key, mode))
  {
    var key := Longer(LockKeys(queued));
    var wants := Buckets(LockKeys(queued), k => if k == key then 1 else 0);
    forall w | w in wants
      ensures w.0 == 0
    {
      var i :| 0 <= i < |wants| && wants[i] == w;
      assert LockKeys(queued)[i] in LockKeys(queued);
    }
    WantedExact(wants);
    forall w | w in Wanted(wants)
      ensures w.0 == 0
    {
      assert Strongest(wants, w);
    }
  }

  /**
    However keys are spread over buckets: a transaction is isolated if and only if
    no command in it goes over all keys.
   */
  lemma TransactionCovered(queued: seq<Command>)
    ensures (forall bucketOf: Key -> nat :: Isolated(queued, bucketOf))
            <==> (forall i :: 0 <= i < |queued| ==> TouchesAll(queued[i]).None?)
  {
    forall bucketOf: Key -> nat, i, touch: Access | 0 <= i < |queued| && touch in Touches(queued[i])
      ensures Latched(queued, bucketOf, touch)
    {
      TouchLatched(queued, bucketOf, i, touch);
    }
    forall i | 0 <= i < |queued| && TouchesAll(queued[i]).Some?
      ensures exists bucketOf: Key -> nat :: !Isolated(queued, bucketOf)
    {
      var key, mode := Longer(LockKeys(queued)), TouchesAll(queued[i]).value;
      KeyAside(queued, mode);
      assert Touched(queued[i], (key, mode));
      assert !Isolated(queued, k => if k == key then 1 else 0);
    }
  }

  /**
    MULTI, KEYS "*", FLUSHALL, EXEC: KEYS reads the record of "a" while only "*" is
    locked, and FLUSHALL, which locks nothing of its own, removes it.
   */
  lemma KeysReachesUnlocked(queued: seq<Command>, all: Key, a: Key)
    requires all == [42] && a == [97]
    requires queued == [Command(KEYS, [[75, 69, 89, 83], all]), Command(FLUSHALL, [[70, 76, 85, 83, 72, 65, 76, 76]])]
    ensures LockKeys(queued) == [(all, Exclusive)]
    ensures Touched(queued[0], (a, Shared)) && !Covers(LockKeys(queued), (a, Shared))
    ensures Touched(queued[1], (a, Exclusive)) && !Covers(LockKeys(queued), (a, Exclusive))
  {
    hide CommandKeys, Every;
    TwoQueued(queued[0], queued[1]);
    KeysLocks(queued[0].args);
    FlushLocks(queued[1].args);
    assert all != a;
  }

  lemma TwoQueued(c: Command, d: Command)
    ensures LockKeys([c, d]) == CommandKeys(c) + CommandKeys(d)
  {
    hide CommandKeys;
    assert [c, d][..1] == [c] && [c][..0] == [];
    assert LockKeys([c]) == CommandKeys(c);
  }

  lemma KeysLocks(args: seq<Key>)
    requires |args| == 2
    ensures CommandKeys(Command(KEYS, args)) == [(args[1], Exclusive)]
  {
    assert Every(args, 3, 2, Exclusive) == [];
  }

  lemma FlushLocks(args: seq<Key>)
    requires |args| == 1
    ensures CommandKeys(Command(FLUSHALL, args)) == []
  {
  }
}
