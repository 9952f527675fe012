/**
  One connection (crates/garnet/src/server.rs:83-158): read what the socket has,
  run every complete command of the batch in place, compact the tail to the
  front of the buffer, and grow it when one command fills it. However the bytes
  are cut into reads, the commands that are run are those of the byte stream.
 */
module Server {
  import opened Bytes
  import opened Resp
  import opened RespParser

  const INITIAL_RECV: nat := 64 * 1024
  const MAX_RECV: nat := 512 * 1024 * 1024

  /** What is dispatched: the raw bytes of a command and its fields. */
  datatype Command = Command(raw: seq<Byte>, args: seq<seq<Byte>>)

  /** Open: more bytes may follow. Quit: a command closed the connection. Broken: protocol error. */
  datatype Status = Open | Quit | Broken

  /** The commands in a stream, how many bytes they take, and how the stream goes on. */
  datatype Conversation = Conversation(commands: seq<Command>, used: nat, status: Status)

  function Then(first: Conversation, rest: Conversation): Conversation {
    Conversation(first.commands + rest.commands, first.used + rest.used, rest.status)
  }

  /** What a byte stream says, command by command; `quits` are the commands that close. */
  function Converse(s: seq<Byte>, quits: seq<seq<Byte>> -> bool): (c: Conversation)
    ensures c.used <= |s|
    decreases |s|
  {
    match Parse(s)
    case Incomplete => Conversation([], 0, Open)
    case Malformed => Conversation([], 0, Broken)
    case Complete(args, used) =>
      var one := [Command(s[..used], args)];
      if quits(args) then Conversation(one, used, Quit)
      else Then(Conversation(one, used, Open), Converse(s[used..], quits))
  }

  lemma ThenAssociates(a: Conversation, b: Conversation, c: Conversation)
    ensures Then(Then(a, b), c) == Then(a, Then(b, c))
  {
  }

  function Nothing(status: Status): Conversation {
    Conversation([], 0, status)
  }

  lemma ThenNothing(a: Conversation, b: Conversation)
    requires a.status.Open?
    ensures Then(a, Nothing(Open)) == a && Then(Nothing(Open), b) == b
  {
    assert a.commands + [] == a.commands && [] + b.commands == b.commands;
  }

  /** The first command of a stream, when it is complete. */
  function First(s: seq<Byte>): Conversation
    requires Parse(s).Complete?
  {
    Conversation([Command(s[..Parse(s).used], Parse(s).args)], Parse(s).used, Open)
  }

  /** One step of the stream. */
  lemma ConverseStep(s: seq<Byte>, quits: seq<seq<Byte>> -> bool)
    requires Parse(s).Complete? && !quits(Parse(s).args)
    ensures Converse(s, quits) == Then(First(s), Converse(s[Parse(s).used..], quits))
  {
  }

  /** A conversation that goes on: nothing new unless it was open. */
  predicate GoesOn(c: Conversation, later: Conversation, whole: Conversation) {
    whole == if c.status.Open? then Then(c, later) else c
  }

  lemma GoesOnAfter(first: Conversation, c: Conversation, later: Conversation, whole: Conversation)
    requires GoesOn(c, later, whole)
    ensures GoesOn(Then(first, c), later, Then(first, whole))
  {
    ThenAssociates(first, c, later);
  }

  /** More bytes leave what was said as it was, and go on where it stopped. */
  lemma {:induction false} ConverseMore(s: seq<Byte>, more: seq<Byte>, quits: seq<seq<Byte>> -> bool)
    ensures var c := Converse(s, quits);
            GoesOn(c, Converse(s[c.used..] + more, quits), Converse(s + more, quits))
    decreases |s|
  {
    if Parse(s).Incomplete? {
      assert s[0..] == s;
      ThenNothing(Nothing(Open), Converse(s + more, quits));
    } else {
      ParseStable(s, more);
      if Parse(s).Complete? {
        assert (s + more)[..Parse(s).used] == s[..Parse(s).used];
        if !quits(Parse(s).args) {
          MoreAfterOne(s, more, quits);
          UsedTail(s, quits);
        }
      }
    }
  }

  lemma Tails(s: seq<Byte>, more: seq<Byte>, used: nat, n: nat)
    requires used + n <= |s|
    ensures (s + more)[..used] == s[..used] && (s + more)[used..] == s[used..] + more
    ensures s[used..][n..] == s[used + n..]
  {
  }

  lemma UsedTail(s: seq<Byte>, quits: seq<seq<Byte>> -> bool)
    requires Parse(s).Complete? && !quits(Parse(s).args)
    ensures var tail := s[Parse(s).used..];
            s[Converse(s, quits).used..] == tail[Converse(tail, quits).used..]
  {
    ConverseStep(s, quits);
    Tails(s, [], Parse(s).used, Converse(s[Parse(s).used..], quits).used);
  }

  lemma {:induction false} MoreAfterOne(s: seq<Byte>, more: seq<Byte>, quits: seq<seq<Byte>> -> bool)
    requires Parse(s).Complete? && !quits(Parse(s).args) && Parse(s + more) == Parse(s)
    ensures var tail := s[Parse(s).used..];
            var later := Converse(tail[Converse(tail, quits).used..] + more, quits);
            GoesOn(Converse(s, quits), later, Converse(s + more, quits))
    decreases |s|, 0
  {
    var tail := s[Parse(s).used..];
    var rest := Converse(tail, quits);
    Tails(s, more, Parse(s).used, rest.used);
    ConverseMore(tail, more, quits);
    GoesOnAfter(First(s), rest, Converse(tail[rest.used..] + more, quits), Converse(tail + more, quits));
    ConverseStep(s, quits);
    ConverseStep(s + more, quits);
  }

  /** The commands of a stream's beginning are the beginning of the stream's commands. */
  lemma CommandsGrow(s: seq<Byte>, more: seq<Byte>, quits: seq<seq<Byte>> -> bool)
    ensures Converse(s, quits).commands <= Converse(s + more, quits).commands
  {
    ConverseMore(s, more, quits);
  }

  function EncodeAll(cmds: seq<seq<seq<Byte>>>): seq<Byte> {
    if cmds == [] then [] else Encode(cmds[0]) + EncodeAll(cmds[1..])
  }

  function CommandOf(args: seq<seq<Byte>>): Command {
    Command(Encode(args), args)
  }

  /** The commands and nothing else, all of the stream used up. */
  predicate HeardAs(c: Conversation, cmds: seq<seq<seq<Byte>>>, used: nat) {
    && c.status.Open? && c.used == used && |c.commands| == |cmds|
    && forall k :: 0 <= k < |cmds| ==> c.commands[k] == CommandOf(cmds[k])
  }

  lemma HeardFirst(first: seq<seq<Byte>>, rest: Conversation, cmds: seq<seq<seq<Byte>>>, used: nat)
    requires HeardAs(rest, cmds, used)
    ensures HeardAs(Then(Conversation([CommandOf(first)], |Encode(first)|, Open), rest), [first] + cmds,
                    |Encode(first)| + used)
  {
  }

  /** A command and what follows it in the stream. */
  lemma HeardThen(args: seq<seq<Byte>>, tail: seq<Byte>, quits: seq<seq<Byte>> -> bool)
    requires Encodable(args) && !quits(args)
    ensures Converse(Encode(args) + tail, quits)
            == Then(Conversation([CommandOf(args)], |Encode(args)|, Open), Converse(tail, quits))
  {
    var first := Encode(args);
    EncodedParses(args, tail);
    ConverseStep(first + tail, quits);
    assert (first + tail)[..|first|] == first && (first + tail)[|first|..] == tail;
  }

  /** A pipeline of encoded commands is heard as exactly those commands. */
  lemma {:induction false} PipelineHeard(cmds: seq<seq<seq<Byte>>>, quits: seq<seq<Byte>> -> bool)
    requires forall k :: 0 <= k < |cmds| ==> Encodable(cmds[k]) && !quits(cmds[k])
    ensures HeardAs(Converse(EncodeAll(cmds), quits), cmds, |EncodeAll(cmds)|)
    decreases |cmds|
  {
    if cmds != [] {
      var tail := EncodeAll(cmds[1..]);
      HeardThen(cmds[0], tail, quits);
      PipelineHeard(cmds[1..], quits);
      HeardFirst(cmds[0], Converse(tail, quits), cmds[1..], |tail|);
      assert [cmds[0]] + cmds[1..] == cmds;
    }
  }

  /** What the command loop knows: what it has run, then what is ahead of it. */
  ghost predicate RunSoFar(buf: seq<Byte>, quits: seq<seq<Byte>> -> bool, batch: seq<Command>, readHead: nat)
    requires readHead <= |buf|
  {
    Converse(buf, quits) == Then(Conversation(batch, readHead, Open), Converse(buf[readHead..], quits))
  }

  lemma BatchStep(buf: seq<Byte>, quits: seq<seq<Byte>> -> bool, batch: seq<Command>, readHead: nat)
    requires readHead <= |buf| && RunSoFar(buf, quits, batch, readHead)
    requires Parse(buf[readHead..]).Complete? && !quits(Parse(buf[readHead..]).args)
    ensures var used := Parse(buf[readHead..]).used;
            && readHead + used <= |buf|
            && RunSoFar(buf, quits, batch + First(buf[readHead..]).commands, readHead + used)
  {
    var rest := buf[readHead..];
    var used := Parse(rest).used;
    ConverseStep(rest, quits);
    SliceOfSlice(buf, readHead, used, used);
    ThenAssociates(Conversation(batch, readHead, Open), First(rest), Converse(buf[readHead + used..], quits));
  }

  lemma BatchEnd(buf: seq<Byte>, quits: seq<seq<Byte>> -> bool, batch: seq<Command>, readHead: nat, status: Status)
    requires readHead <= |buf| && RunSoFar(buf, quits, batch, readHead)
    requires Converse(buf[readHead..], quits) == Nothing(status)
    ensures Converse(buf, quits) == Conversation(batch, readHead, status)
  {
    assert batch + [] == batch;
  }

  lemma BatchQuit(buf: seq<Byte>, quits: seq<seq<Byte>> -> bool, batch: seq<Command>, readHead: nat)
    requires readHead <= |buf| && RunSoFar(buf, quits, batch, readHead)
    requires Parse(buf[readHead..]).Complete? && quits(Parse(buf[readHead..]).args)
    ensures Converse(buf, quits)
            == Conversation(batch + First(buf[readHead..]).commands, readHead + Parse(buf[readHead..]).used, Quit)
  {
  }

  /** The command at the read head, with its raw bytes and its fields. */
  method NextCommand(buf: seq<Byte>, readHead: nat) returns (r: Outcome, one: Command)
    requires readHead <= |buf|
    ensures match Parse(buf[readHead..])
            case Incomplete => r.NeedMore?
            case Malformed => r.ProtocolError?
            case Complete(args, used) =>
              r == Next(readHead + used) && one.args == args && [one] == First(buf[readHead..]).commands
  {
    var slices;
    r, slices := ParseCommand(buf, readHead);
    if !r.Next? {
      return r, Command([], []);
    }
    SliceOfSlice(buf, readHead, 0, r.next - readHead);
    return r, Command(buf[readHead..r.next], Texts(buf, slices));
  }

  /** The command loop of one batch, over the valid part of the receive buffer. */
  method RunBatch(buf: seq<Byte>, quits: seq<seq<Byte>> -> bool)
    returns (batch: seq<Command>, readHead: nat, status: Status)
    ensures Conversation(batch, readHead, status) == Converse(buf, quits)
  {
    batch, readHead := [], 0;
    assert buf[0..] == buf;
    ThenNothing(Nothing(Open), Converse(buf, quits));
    while true
      invariant readHead <= |buf| && RunSoFar(buf, quits, batch, readHead)
      decreases |buf| - readHead
    {
      var r, one := NextCommand(buf, readHead);
      if r.NeedMore? {
        BatchEnd(buf, quits, batch, readHead, Open);
        return batch, readHead, Open;
      }
      if r.ProtocolError? {
        BatchEnd(buf, quits, batch, readHead, Broken);
        return batch, readHead, Broken;
      }
      if quits(one.args) {
        BatchQuit(buf, quits, batch, readHead);
        return batch + [one], r.next, Quit;
      }
      BatchStep(buf, quits, batch, readHead);
      batch, readHead := batch + [one], r.next;
    }
  }

  /** Copies bytes into a buffer; what lies before them stays. */
  method CopyInto(a: array<Byte>, at: nat, chunk: seq<Byte>)
    requires at + |chunk| <= a.Length
    modifies a
    ensures a[..at] == old(a[..at]) && a[at..at + |chunk|] == chunk
  {
    forall k | 0 <= k < |chunk| {
      a[at + k] := chunk[k];
    }
  }

  /** Idle: the schedule ran out first. TooLarge: one command has filled the largest buffer. */
  datatype Ending = Idle | Disconnected | TooLarge | Closed(status: Status)

  // ---------------------------------------------------------------------
  // What a whole stream comes to, however it is read
  // ---------------------------------------------------------------------

  /** The bytes up to `w` end in an incomplete command as long as the largest buffer. */
  ghost predicate Full(stream: seq<Byte>, quits: seq<seq<Byte>> -> bool, w: nat)
    requires w <= |stream|
  {
    var c := Converse(stream[..w], quits);
    c.status.Open? && w - c.used == MAX_RECV
  }

  /** How far a stream can be read: to its end, or until a command has filled the largest buffer. */
  ghost function Limit(stream: seq<Byte>, quits: seq<seq<Byte>> -> bool, from: nat): (limit: nat)
    requires from <= |stream|
    ensures from <= limit <= |stream|
    ensures limit < |stream| ==> Full(stream, quits, limit)
    ensures forall w :: from <= w < limit ==> !Full(stream, quits, w)
    decreases |stream| - from
  {
    if from == |stream| || Full(stream, quits, from) then from else Limit(stream, quits, from + 1)
  }

  /** What is heard of a stream. */
  ghost function Heard(stream: seq<Byte>, quits: seq<seq<Byte>> -> bool): Conversation {
    Converse(stream[..Limit(stream, quits, 0)], quits)
  }

  /** How a stream that is read as far as it goes ends the connection. */
  ghost function EndingOf(stream: seq<Byte>, quits: seq<seq<Byte>> -> bool): Ending {
    var c := Heard(stream, quits);
    if !c.status.Open? then Closed(c.status)
    else if Full(stream, quits, Limit(stream, quits, 0)) then TooLarge
    else Disconnected
  }

  /** Reads that go on as long as there can be anything to read. */
  ghost predicate LongEnough(stream: seq<Byte>, ready: seq<nat>) {
    |stream| < |ready| && forall k :: 0 <= k < |ready| ==> 0 < ready[k]
  }

  /** No read from before the limit goes beyond it. */
  lemma ReadStaysBelow(stream: seq<Byte>, quits: seq<seq<Byte>> -> bool, at: nat, n: nat)
    requires at <= Limit(stream, quits, 0) && at + n <= |stream|
    requires Converse(stream[..at], quits).status.Open?
    requires at - Converse(stream[..at], quits).used + n <= MAX_RECV
    ensures at + n <= Limit(stream, quits, 0)
  {
    hide Converse, Limit;
    var limit := Limit(stream, quits, 0);
    if limit < |stream| {
      assert stream[..limit] == stream[..at] + stream[at..limit];
      ConverseMore(stream[..at], stream[at..limit], quits);
    }
  }

  /** What was heard when a read closed the connection, or could go no further, is what there is to hear. */
  lemma HeardIt(stream: seq<Byte>, quits: seq<seq<Byte>> -> bool, at: nat, ending: Ending)
    requires at <= Limit(stream, quits, 0)
    requires var c := Converse(stream[..at], quits);
             match ending
             case Closed(status) => status == c.status && !status.Open?
             case TooLarge => Full(stream, quits, at)
             case Disconnected => c.status.Open? && at == |stream| && !Full(stream, quits, at)
             case Idle => false
    ensures Heard(stream, quits).commands == Converse(stream[..at], quits).commands
    ensures ending == EndingOf(stream, quits)
  {
    hide Converse, Limit;
    var limit := Limit(stream, quits, 0);
    if ending.Closed? {
      assert stream[..limit] == stream[..at] + stream[at..limit];
      ConverseMore(stream[..at], stream[at..limit], quits);
    } else {
      assert at == limit;
    }
  }

  class Connection {
    const quits: seq<seq<Byte>> -> bool
    var recv: array<Byte>
    var bytesRead: nat
    var dispatched: seq<Command>
    ghost var taken: seq<Byte>

    ghost predicate Valid()
      reads this
    {
      bytesRead <= recv.Length && INITIAL_RECV <= recv.Length <= MAX_RECV
    }

    /** Between batches: everything complete has been run, and the buffer holds the rest. */
    ghost predicate Waiting()
      reads this, recv
    {
      && Valid() && bytesRead <= |taken|
      && Converse(taken, quits) == Conversation(dispatched, |taken| - bytesRead, Open)
      && recv[..bytesRead] == taken[|taken| - bytesRead..]
    }

    constructor (q: seq<seq<Byte>> -> bool)
      ensures Waiting() && taken == [] && quits == q && fresh(recv)
    {
      quits := q;
      recv := new Byte[INITIAL_RECV];
      bytesRead := 0;
      dispatched := [];
      taken := [];
    }

    /** How much the next read may return, once the buffer has grown. */
    ghost function Room(): nat
      requires Valid()
      reads this
    {
      if bytesRead < recv.Length then recv.Length - bytesRead
      else Min(recv.Length * 2, MAX_RECV) - bytesRead
    }

    /** Doubles a buffer that one command has filled; fails at the limit. */
    method Grow() returns (ok: bool)
      requires Waiting()
      modifies this`recv
      ensures Waiting()
      ensures ok <==> 0 < old(Room())
      ensures ok ==> recv.Length - bytesRead == old(Room())
      ensures recv == old(recv) || fresh(recv)
    {
      if bytesRead < recv.Length {
        return true;
      }
      if MAX_RECV <= recv.Length {
        return false;
      }
      var wider := new Byte[Min(recv.Length * 2, MAX_RECV)];
      forall k | 0 <= k < bytesRead {
        wider[k] := recv[k];
      }
      assert wider[..bytesRead] == recv[..bytesRead];
      recv := wider;
      return true;
    }

    /** `stream.read` puts what has arrived behind the valid bytes. */
    method Receive(chunk: seq<Byte>)
      requires Valid() && bytesRead + |chunk| <= recv.Length
      modifies this`bytesRead, this`taken, recv
      ensures Valid() && taken == old(taken) + chunk
      ensures recv[..bytesRead] == old(recv[..bytesRead]) + chunk
    {
      CopyInto(recv, bytesRead, chunk);
      assert recv[..bytesRead + |chunk|] == recv[..bytesRead] + recv[bytesRead..bytesRead + |chunk|];
      bytesRead := bytesRead + |chunk|;
      taken := taken + chunk;
    }

    /** Moves the tail that was not consumed to the front of the buffer. */
    method Compact(readHead: nat)
      requires Valid() && readHead <= bytesRead
      modifies this`bytesRead, recv
      ensures Valid() && recv[..bytesRead] == old(recv[readHead..bytesRead])
      ensures bytesRead == old(bytesRead) - readHead
    {
      if 0 < readHead {
        forall k | 0 <= k < bytesRead - readHead {
          recv[k] := recv[readHead + k];
        }
        bytesRead := bytesRead - readHead;
      }
    }

    /** The state of the buffer after a read: some bytes of the stream are not yet looked at. */
    ghost predicate Received(before: seq<Byte>, already: seq<Command>)
      reads this, recv
    {
      && Valid() && dispatched == already
      && var c := Converse(before, quits);
         && c.status.Open? && c.commands == already
         && before <= taken && recv[..bytesRead] == before[c.used..] + taken[|before|..]
    }

    /** One batch: run what is complete, keep the rest. */
    method Process(ghost before: seq<Byte>) returns (status: Status)
      requires Received(before, dispatched)
      modifies this`bytesRead, this`dispatched, recv
      ensures dispatched == Converse(taken, quits).commands && status == Converse(taken, quits).status
      ensures status.Open? ==> Waiting()
    {
      hide Converse;
      var buf := recv[..bytesRead];
      ghost var c := Converse(before, quits);
      var batch, readHead;
      batch, readHead, status := RunBatch(buf, quits);
      assert taken == before + taken[|before|..];
      ConverseMore(before, taken[|before|..], quits);
      assert Converse(taken, quits) == Then(c, Conversation(batch, readHead, status));
      dispatched := dispatched + batch;
      if status.Open? {
        ghost var rest := buf[readHead..];
        assert rest == taken[c.used + readHead..];
        Compact(readHead);
        assert |rest| == |taken| - (c.used + readHead);
      }
    }

    /** One turn of the connection loop, once there is room. */
    method ReadBatch(chunk: seq<Byte>) returns (status: Status)
      requires Waiting() && bytesRead + |chunk| <= recv.Length
      modifies this`bytesRead, this`taken, this`dispatched, recv
      ensures taken == old(taken) + chunk
      ensures dispatched == Converse(taken, quits).commands && status == Converse(taken, quits).status
      ensures status.Open? ==> Waiting()
    {
      ghost var before := taken;
      Receive(chunk);
      status := Process(before);
    }

    /** What the connection has done agrees with what the bytes it took say. */
    ghost predicate RightEnding(ending: Ending)
      reads this
    {
      var c := Converse(taken, quits);
      && dispatched == c.commands
      && (if ending.Closed? then ending.status == c.status && !c.status.Open? else c.status.Open?)
      && (ending.TooLarge? ==> |taken| - c.used == MAX_RECV)
    }

    /** One turn of the connection loop, with what the socket has ready; `n` is how much the read returns. */
    method Turn(arrived: seq<Byte>) returns (ending: Ending, n: nat)
      requires Waiting()
      modifies this`recv, this`bytesRead, this`taken, this`dispatched, recv
      ensures ending.TooLarge? <==> old(Room()) == 0
      ensures n == if ending.TooLarge? then 0 else Min(|arrived|, old(Room()))
      ensures ending.Disconnected? <==> !ending.TooLarge? && arrived == []
      ensures n <= |arrived| && taken == old(taken) + arrived[..n]
      ensures RightEnding(ending) && (ending.Idle? ==> Waiting())
      ensures recv == old(recv) || fresh(recv)
    {
      var ok := Grow();
      if !ok {
        return TooLarge, 0;
      }
      n := Min(|arrived|, recv.Length - bytesRead);
      if n == 0 {
        return Disconnected, n;
      }
      var status := ReadBatch(arrived[..n]);
      ending := if status.Open? then Idle else Closed(status);
    }

    /** Where the connection is after some turns of its loop. */
    ghost predicate Reading(stream: seq<Byte>, ready: seq<nat>, at: nat, k: nat, ending: Ending)
      reads this, recv
    {
      && k <= |ready| && at <= Limit(stream, quits, 0) && taken == stream[..at]
      && RightEnding(ending)
      && (ending.Idle? ==> Waiting() && k <= at)
      && (ending.Disconnected? ==> 0 < k && (ready[k - 1] == 0 || at == |stream|) && !Full(stream, quits, at))
    }

    /** The next read, from where the connection is. */
    method ReadOn(stream: seq<Byte>, ready: seq<nat>, at: nat, k: nat) returns (ending: Ending, at': nat)
      requires Reading(stream, ready, at, k, Idle) && k < |ready|
      modifies this`recv, this`bytesRead, this`taken, this`dispatched, recv
      ensures Reading(stream, ready, at', k + 1, ending)
      ensures recv == old(recv) || fresh(recv)
    {
      hide Converse, Limit;
      ghost var room := Room();
      assert room <= MAX_RECV - bytesRead;
      assert Full(stream, quits, at) ==> room == 0;
      var arrived := stream[at..Min(at + ready[k], |stream|)];
      var n;
      ending, n := Turn(arrived);
      assert arrived[..n] == stream[at..at + n] && stream[..at] + stream[at..at + n] == stream[..at + n];
      ReadStaysBelow(stream, quits, at, n);
      at' := at + n;
    }

    /**
      The connection, with the socket replaced by the bytes it carries and the
      number it has ready at each read. It stops early only for a read of nothing
      and when it is closed. Reads that go on long enough come to what the stream
      says, in its commands and in how it ends, wherever they happened to cut it.
     */
    method HandleConnection(stream: seq<Byte>, ready: seq<nat>) returns (ending: Ending, turns: nat)
      requires Waiting() && taken == []
      modifies this, recv
      ensures taken <= stream && RightEnding(ending) && turns <= |ready|
      ensures ending.Idle? ==> turns == |ready| <= |taken|
      ensures ending.Disconnected? ==> 0 < turns && (ready[turns - 1] == 0 || taken == stream)
      ensures LongEnough(stream, ready) ==>
                dispatched == Heard(stream, quits).commands && ending == EndingOf(stream, quits)
    {
      hide Converse, Limit, Heard, EndingOf;
      ending, turns := Idle, 0;
      var at: nat := 0;
      while turns < |ready| && ending.Idle?
        invariant Reading(stream, ready, at, turns, ending)
        invariant recv == old(recv) || fresh(recv)
        decreases |ready| - turns
      {
        ending, at := ReadOn(stream, ready, at, turns);
        turns := turns + 1;
      }
      if LongEnough(stream, ready) {
        HeardIt(stream, quits, at, ending);
      }
    }
  }

  /** Two ways of cutting one stream into reads run the same commands and end alike. */
  method ReadTwice(stream: seq<Byte>, quits: seq<seq<Byte>> -> bool, ready: seq<nat>, ready': seq<nat>)
    returns (c: Connection, c': Connection, ending: Ending, ending': Ending)
    requires LongEnough(stream, ready) && LongEnough(stream, ready')
    ensures c.dispatched == c'.dispatched && ending == ending' && !ending.Idle?
  {
    c := new Connection(quits);
    var n;
    ending, n := c.HandleConnection(stream, ready);
    c' := new Connection(quits);
    ending', n := c'.HandleConnection(stream, ready');
  }

  /** A stream in which no command is too long is heard to its end. */
  lemma HeardAll(stream: seq<Byte>, quits: seq<seq<Byte>> -> bool)
    ensures (forall w :: 0 <= w < |stream| ==> !Full(stream, quits, w)) <==> Limit(stream, quits, 0) == |stream|
    ensures Limit(stream, quits, 0) == |stream| ==> Heard(stream, quits) == Converse(stream, quits)
  {
    assert stream[..|stream|] == stream;
  }
}
