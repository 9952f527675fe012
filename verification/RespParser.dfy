/**
  The parser as it runs (crates/garnet/src/resp.rs:60-186): cursors over the
  receive buffer that push argument ranges. Each method is tied to what the
  bytes from its position on mean.
 */
module RespParser {
  import opened Bytes
  import opened Numbers
  import opened Resp

  /** An argument as a range of the receive buffer. */
  datatype ArgSlice = ArgSlice(start: nat, end: nat)

  datatype Outcome = Next(next: nat) | NeedMore | ProtocolError

  function TextOf(buf: seq<Byte>, a: ArgSlice): seq<Byte> {
    if a.start <= a.end <= |buf| then buf[a.start..a.end] else []
  }

  function Texts(buf: seq<Byte>, args: seq<ArgSlice>): seq<seq<Byte>> {
    seq(|args|, i requires 0 <= i < |args| => TextOf(buf, args[i]))
  }

  function Ahead(at: Option<nat>, n: nat): Option<nat> {
    if at.Some? then Some(at.value + n) else None
  }

  /** The outcome and the argument ranges say what the bytes at the cursor are. */
  ghost predicate Reports(buf: seq<Byte>, pos: nat, expected: Parsed, r: Outcome, args: seq<ArgSlice>) {
    match expected
    case Incomplete => r.NeedMore?
    case Malformed => r.ProtocolError?
    case Complete(texts, used) => r == Next(pos + used) && Texts(buf, args) == texts
  }

  lemma SliceOfSlice(buf: seq<Byte>, pos: nat, a: nat, b: nat)
    requires pos + a <= pos + b <= |buf|
    ensures buf[pos..][a..b] == buf[pos + a..pos + b] && buf[pos..][a..] == buf[pos + a..]
  {
  }

  method FindCrlfFrom(buf: seq<Byte>, pos: nat) returns (at: Option<nat>)
    requires pos <= |buf|
    ensures at == Ahead(FindCrlf(buf[pos..]), pos)
    ensures at.Some? ==> pos <= at.value && at.value + 2 <= |buf|
  {
    var i := pos;
    while i + 1 < |buf|
      invariant pos <= i <= |buf|
      invariant FindCrlf(buf[pos..]) == Ahead(FindCrlf(buf[i..]), i - pos)
    {
      if buf[i] == CR && buf[i + 1] == LF {
        return Some(i);
      }
      assert buf[i..][1..] == buf[i + 1..];
      i := i + 1;
    }
    return None;
  }

  /** A number that has overflowed stays too large, or is no number. */
  lemma {:induction false} ValueGrows(digits: seq<Byte>, k: nat)
    requires k <= |digits| && (ValueOf(digits[..k]).Some? ==> I64_MAX < ValueOf(digits[..k]).value)
    ensures ValueOf(digits).Some? ==> I64_MAX < ValueOf(digits).value
  {
    var n := |digits| - 1;
    if k == |digits| {
      assert digits[..k] == digits;
    } else {
      assert digits[..n][..k] == digits[..k];
      ValueGrows(digits[..n], k);
    }
  }

  /** `parse_int` multiplies and adds with overflow checks, digit by digit. */
  method ParseIntChecked(s: seq<Byte>) returns (v: Option<int>)
    ensures v == ParseInt(s)
  {
    if s == [] {
      return None;
    }
    var digits := if s[0] == MINUS then s[1..] else s;
    if digits == [] {
      return None;
    }
    var n := 0;
    var k := 0;
    while k < |digits|
      invariant k <= |digits| && 0 <= n <= I64_MAX && ValueOf(digits[..k]) == Some(n)
    {
      assert digits[..k + 1][..k] == digits[..k];
      if !IsDigit(digits[k]) || I64_MAX < 10 * n || I64_MAX < 10 * n + (digits[k] - ZERO) {
        ValueGrows(digits, k + 1);
        return None;
      }
      n := 10 * n + (digits[k] - ZERO);
      k := k + 1;
    }
    assert digits[..k] == digits;
    return Some(if s[0] == MINUS then -n else n);
  }

  /** A marker's line at the cursor: its length, and the cursor after it. */
  method ParseLineAt(buf: seq<Byte>, cur: nat) returns (line: Line)
    requires cur < |buf|
    ensures line == ParseLine(buf[cur..])
  {
    SliceOfSlice(buf, cur, 1, 1);
    var cr := FindCrlfFrom(buf, cur + 1);
    if cr.None? {
      return NoLine;
    }
    SliceOfSlice(buf, cur, 1, cr.value - cur);
    var v := ParseIntChecked(buf[cur + 1..cr.value]);
    if v.None? || v.value < 0 {
      return BadLine;
    }
    return Line(v.value, cr.value + 2 - cur);
  }

  /** One bulk string at the cursor; `Next` carries the cursor after it. */
  method ParseBulkAt(buf: seq<Byte>, cur: nat) returns (r: Outcome, arg: ArgSlice)
    requires cur <= |buf|
    ensures match ParseBulk(buf[cur..])
            case More => r.NeedMore?
            case Bad => r.ProtocolError?
            case Item(value, used) => r == Next(cur + used) && TextOf(buf, arg) == value
  {
    arg := ArgSlice(0, 0);
    if |buf| <= cur {
      return NeedMore, arg;
    }
    if buf[cur] != DOLLAR {
      return ProtocolError, arg;
    }
    var line := ParseLineAt(buf, cur);
    if !line.Line? {
      return if line.NoLine? then NeedMore else ProtocolError, arg;
    }
    var start := cur + line.used;
    var end := start + line.length;
    if |buf| < end + 2 {
      return NeedMore, arg;
    }
    if buf[end] != CR || buf[end + 1] != LF {
      return ProtocolError, arg;
    }
    SliceOfSlice(buf, cur, line.used, end - cur);
    return Next(end + 2), ArgSlice(start, end);
  }

  /** Arguments already read before the rest. */
  function Joined(texts: seq<seq<Byte>>, n: nat, rest: Parsed): Parsed {
    if rest.Complete? then Complete(texts + rest.args, n + rest.used) else rest
  }

  /** What the loop over the arguments has read, and what it has left to do. */
  ghost predicate BulksLeft(whole: Parsed, buf: seq<Byte>, head: nat, args: seq<ArgSlice>, cur: nat, left: nat)
    requires head <= cur <= |buf|
  {
    whole == Joined(Texts(buf, args), cur - head, ParseBulks(buf[cur..], left))
  }

  lemma TextsExtend(buf: seq<Byte>, args: seq<ArgSlice>, arg: ArgSlice)
    ensures Texts(buf, args + [arg]) == Texts(buf, args) + [TextOf(buf, arg)]
  {
  }

  lemma JoinPrepend(texts: seq<seq<Byte>>, n: nat, value: seq<Byte>, used: nat, rest: Parsed)
    ensures Joined(texts, n, Prepend(value, used, rest)) == Joined(texts + [value], n + used, rest)
  {
    if rest.Complete? {
      assert texts + ([value] + rest.args) == (texts + [value]) + rest.args;
    }
  }

  lemma SliceTail(buf: seq<Byte>, cur: nat, next: nat)
    requires cur <= next <= |buf|
    ensures buf[cur..][next - cur..] == buf[next..]
  {
  }

  lemma BulksUnfold(buf: seq<Byte>, cur: nat, next: nat, left: nat, value: seq<Byte>)
    requires cur <= next && cur <= |buf| && 0 < left && ParseBulk(buf[cur..]) == Item(value, next - cur)
    ensures next <= |buf|
    ensures ParseBulks(buf[cur..], left) == Prepend(value, next - cur, ParseBulks(buf[next..], left - 1))
  {
    SliceTail(buf, cur, next);
  }

  lemma BulkDone(whole: Parsed, buf: seq<Byte>, head: nat, args: seq<ArgSlice>, cur: nat, left: nat,
                 arg: ArgSlice, next: nat)
    requires head <= cur <= next && cur <= |buf| && 0 < left && BulksLeft(whole, buf, head, args, cur, left)
    requires ParseBulk(buf[cur..]) == Item(TextOf(buf, arg), next - cur)
    ensures next <= |buf| && BulksLeft(whole, buf, head, args + [arg], next, left - 1)
  {
    BulksUnfold(buf, cur, next, left, TextOf(buf, arg));
    TextsExtend(buf, args, arg);
    JoinPrepend(Texts(buf, args), cur - head, TextOf(buf, arg), next - cur, ParseBulks(buf[next..], left - 1));
  }

  lemma BulksBegin(whole: Parsed, buf: seq<Byte>, head: nat, count: nat)
    requires head <= |buf| && whole == ParseBulks(buf[head..], count)
    ensures BulksLeft(whole, buf, head, [], head, count)
  {
    assert Texts(buf, []) == [];
    if whole.Complete? {
      assert [] + whole.args == whole.args;
    }
  }

  lemma BulksStop(whole: Parsed, buf: seq<Byte>, head: nat, args: seq<ArgSlice>, cur: nat, left: nat, r: Outcome)
    requires head <= cur <= |buf| && BulksLeft(whole, buf, head, args, cur, left)
    requires if left == 0 then r == Next(cur)
             else || (ParseBulk(buf[cur..]).More? && r.NeedMore?)
                  || (ParseBulk(buf[cur..]).Bad? && r.ProtocolError?)
    ensures Reports(buf, head, whole, r, args)
  {
    if left == 0 {
      assert Texts(buf, args) + [] == Texts(buf, args);
    }
  }

  /** The argument loop of `parse_array`. */
  method ParseBulksAt(buf: seq<Byte>, head: nat, count: nat) returns (r: Outcome, args: seq<ArgSlice>)
    requires head <= |buf|
    ensures Reports(buf, head, ParseBulks(buf[head..], count), r, args)
  {
    args := [];
    var cur, left := head, count;
    ghost var whole := ParseBulks(buf[head..], count);
    BulksBegin(whole, buf, head, count);
    while 0 < left
      invariant head <= cur <= |buf| && BulksLeft(whole, buf, head, args, cur, left)
    {
      var arg;
      r, arg := ParseBulkAt(buf, cur);
      if !r.Next? {
        BulksStop(whole, buf, head, args, cur, left, r);
        return;
      }
      BulkDone(whole, buf, head, args, cur, left, arg, r.next);
      args := args + [arg];
      cur, left := r.next, left - 1;
    }
    r := Next(cur);
    BulksStop(whole, buf, head, args, cur, left, r);
  }

  lemma ReportShifted(buf: seq<Byte>, pos: nat, n: nat, expected: Parsed, r: Outcome, args: seq<ArgSlice>)
    requires Reports(buf, pos + n, expected, r, args)
    ensures Reports(buf, pos, Shifted(n, expected), r, args)
  {
  }

  method ParseArrayAt(buf: seq<Byte>, pos: nat) returns (r: Outcome, args: seq<ArgSlice>)
    requires pos < |buf|
    ensures Reports(buf, pos, ParseArray(buf[pos..]), r, args)
  {
    var line := ParseLineAt(buf, pos);
    if line.NoLine? {
      return NeedMore, [];
    }
    if line.BadLine? || MAX_ARGS < line.length {
      return ProtocolError, [];
    }
    SliceOfSlice(buf, pos, line.used, line.used);
    r, args := ParseBulksAt(buf, pos + line.used, line.length);
    ReportShifted(buf, pos, line.used, ParseBulks(buf[pos + line.used..], line.length), r, args);
  }

  lemma BlankSkipped(line: seq<Byte>)
    requires line != [] && line[0] == SPACE
    ensures Words(line[1..]) == Words(line)
  {
  }

  /** The inner loop that finds the end of a word. */
  method WordEnd(buf: seq<Byte>, start: nat, cr: nat) returns (i: nat)
    requires start <= cr <= |buf|
    ensures i == start + WordLength(buf[start..cr])
  {
    i := start;
    while i < cr && buf[i] != SPACE
      invariant start <= i <= cr && WordLength(buf[start..cr]) == (i - start) + WordLength(buf[i..cr])
    {
      assert buf[i..cr][1..] == buf[i + 1..cr];
      i := i + 1;
    }
  }

  lemma WordTaken(buf: seq<Byte>, start: nat, i: nat, cr: nat)
    requires start < cr <= |buf| && buf[start] != SPACE && i == start + WordLength(buf[start..cr])
    ensures start < i <= cr && Words(buf[start..cr]) == [buf[start..i]] + Words(buf[i..cr])
  {
    var line := buf[start..cr];
    assert SkipBlanks(line) == line;
    assert line[..i - start] == buf[start..i] && line[i - start..] == buf[i..cr];
  }

  /** The inner loop that skips blanks. */
  method BlanksEnd(buf: seq<Byte>, from: nat, cr: nat) returns (i: nat)
    requires from <= cr <= |buf|
    ensures from <= i <= cr && Words(buf[i..cr]) == Words(buf[from..cr])
    ensures i < cr ==> buf[i] != SPACE
  {
    i := from;
    while i < cr && buf[i] == SPACE
      invariant from <= i <= cr && Words(buf[i..cr]) == Words(buf[from..cr])
    {
      BlankSkipped(buf[i..cr]);
      assert buf[i..cr][1..] == buf[i + 1..cr];
      i := i + 1;
    }
  }

  ghost predicate WordsLeft(buf: seq<Byte>, pos: nat, args: seq<ArgSlice>, i: nat, cr: nat)
    requires pos <= i <= cr <= |buf|
  {
    Words(buf[pos..cr]) == Texts(buf, args) + Words(buf[i..cr])
  }

  lemma WordDone(buf: seq<Byte>, pos: nat, args: seq<ArgSlice>, i: nat, end: nat, cr: nat)
    requires pos <= i < cr <= |buf| && WordsLeft(buf, pos, args, i, cr)
    requires buf[i] != SPACE && end == i + WordLength(buf[i..cr])
    ensures i < end <= cr && WordsLeft(buf, pos, args + [ArgSlice(i, end)], end, cr)
  {
    WordTaken(buf, i, end, cr);
    TextsExtend(buf, args, ArgSlice(i, end));
    assert Texts(buf, args) + ([buf[i..end]] + Words(buf[end..cr]))
        == (Texts(buf, args) + [buf[i..end]]) + Words(buf[end..cr]);
  }

  method ParseInlineAt(buf: seq<Byte>, pos: nat) returns (r: Outcome, args: seq<ArgSlice>)
    requires pos < |buf|
    ensures Reports(buf, pos, ParseInline(buf[pos..]), r, args)
  {
    args := [];
    var cr := FindCrlfFrom(buf, pos);
    if cr.None? {
      return NeedMore, args;
    }
    SliceOfSlice(buf, pos, 0, cr.value - pos);
    var i := pos;
    while i < cr.value
      invariant pos <= i <= cr.value && WordsLeft(buf, pos, args, i, cr.value)
    {
      i := BlanksEnd(buf, i, cr.value);
      if cr.value <= i {
        break;
      }
      var end := WordEnd(buf, i, cr.value);
      WordDone(buf, pos, args, i, end, cr.value);
      args := args + [ArgSlice(i, end)];
      i := end;
    }
    return Next(cr.value + 2), args;
  }

  method ParseCommand(buf: seq<Byte>, pos: nat) returns (r: Outcome, args: seq<ArgSlice>)
    requires pos <= |buf|
    ensures Reports(buf, pos, Parse(buf[pos..]), r, args)
  {
    if |buf| <= pos {
      return NeedMore, [];
    }
    if buf[pos] == ASTERISK {
      r, args := ParseArrayAt(buf, pos);
    } else {
      r, args := ParseInlineAt(buf, pos);
    }
  }
}
