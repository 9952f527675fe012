/**
  The incremental command parser (crates/garnet/src/resp.rs:47-186), for the
  Redis serialization protocol (RESP2): arrays of bulk strings as its sections
  "Arrays" and "Bulk strings" frame them, and inline commands. The functions say what the bytes
  from a position on mean; the methods are the cursor loops of the code.
 */
module Resp {
  import opened Bytes
  import opened Numbers

  const CR: Byte := 13
  const LF: Byte := 10
  const ASTERISK: Byte := 42
  const DOLLAR: Byte := 36
  const SPACE: Byte := 32
  const CRLF: seq<Byte> := [CR, LF]
  const MAX_ARGS: int := 1024 * 1024

  datatype Parsed =
    | Complete(args: seq<seq<Byte>>, used: nat)
    | Incomplete
    | Malformed

  datatype Item =
    | Item(value: seq<Byte>, used: nat)
    | More
    | Bad

  /** Where the first CRLF starts. */
  function FindCrlf(s: seq<Byte>): (at: Option<nat>)
    ensures at.Some? ==> at.value + 2 <= |s|
  {
    if |s| < 2 then None
    else if s[0] == CR && s[1] == LF then Some(0)
    else
      var rest := FindCrlf(s[1..]);
      if rest.Some? then Some(rest.value + 1) else None
  }

  /** `parse_int`: a number of the framing, with no blanks and no plus sign. */
  function ParseInt(s: seq<Byte>): (v: Option<int>)
    ensures v.Some? ==> v.value <= I64_MAX
  {
    if s == [] then None
    else
      var digits := if s[0] == MINUS then s[1..] else s;
      var magnitude := ValueOf(digits);
      if digits == [] || magnitude.None? || I64_MAX < magnitude.value then None
      else if s[0] == MINUS then Some(0 - magnitude.value)
      else Some(magnitude.value)
  }

  /** A length between its marker and its CRLF; negative ones are errors. */
  datatype Line = Line(length: nat, used: nat) | NoLine | BadLine

  function ParseLine(s: seq<Byte>): (line: Line)
    requires s != []
    ensures line.Line? ==> 0 < line.used <= |s|
  {
    var cr := FindCrlf(s[1..]);
    if cr.None? then NoLine
    else
      var v := ParseInt(s[1..1 + cr.value]);
      if v.None? || v.value < 0 then BadLine else Line(v.value, cr.value + 3)
  }

  function ParseBulk(s: seq<Byte>): (item: Item)
    ensures item.Item? ==> 0 < item.used <= |s|
  {
    if s == [] then More
    else if s[0] != DOLLAR then Bad
    else match ParseLine(s)
      case NoLine => More
      case BadLine => Bad
      case Line(length, start) =>
        var end := start + length;
        if |s| < end + 2 then More
        else if s[end] != CR || s[end + 1] != LF then Bad
        else Item(s[start..end], end + 2)
  }

  function ParseBulks(s: seq<Byte>, count: nat): (r: Parsed)
    ensures r.Complete? ==> r.used <= |s|
    decreases count
  {
    if count == 0 then Complete([], 0)
    else match ParseBulk(s)
      case More => Incomplete
      case Bad => Malformed
      case Item(value, used) => Prepend(value, used, ParseBulks(s[used..], count - 1))
  }

  function Prepend(value: seq<Byte>, used: nat, rest: Parsed): Parsed {
    if rest.Complete? then Complete([value] + rest.args, used + rest.used) else rest
  }

  /** A header of `n` bytes before whatever follows it. */
  function Shifted(n: nat, rest: Parsed): Parsed {
    if rest.Complete? then Complete(rest.args, n + rest.used) else rest
  }

  function ParseArray(s: seq<Byte>): (r: Parsed)
    requires s != []
    ensures r.Complete? ==> 0 < r.used <= |s|
  {
    match ParseLine(s)
    case NoLine => Incomplete
    case BadLine => Malformed
    case Line(count, head) =>
      if MAX_ARGS < count then Malformed else Shifted(head, ParseBulks(s[head..], count))
  }

  function SkipBlanks(line: seq<Byte>): seq<Byte> {
    if line != [] && line[0] == SPACE then SkipBlanks(line[1..]) else line
  }

  function WordLength(line: seq<Byte>): (n: nat)
    ensures n <= |line|
  {
    if line == [] || line[0] == SPACE then 0 else 1 + WordLength(line[1..])
  }

  lemma {:induction false} SkipShrinks(line: seq<Byte>)
    ensures |SkipBlanks(line)| <= |line|
    ensures SkipBlanks(line) != [] ==> 0 < WordLength(SkipBlanks(line))
  {
    if line != [] && line[0] == SPACE {
      SkipShrinks(line[1..]);
    }
  }

  /** The words of an inline command. */
  function Words(line: seq<Byte>): seq<seq<Byte>>
    decreases |line|
  {
    SkipShrinks(line);
    var rest := SkipBlanks(line);
    if rest == [] then []
    else [rest[..WordLength(rest)]] + Words(rest[WordLength(rest)..])
  }

  function ParseInline(s: seq<Byte>): (r: Parsed)
    ensures r.Complete? ==> 0 < r.used <= |s|
  {
    var cr := FindCrlf(s);
    if cr.None? then Incomplete else Complete(Words(s[..cr.value]), cr.value + 2)
  }

  /** What one command at the start of `s` is. */
  function Parse(s: seq<Byte>): (r: Parsed)
    ensures r.Complete? ==> 0 < r.used <= |s|
  {
    if s == [] then Incomplete
    else if s[0] == ASTERISK then ParseArray(s)
    else ParseInline(s)
  }

  // ---------------------------------------------------------------------
  // More bytes change nothing that was decided
  // ---------------------------------------------------------------------

  lemma {:induction false} CrlfStable(s: seq<Byte>, more: seq<Byte>)
    requires FindCrlf(s).Some?
    ensures FindCrlf(s + more) == FindCrlf(s)
  {
    if !(s[0] == CR && s[1] == LF) {
      CrlfStable(s[1..], more);
      assert (s + more)[1..] == s[1..] + more;
    }
  }

  lemma LineStable(s: seq<Byte>, more: seq<Byte>)
    requires s != [] && !ParseLine(s).NoLine?
    ensures ParseLine(s + more) == ParseLine(s)
  {
    CrlfStable(s[1..], more);
    assert (s + more)[1..] == s[1..] + more;
    var cr := FindCrlf(s[1..]).value;
    assert (s + more)[1..1 + cr] == s[1..1 + cr];
  }

  lemma BulkStable(s: seq<Byte>, more: seq<Byte>)
    requires !ParseBulk(s).More?
    ensures ParseBulk(s + more) == ParseBulk(s)
  {
    if s[0] == DOLLAR {
      LineStable(s, more);
      if ParseBulk(s).Item? {
        var start, end := ParseLine(s).used, ParseBulk(s).used - 2;
        assert (s + more)[start..end] == s[start..end];
      }
    }
  }

  lemma {:induction false} BulksStable(s: seq<Byte>, more: seq<Byte>, count: nat)
    requires !ParseBulks(s, count).Incomplete?
    ensures ParseBulks(s + more, count) == ParseBulks(s, count)
    decreases count
  {
    if 0 < count {
      BulkStable(s, more);
      if ParseBulk(s).Item? {
        var used := ParseBulk(s).used;
        assert (s + more)[used..] == s[used..] + more;
        BulksStable(s[used..], more, count - 1);
      }
    }
  }

  /** A command that is complete stays as it is, and an error stays an error, whatever follows. */
  lemma ParseStable(s: seq<Byte>, more: seq<Byte>)
    requires !Parse(s).Incomplete?
    ensures Parse(s + more) == Parse(s)
  {
    if s[0] == ASTERISK {
      LineStable(s, more);
      var line := ParseLine(s);
      if line.Line? && line.length <= MAX_ARGS {
        assert (s + more)[line.used..] == s[line.used..] + more;
        BulksStable(s[line.used..], more, line.length);
      }
    } else {
      CrlfStable(s, more);
      assert (s + more)[..FindCrlf(s).value] == s[..FindCrlf(s).value];
    }
  }

  // ---------------------------------------------------------------------
  // Encoded commands
  // ---------------------------------------------------------------------

  function EncodeBulk(arg: seq<Byte>): seq<Byte> {
    [DOLLAR] + Decimal(|arg|) + CRLF + arg + CRLF
  }

  function EncodeBulks(args: seq<seq<Byte>>): seq<Byte> {
    if args == [] then [] else EncodeBulk(args[0]) + EncodeBulks(args[1..])
  }

  /** A command as an array of bulk strings. */
  function Encode(args: seq<seq<Byte>>): seq<Byte> {
    [ASTERISK] + Decimal(|args|) + CRLF + EncodeBulks(args)
  }

  lemma {:induction false} CrlfAfter(line: seq<Byte>, rest: seq<Byte>)
    requires forall k :: 0 <= k < |line| ==> line[k] != CR
    ensures FindCrlf(line + CRLF + rest) == Some(|line|)
  {
    var s := line + CRLF + rest;
    if line == [] {
      assert s[0] == CR && s[1] == LF;
    } else {
      assert s[0] == line[0];
      CrlfAfter(line[1..], rest);
      assert (line + CRLF + rest)[1..] == line[1..] + CRLF + rest;
    }
  }

  /** A length as the encoder writes it is found and read back. */
  lemma LengthRead(n: nat, rest: seq<Byte>)
    requires n <= I64_MAX
    ensures FindCrlf(Decimal(n) + CRLF + rest) == Some(|Decimal(n)|)
    ensures ParseInt(Decimal(n)) == Some(n)
  {
    DigitsAreDigits(n);
    ValueOfDigits(n);
    forall k | 0 <= k < |Decimal(n)|
      ensures Decimal(n)[k] != CR
    {
      assert n != 0 ==> Decimal(n)[k] in Digits(n);
    }
    CrlfAfter(Decimal(n), rest);
    if n == 0 {
      assert Decimal(n)[..0] == [];
      assert ValueOf(Decimal(n)[..0]) == Some(0);
    } else {
      assert Decimal(n) == Digits(n) && IsDigit(Decimal(n)[0]);
    }
  }

  /** A length line is read back, whatever its marker and whatever follows. */
  lemma LineRead(marker: Byte, n: nat, rest: seq<Byte>)
    requires n <= I64_MAX
    ensures ParseLine([marker] + Decimal(n) + CRLF + rest) == Line(n, |Decimal(n)| + 3)
  {
    var s := [marker] + Decimal(n) + CRLF + rest;
    LengthRead(n, rest);
    assert s[1..] == Decimal(n) + CRLF + rest;
    assert s[1..1 + |Decimal(n)|] == Decimal(n);
  }

  lemma Reassociate(head: seq<Byte>, digits: seq<Byte>, body: seq<Byte>, rest: seq<Byte>)
    ensures (head + digits + CRLF + body) + rest == head + digits + CRLF + (body + rest)
  {
  }

  /** After a line of `n` bytes, the payload and its CRLF are found where they are. */
  lemma BulkBody(s: seq<Byte>, line: seq<Byte>, arg: seq<Byte>, rest: seq<Byte>)
    requires s == line + (arg + CRLF + rest) && s != [] && s[0] == DOLLAR && ParseLine(s) == Line(|arg|, |line|)
    ensures ParseBulk(s) == Item(arg, |line| + |arg| + 2)
  {
    assert s[|line|..|line| + |arg|] == arg;
  }

  lemma BulkRead(arg: seq<Byte>, rest: seq<Byte>)
    requires |arg| <= I64_MAX
    ensures ParseBulk(EncodeBulk(arg) + rest) == Item(arg, |EncodeBulk(arg)|)
  {
    var line := [DOLLAR] + Decimal(|arg|) + CRLF;
    LineRead(DOLLAR, |arg|, arg + CRLF + rest);
    assert EncodeBulk(arg) + rest == line + (arg + CRLF + rest);
    BulkBody(EncodeBulk(arg) + rest, line, arg, rest);
  }

  lemma {:induction false} BulksRead(args: seq<seq<Byte>>, rest: seq<Byte>)
    requires forall k :: 0 <= k < |args| ==> |args[k]| <= I64_MAX
    ensures ParseBulks(EncodeBulks(args) + rest, |args|) == Complete(args, |EncodeBulks(args)|)
  {
    if args != [] {
      var first := EncodeBulk(args[0]);
      var tail := EncodeBulks(args[1..]);
      BulkRead(args[0], tail + rest);
      BulksRead(args[1..], rest);
      assert EncodeBulks(args) + rest == first + (tail + rest);
      assert (first + (tail + rest))[|first|..] == tail + rest;
    }
  }

  predicate Encodable(args: seq<seq<Byte>>) {
    |args| <= MAX_ARGS && forall k :: 0 <= k < |args| ==> |args[k]| <= I64_MAX
  }

  /** The header of an array is read, and the rest decides. */
  lemma HeaderRead(n: nat, body: seq<Byte>)
    requires n <= MAX_ARGS
    ensures Parse([ASTERISK] + Decimal(n) + CRLF + body) == Shifted(|Decimal(n)| + 3, ParseBulks(body, n))
  {
    var line := [ASTERISK] + Decimal(n) + CRLF;
    LineRead(ASTERISK, n, body);
    assert (line + body)[|line|..] == body;
  }

  /** Whatever follows it, an encoded command parses to the arguments it was made of. */
  lemma EncodedParses(args: seq<seq<Byte>>, rest: seq<Byte>)
    requires Encodable(args)
    ensures Parse(Encode(args) + rest) == Complete(args, |Encode(args)|)
  {
    var body := EncodeBulks(args);
    BulksRead(args, rest);
    HeaderRead(|args|, body + rest);
    Reassociate([ASTERISK], Decimal(|args|), body, rest);
  }

  /** A command cut short anywhere is incomplete, and never an error. */
  lemma CutShort(s: seq<Byte>, n: nat)
    requires Parse(s).Complete? && n < Parse(s).used
    ensures Parse(s[..n]).Incomplete?
  {
    assert s[..n] + s[n..] == s;
    if !Parse(s[..n]).Incomplete? {
      ParseStable(s[..n], s[n..]);
    }
  }

  /** So is every strict prefix of an encoded command. */
  lemma PrefixIncomplete(args: seq<seq<Byte>>, n: nat)
    requires Encodable(args) && n < |Encode(args)|
    ensures Parse(Encode(args)[..n]).Incomplete?
  {
    var whole := Encode(args);
    EncodedParses(args, []);
    assert whole + [] == whole;
    CutShort(whole, n);
  }
}
