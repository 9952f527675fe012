/**
  The string data type over the narrow waist (crates/garnet/src/functions.rs),
  on values: what a record's value, capacity and deadline are before and after a
  callback. Which callback runs depends on the log region the record has drifted
  into, so the in-place and the copy callbacks should come to the same result.
  This module says for every operation and record exactly when they do.
 */
module Strings {
  import opened Bytes
  import opened Numbers
  import opened Callbacks
  import opened Environment
  import opened Stores
  import opened Refinement
  import opened HybridLogs
  import RecordLayout

  /**
    SET NX and SETNX are one operation of the store, but read its status
    differently: `asksCreated` says that only Created counts (commands.rs:354).
   */
  datatype Op =
    | Get | GetRange(start: int, end: int) | Strlen | Ttl(ms: bool) | Exists
    | Set | SetKeepTtl | SetNx(asksCreated: bool) | SetXx | SetGet(keepTtl: bool)
    | IncrBy | Append | SetRange(offset: nat)
    | GetDel | GetEx | Expire | Persist

  datatype Input = Input(op: Op, operand: seq<Byte>, delta: I64, expiration: int, now: int)

  /** What a record holds for a string: `slot` says that it has room for a deadline. */
  datatype Value = Value(bytes: seq<Byte>, cap: nat, slot: bool, expiration: int)

  /** The fields of the reply that a call sets. */
  datatype Output = Output(bulk: Option<seq<Byte>>, number: Option<int>)

  const SILENT: Output := Output(None, None)

  function Bulk(bytes: seq<Byte>): Output {
    Output(Some(bytes), None)
  }

  function Integer(v: int): Output {
    Output(None, Some(v))
  }

  function Deadline(v: Value): int {
    if v.slot then v.expiration else 0
  }

  predicate Expired(v: Value, now: int) {
    Deadline(v) != 0 && Deadline(v) <= now
  }

  // ---------------------------------------------------------------------
  // Read
  // ---------------------------------------------------------------------

  /** `range_bounds`: GETRANGE's inclusive, possibly negative bounds as [start, end). */
  function RangeBounds(start: int, end: int, len: nat): (r: (nat, nat))
    ensures r.0 <= r.1 <= len
  {
    var s := if start < 0 then Max(len + start, 0) else Min(start, len);
    var e := if end < 0 then len + end else Min(end, len - 1);
    if len == 0 || e < s || len <= s then (0, 0) else (s, Min(e + 1, len))
  }

  /** Position `k` is in the range exactly if it lies between the two bounds, counted from the end if negative. */
  lemma RangeExact(start: int, end: int, len: nat, k: nat)
    requires k < len
    ensures RangeBounds(start, end, len).0 <= k < RangeBounds(start, end, len).1
            <==> (if start < 0 then len + start else start) <= k <= (if end < 0 then len + end else end)
  {
  }

  function TtlOf(v: Value, now: int, ms: bool): int {
    if Deadline(v) == 0 then -1
    else
      var left := Max(Deadline(v) - now, 0);
      if ms then left else (left + 999) / 1000
  }

  function ReadOutput(i: Input, v: Value): Output {
    match i.op
    case GetRange(start, end) =>
      var r := RangeBounds(start, end, |v.bytes|);
      Bulk(v.bytes[r.0..r.1])
    case Exists => SILENT
    case Strlen => Integer(|v.bytes|)
    case Ttl(ms) => Integer(TtlOf(v, i.now, ms))
    case _ => Bulk(v.bytes)
  }

  function Reader(i: Input, v: Value): Option<Output> {
    if Expired(v, i.now) then None else Some(ReadOutput(i, v))
  }

  // ---------------------------------------------------------------------
  // Upsert
  // ---------------------------------------------------------------------

  function UpsertWrite(i: Input): Value {
    Value(i.operand, |i.operand|, i.expiration != 0, i.expiration)
  }

  function InPlaceWrite(i: Input, v: Value): Option<Value> {
    if v.cap < |i.operand| then None
    else if v.slot then Some(v.(bytes := i.operand, expiration := i.expiration))
    else if i.expiration != 0 then None
    else Some(v.(bytes := i.operand))
  }

  // ---------------------------------------------------------------------
  // RMW
  // ---------------------------------------------------------------------

  /** The bytes of a string after SETRANGE: padded with zeros if the offset is past its end. */
  function Overlay(was: seq<Byte>, offset: nat, v: seq<Byte>): (bytes: seq<Byte>)
    ensures |bytes| == Max(offset + |v|, |was|)
  {
    var padded := if |was| < offset then was + Zeros(offset - |was|) else was;
    padded[..offset] + v + (if offset + |v| < |was| then was[offset + |v|..] else [])
  }

  predicate NeedInitial(i: Input) {
    !i.op.SetXx? && !i.op.GetDel? && !i.op.GetEx? && !i.op.Expire? && !i.op.Persist?
  }

  function InitialBytes(i: Input): seq<Byte> {
    match i.op
    case IncrBy => Decimal(i.delta)
    case SetRange(offset) => Overlay([], offset, i.operand)
    case _ => i.operand
  }

  function InitialOutput(i: Input): Output {
    match i.op
    case IncrBy => Integer(i.delta)
    case SetRange(offset) => Integer(offset + |i.operand|)
    case Append => Integer(|i.operand|)
    case _ => SILENT
  }

  function Initial(i: Input): (Value, Output) {
    (Value(InitialBytes(i), |InitialBytes(i)|, i.expiration != 0, i.expiration), InitialOutput(i))
  }

  /** `apply_ttl_in_place`: the record with its deadline set, or None if it has no room for one. */
  function ApplyTtl(i: Input, v: Value): Option<Value> {
    match i.op
    case SetKeepTtl => Some(v)
    case SetGet(true) => Some(v)
    case Set | SetXx | SetGet(false) | GetEx =>
      if i.expiration != 0 then if v.slot then Some(v.(expiration := i.expiration)) else None
      else if v.slot then Some(v.(expiration := 0))
      else Some(v)
    case _ =>
      if i.expiration != 0 then if v.slot then Some(v.(expiration := i.expiration)) else None
      else Some(v)
  }

  /** The number after INCRBY, if the value is one and the sum does not overflow. */
  function Sum(i: Input, v: Value): Option<int> {
    var cur := ParseI64(v.bytes);
    if cur.Some? && IsI64(cur.value + i.delta) then Some(cur.value + i.delta) else None
  }

  function OverwriteInPlace(i: Input, v: Value): InPlaceResult<Value, Output> {
    if v.cap < |i.operand| || ApplyTtl(i, v).None? then NeedCopy
    else Updated(ApplyTtl(i, v).value.(bytes := i.operand), if i.op.SetGet? then Bulk(v.bytes) else SILENT)
  }

  function ResizeInPlace(v: Value, bytes: seq<Byte>, out: Output): InPlaceResult<Value, Output> {
    if v.cap < |bytes| then NeedCopy else Updated(v.(bytes := bytes), out)
  }

  function InPlace(i: Input, v: Value): InPlaceResult<Value, Output> {
    if Expired(v, i.now) then InPlaceResult.Expired
    else match i.op
      case SetNx(_) => Cancel(SILENT)
      case SetXx | Set | SetKeepTtl | SetGet(_) => OverwriteInPlace(i, v)
      case IncrBy =>
        if Sum(i, v).None? then Cancel(Integer(I64_MIN))
        else ResizeInPlace(v, Decimal(Sum(i, v).value), Integer(Sum(i, v).value))
      case Append => ResizeInPlace(v, v.bytes + i.operand, Integer(|v.bytes| + |i.operand|))
      case SetRange(offset) =>
        ResizeInPlace(v, Overlay(v.bytes, offset, i.operand), Integer(Max(offset + |i.operand|, |v.bytes|)))
      case GetDel => Delete(Bulk(v.bytes))
      case GetEx =>
        if ApplyTtl(i, v).None? then NeedCopy else Updated(ApplyTtl(i, v).value, Bulk(v.bytes))
      case Expire => if v.slot then Updated(v.(expiration := i.expiration), Integer(1)) else NeedCopy
      case Persist =>
        if Deadline(v) != 0 then Updated(v.(expiration := 0), Integer(1)) else Cancel(Integer(0))
      case _ => NeedCopy
  }

  /** The old value as the copy callbacks see it: an expired one counts as empty. */
  function OldBytes(i: Input, v: Value): seq<Byte> {
    if Expired(v, i.now) then [] else v.bytes
  }

  function OldNumber(i: Input, v: Value): I64 {
    if Expired(v, i.now) then 0
    else if ParseI64(v.bytes).Some? then ParseI64(v.bytes).value
    else 0
  }

  function CopiedBytes(i: Input, v: Value): seq<Byte> {
    match i.op
    case IncrBy => Decimal(WrappingAdd(OldNumber(i, v), i.delta))
    case Append => OldBytes(i, v) + i.operand
    case SetRange(offset) => Overlay(OldBytes(i, v), offset, i.operand)
    case GetEx | Expire | Persist => OldBytes(i, v)
    case _ => i.operand
  }

  function CopiedSlot(i: Input, v: Value): bool {
    match i.op
    case Persist => false
    case Set => i.expiration != 0
    case _ => i.expiration != 0 || Deadline(v) != 0
  }

  function CopiedExpiration(i: Input, v: Value): int {
    match i.op
    case Set | Expire | GetEx => i.expiration
    case Persist => 0
    case _ =>
      if i.expiration != 0 then i.expiration
      else if Deadline(v) != 0 && !Expired(v, i.now) then Deadline(v)
      else 0
  }

  function CopiedOutput(i: Input, v: Value): Output {
    match i.op
    case IncrBy => Integer(WrappingAdd(OldNumber(i, v), i.delta))
    case Append => Integer(|OldBytes(i, v)| + |i.operand|)
    case SetRange(offset) => Integer(Max(offset + |i.operand|, |OldBytes(i, v)|))
    case SetGet(_) | GetEx => Bulk(OldBytes(i, v))
    case Expire | Persist => Integer(1)
    case _ => SILENT
  }

  function Copied(i: Input, v: Value): Value {
    var bytes := CopiedBytes(i, v);
    Value(bytes, |bytes|, CopiedSlot(i, v), if CopiedSlot(i, v) then CopiedExpiration(i, v) else 0)
  }

  /** `need_copy_update` on a record that has expired. */
  predicate CopiesExpired(op: Op) {
    op.Set? || op.SetKeepTtl? || op.SetNx? || op.IncrBy? || op.Append? || op.SetRange? || op.GetEx?
  }

  function CopyUpdate(i: Input, v: Value): CopyResult<Value, Output> {
    if Expired(v, i.now) then
      if CopiesExpired(i.op) then Copy(Copied(i, v), CopiedOutput(i, v)) else CancelCopy
    else match i.op
      case SetNx(_) => CancelCopy
      case IncrBy => if Sum(i, v).Some? then Copy(Copied(i, v), CopiedOutput(i, v)) else CancelCopy
      case GetDel => DeleteCopy(Bulk(v.bytes))
      case _ => Copy(Copied(i, v), CopiedOutput(i, v))
  }

  function StringFunctions(): Functions<Input, Value, Output> {
    Functions(Reader, UpsertWrite, InPlaceWrite, NeedInitial, Initial, InPlace, CopyUpdate,
              Value([], 0, false, 0), (v: Value) => v.cap, (v: Value) => v.slot)
  }

  // ---------------------------------------------------------------------
  // The map of strings
  // ---------------------------------------------------------------------

  /** A string and its deadline, 0 for none: what a client can tell apart. */
  datatype Shown = Shown(bytes: seq<Byte>, deadline: int)

  function Abs(v: Value): Shown {
    Shown(v.bytes, Deadline(v))
  }

  predicate Live(now: int, a: Shown) {
    a.deadline == 0 || now < a.deadline
  }

  /** The reader on what is shown: a record with just enough room. */
  function AsValue(a: Shown): Value {
    Value(a.bytes, |a.bytes|, true, a.deadline)
  }

  function ReadShown(i: Input, a: Shown): Output {
    ReadOutput(i, AsValue(a))
  }

  /** An entry that has expired already is no entry. */
  function Kept(i: Input, a: Shown): Option<Shown> {
    if Live(i.now, a) then Some(a) else None
  }

  function Create(i: Input): (Option<Shown>, Option<Output>) {
    if NeedInitial(i) then (Kept(i, Shown(InitialBytes(i), i.expiration)), Some(InitialOutput(i))) else (None, None)
  }

  /** What each command does to an entry that is there, wherever its record may be. */
  function Change(i: Input, a: Shown): (Option<Shown>, Option<Output>) {
    match i.op
    case SetNx(_) => (Some(a), None)
    case SetKeepTtl => (Kept(i, a.(bytes := i.operand)), Some(SILENT))
    case SetXx | Set => (Kept(i, Shown(i.operand, i.expiration)), Some(SILENT))
    case SetGet(keep) =>
      (Kept(i, Shown(i.operand, if keep then a.deadline else i.expiration)), Some(Bulk(a.bytes)))
    case IncrBy =>
      var sum := Sum(i, AsValue(a));
      if sum.None? then (Some(a), None)
      else (Some(a.(bytes := Decimal(sum.value))), Some(Integer(sum.value)))
    case Append => (Some(a.(bytes := a.bytes + i.operand)), Some(Integer(|a.bytes| + |i.operand|)))
    case SetRange(offset) =>
      (Some(a.(bytes := Overlay(a.bytes, offset, i.operand))),
       Some(Integer(Max(offset + |i.operand|, |a.bytes|))))
    case GetDel => (None, Some(Bulk(a.bytes)))
    case GetEx => (Kept(i, a.(deadline := i.expiration)), Some(Bulk(a.bytes)))
    case Expire => (Kept(i, a.(deadline := i.expiration)), Some(Integer(1)))
    case Persist => if a.deadline != 0 then (Some(a.(deadline := 0)), Some(Integer(1))) else (Some(a), None)
    case _ => (Some(a), None)
  }

  function Update(i: Input, entry: Option<Shown>): (Option<Shown>, Option<Output>) {
    if entry.None? then Create(i) else Change(i, entry.value)
  }

  function StringMeaning(): Meaning<Input, Value, Shown, Output> {
    Meaning(Abs, Live, (i: Input) => i.now, ReadShown,
            (i: Input) => Shown(i.operand, i.expiration), Update)
  }

  /** Operations that the commands send through RMW. */
  predicate ByRmw(op: Op) {
    !op.Get? && !op.GetRange? && !op.Strlen? && !op.Ttl? && !op.Exists? && !op.Set?
  }

  /** INCRBY, APPEND, SETRANGE and GETDEL come without an expiration. */
  predicate AsCommanded(i: Input) {
    ByRmw(i.op) && (i.op.IncrBy? || i.op.Append? || i.op.SetRange? || i.op.GetDel? ==> i.expiration == 0)
  }

  lemma StringsAgreeable()
    ensures Agreeable(StringFunctions(), StringMeaning())
  {
  }

  lemma InitialOk(i: Input)
    ensures InitialAgrees(StringFunctions(), StringMeaning(), i)
  {
  }

  predicate Overwrites(op: Op) {
    op.SetKeepTtl? || op.SetXx? || op.SetGet?
  }

  predicate Resizes(op: Op) {
    op.IncrBy? || op.Append? || op.SetRange?
  }

  lemma OverwriteOk(i: Input, v: Value)
    requires Overwrites(i.op)
    ensures InPlaceAgrees(StringFunctions(), StringMeaning(), i, v)
  {
  }

  lemma ResizeOk(i: Input, v: Value)
    requires Resizes(i.op)
    ensures InPlaceAgrees(StringFunctions(), StringMeaning(), i, v)
  {
    hide Overlay, Decimal, ParseI64;
  }

  lemma DeadlineOk(i: Input, v: Value)
    requires ByRmw(i.op) && !Overwrites(i.op) && !Resizes(i.op)
    ensures InPlaceAgrees(StringFunctions(), StringMeaning(), i, v)
  {
  }

  /** In place, every command has the effect of the map's update. */
  lemma InPlaceOk(i: Input, v: Value)
    requires ByRmw(i.op)
    ensures InPlaceAgrees(StringFunctions(), StringMeaning(), i, v)
  {
    if Overwrites(i.op) {
      OverwriteOk(i, v);
    } else if Resizes(i.op) {
      ResizeOk(i, v);
    } else {
      DeadlineOk(i, v);
    }
  }

  /** When the copy callbacks come to what the in-place callbacks come to. */
  predicate CopySame(i: Input, v: Value) {
    if Expired(v, i.now) then !i.op.GetEx? && !i.op.SetGet?
    else match i.op
      case SetKeepTtl => i.expiration == 0 || i.expiration == Deadline(v)
      case SetGet(true) => i.expiration == 0 || i.expiration == Deadline(v)
      case SetXx | SetGet(false) => i.expiration != 0 || Deadline(v) == 0
      case Persist => Deadline(v) != 0
      case _ => true
  }

  lemma CopyExpiredOk(i: Input, v: Value)
    requires AsCommanded(i) && Expired(v, i.now)
    ensures CopyAgrees(StringFunctions(), StringMeaning(), i, v) <==> CopySame(i, v)
  {
    assert [] + i.operand == i.operand;
  }

  lemma CopyOverwriteOk(i: Input, v: Value)
    requires Overwrites(i.op) && !Expired(v, i.now)
    ensures CopyAgrees(StringFunctions(), StringMeaning(), i, v) <==> CopySame(i, v)
  {
  }

  lemma CopyResizeOk(i: Input, v: Value)
    requires AsCommanded(i) && Resizes(i.op) && !Expired(v, i.now)
    ensures CopyAgrees(StringFunctions(), StringMeaning(), i, v) <==> CopySame(i, v)
  {
    hide Overlay, Decimal, ParseI64;
  }

  lemma CopyDeadlineOk(i: Input, v: Value)
    requires AsCommanded(i) && !Overwrites(i.op) && !Resizes(i.op) && !Expired(v, i.now)
    ensures CopyAgrees(StringFunctions(), StringMeaning(), i, v) <==> CopySame(i, v)
  {
  }

  /** For every operation and record: the copy path agrees if and only if `CopySame` says so. */
  lemma CopyOk(i: Input, v: Value)
    requires AsCommanded(i)
    ensures CopyAgrees(StringFunctions(), StringMeaning(), i, v) <==> CopySame(i, v)
  {
    if Expired(v, i.now) {
      CopyExpiredOk(i, v);
    } else if Overwrites(i.op) {
      CopyOverwriteOk(i, v);
    } else if Resizes(i.op) {
      CopyResizeOk(i, v);
    } else {
      CopyDeadlineOk(i, v);
    }
  }

  /** Both paths may end a call on this record, and then with the same answer to "was it created?". */
  ghost predicate CreatedAgreesAt(i: Input, v: Value) {
    forall a: Option<Value>, s: Status, o: Option<Output>, b: Option<Value>, t: Status, u: Option<Output> ::
      InPlaceStep(StringFunctions(), i, v, a, s, o) && CopyStep(StringFunctions(), i, v, b, t, u)
      ==> (s == Created <==> t == Created)
  }

  /** What SETNX makes its reply from is the same on both paths exactly if the record has not expired. */
  lemma SetNxCreatedIff(i: Input, v: Value)
    requires i.op.SetNx?
    ensures CreatedAgreesAt(i, v) <==> !Expired(v, i.now)
  {
    if Expired(v, i.now) {
      assert InPlaceStep(StringFunctions(), i, v, Some(Initial(i).0), Created, Some(SILENT));
      assert CopyStep(StringFunctions(), i, v, Some(Copied(i, v)), CopyUpdated, Some(SILENT));
    }
  }

  /** The reply is the same on both paths whatever the record: the one that the store gives, and SETNX's. */
  ghost predicate ReplyRegionFree(i: Input) {
    && RegionFree(StringFunctions(), StringMeaning(), i)
    && (i.op.SetNx? && i.op.asksCreated ==> forall v: Value :: CreatedAgreesAt(i, v))
  }

  /** Inputs for which the two paths agree on every record there could be. */
  predicate NeverDiffers(i: Input) {
    match i.op
    case SetNx(asksCreated) => !asksCreated
    case IncrBy | Append | SetRange(_) | GetDel | Expire => true
    case SetKeepTtl => i.expiration == 0
    case SetXx => i.expiration != 0
    case _ => false
  }

  /** A deadline that has passed at `now`. */
  function Past(now: int): (deadline: int)
    ensures deadline != 0 && deadline <= now
  {
    if now == 0 then -1 else if now < 0 then now else 1
  }

  /** A record on which the two paths differ, for each input that is not on the list. */
  function Witness(i: Input): Value {
    match i.op
    case SetGet(_) | GetEx | SetNx(_) => Value([], 0, true, Past(i.now))
    case Persist => Value([], 0, false, 0)
    case SetXx => Value([], 0, true, Max(i.now, 0) + 1)
    case _ => Value([], 0, true, Max(i.now, Max(i.expiration, 0)) + 1)
  }

  lemma ListedRegionFree(i: Input)
    requires AsCommanded(i) && (NeverDiffers(i) || i.op.SetNx?)
    ensures RegionFree(StringFunctions(), StringMeaning(), i)
  {
    InitialOk(i);
    forall v: Value
      ensures InPlaceAgrees(StringFunctions(), StringMeaning(), i, v)
      ensures CopyAgrees(StringFunctions(), StringMeaning(), i, v)
    {
      InPlaceOk(i, v);
      CopyOk(i, v);
    }
  }

  /** A command is free of regions, on all records, exactly if it is on the list. */
  lemma StringsRegionFree(i: Input)
    requires AsCommanded(i)
    ensures ReplyRegionFree(i) <==> NeverDiffers(i)
  {
    if NeverDiffers(i) {
      ListedRegionFree(i);
    } else if i.op.SetNx? {
      SetNxCreatedIff(i, Witness(i));
    } else {
      CopyOk(i, Witness(i));
    }
  }

  /**
    The entries of the map on which the two paths agree, whatever the record that
    shows them. Behind a missing entry there may be a record that has expired.
   */
  predicate Admitted(i: Input, entry: Option<Shown>) {
    if entry.Some? then CopySame(i, AsValue(entry.value))
    else !i.op.GetEx? && !i.op.SetGet? && i.op != SetNx(true)
  }

  /** The reply is the same on both paths for every record that shows this entry. */
  ghost predicate ReplyAgreesSeen(i: Input, entry: Option<Shown>) {
    && AgreesSeen(StringFunctions(), StringMeaning(), i, entry)
    && (i.op == SetNx(true) ==>
          forall v: Value :: Seen(StringMeaning(), i.now, Some(v)) == entry ==> CreatedAgreesAt(i, v))
  }

  /** A command can be told the same by both paths on an entry exactly if it is admitted there. */
  lemma AdmittedIff(i: Input, entry: Option<Shown>)
    requires AsCommanded(i) && (entry.Some? ==> Live(i.now, entry.value))
    ensures ReplyAgreesSeen(i, entry) <==> Admitted(i, entry)
  {
    var seen := (v: Value) => Seen(StringMeaning(), i.now, Some(v));
    InitialOk(i);
    forall v: Value | seen(v) == entry && Admitted(i, entry)
      ensures InPlaceAgrees(StringFunctions(), StringMeaning(), i, v)
      ensures CopyAgrees(StringFunctions(), StringMeaning(), i, v)
      ensures i.op == SetNx(true) ==> CreatedAgreesAt(i, v)
    {
      AdmittedCopies(i, v);
      InPlaceOk(i, v);
      CopyOk(i, v);
      if i.op == SetNx(true) {
        SetNxCreatedIff(i, v);
      }
    }
    var v := if entry.Some? then AsValue(entry.value) else Value([], 0, true, Past(i.now));
    assert seen(v) == entry;
    CopyOk(i, v);
    if i.op == SetNx(true) {
      SetNxCreatedIff(i, v);
    }
  }

  lemma AdmittedCopies(i: Input, v: Value)
    requires Admitted(i, Seen(StringMeaning(), i.now, Some(v)))
    ensures CopySame(i, v) && (i.op == SetNx(true) ==> !Expired(v, i.now))
  {
  }

  /** A command that is free of regions is admitted everywhere. */
  lemma ListedAdmitted(i: Input, entry: Option<Shown>)
    requires AsCommanded(i) && NeverDiffers(i) && (entry.Some? ==> Live(i.now, entry.value))
    ensures Admitted(i, entry)
  {
  }

  // ---------------------------------------------------------------------
  // Room
  // ---------------------------------------------------------------------

  /** A record with these many bytes of value, and room for a deadline if asked for, is larger than a page. */
  predicate Bursts(pageSize: nat, key: Key, len: nat, deadline: bool) {
    pageSize < FIRST_VALID_ADDRESS + RecordLayout.TotalSize(|key|, len, deadline)
  }

  /** The same of the record that an RMW may have to append, judged by the entry of the map. */
  predicate RmwTooBig(pageSize: nat, key: Key, i: Input, entry: Option<Shown>) {
    if entry.Some? then
      match CopyUpdate(i, AsValue(entry.value))
      case Copy(q, _) => Bursts(pageSize, key, q.cap, q.slot)
      case DeleteCopy(_) => Bursts(pageSize, key, 0, false)
      case CancelCopy => false
    else if CopiesExpired(i.op) then
      // A copy of a record that has expired keeps the room for its deadline.
      Bursts(pageSize, key, if i.op.GetEx? then 0 else |InitialBytes(i)|, true)
    else NewTooBig(pageSize, CallRmw(key, i))
  }

  /** What the call has to append for a key with nothing stored is larger than a page. */
  predicate NewTooBig(pageSize: nat, c: Call<Input>) {
    match c
    case CallUpsert(key, i) => Bursts(pageSize, key, |i.operand|, i.expiration != 0)
    case CallRmw(key, i) => NeedInitial(i) && Bursts(pageSize, key, |InitialBytes(i)|, i.expiration != 0)
    case _ => false
  }

  /** What a call may have to append, judged by the map alone, is larger than a page. */
  predicate TooBig(pageSize: nat, table: Table<Shown>, c: Call<Input>) {
    match c
    case CallRead(_, _) => false
    case CallUpsert(_, _) => NewTooBig(pageSize, c)
    case CallRmw(key, i) => RmwTooBig(pageSize, key, i, Entry(StringMeaning(), table, i.now, key))
    case CallDelete(key, _) => Bursts(pageSize, key, 0, false)
  }

  lemma CopyOfShown(i: Input, v: Value)
    requires ByRmw(i.op) && !Expired(v, i.now)
    ensures CopyUpdate(i, v) == CopyUpdate(i, AsValue(Abs(v)))
  {
    hide Overlay, Decimal, ParseI64;
  }

  lemma CopyOfExpired(i: Input, v: Value)
    requires ByRmw(i.op) && Expired(v, i.now)
    ensures var r := CopyUpdate(i, v);
            if CopiesExpired(i.op) then
              r.Copy? && r.payload.slot && r.payload.cap == if i.op.GetEx? then 0 else |InitialBytes(i)|
            else r.CancelCopy?
  {
    hide Overlay, Decimal, ParseI64;
  }

  lemma {:induction false} RmwOverflowsIff(store: Store<Input, Value, Output>, key: Key, i: Input, entry: Option<Shown>)
    requires store.f == StringFunctions() && ByRmw(i.op) && (entry.Some? ==> Live(i.now, entry.value))
    ensures RmwTooBig(store.log.pageSize, key, i, entry) <==>
            exists cell: Option<Value> ::
              store.RmwOverflows(key, i, cell) && Seen(StringMeaning(), i.now, cell) == entry
  {
    hide Overlay, Decimal, ParseI64, CopyUpdate, InitialBytes;
    forall cell: Option<Value> |
      store.RmwOverflows(key, i, cell) && Seen(StringMeaning(), i.now, cell) == entry
      ensures RmwTooBig(store.log.pageSize, key, i, entry)
    {
      var made: Option<Value> :| RmwMakes(store.f, i, cell, made) && !store.Fits(key, made);
      if cell.Some? {
        if Expired(cell.value, i.now) {
          CopyOfExpired(i, cell.value);
          RecordLayout.TotalSizeGrows(|key|, |InitialBytes(i)|, i.expiration != 0, |InitialBytes(i)|, true);
        } else {
          CopyOfShown(i, cell.value);
        }
      } else {
        RecordLayout.TotalSizeGrows(|key|, |InitialBytes(i)|, i.expiration != 0, |InitialBytes(i)|, true);
      }
    }
    if RmwTooBig(store.log.pageSize, key, i, entry) {
      OverflowShown(store, key, i, entry);
    }
  }

  /** A record behind the entry for which the call overflows, if its map says so. */
  lemma OverflowShown(store: Store<Input, Value, Output>, key: Key, i: Input, entry: Option<Shown>)
    requires store.f == StringFunctions() && ByRmw(i.op) && (entry.Some? ==> Live(i.now, entry.value))
    requires RmwTooBig(store.log.pageSize, key, i, entry)
    ensures exists cell: Option<Value> ::
              store.RmwOverflows(key, i, cell) && Seen(StringMeaning(), i.now, cell) == entry
  {
    hide Overlay, Decimal, ParseI64, CopyUpdate, InitialBytes;
    var old' := Value([], 0, true, Past(i.now));
    var cell := if entry.Some? then Some(AsValue(entry.value)) else if CopiesExpired(i.op) then Some(old') else None;
    CopyOfExpired(i, old');
    var made := if cell.None? then Some(Initial(i).0)
                else match CopyUpdate(i, cell.value) case Copy(q, _) => Some(q) case _ => None;
    assert RmwMakes(store.f, i, cell, made) && !store.Fits(key, made);
    assert store.RmwOverflows(key, i, cell) && Seen(StringMeaning(), i.now, cell) == entry;
  }

  /** A call can panic on some record behind the entry exactly if the map's own values are too big for a page. */
  lemma PanicsAreTooBig(store: Store<Input, Value, Output>, table: Table<Shown>, c: Call<Input>)
    requires store.f == StringFunctions() && (c.CallRmw? ==> ByRmw(c.input.op))
    ensures PanicExplained(store, StringMeaning(), table, c) <==> TooBig(store.log.pageSize, table, c)
  {
    var now := TimeOf(StringMeaning(), c);
    var entry := Entry(StringMeaning(), table, now, c.key);
    match c {
      case CallRmw(key, i) =>
        RmwOverflowsIff(store, key, i, entry);
      case CallUpsert(_, _) | CallDelete(_, _) =>
        var cell := Some(if entry.Some? then AsValue(entry.value) else Value([], 0, true, Past(now)));
        assert Seen(StringMeaning(), now, cell) == entry;
      case CallRead(_, _) =>
    }
  }

  lemma OutgrowsNew(store: Store<Input, Value, Output>, c: Call<Input>)
    requires store.f == StringFunctions()
    ensures Outgrows(store, c, None) <==> NewTooBig(store.log.pageSize, c)
  {
    if c.CallRmw? {
      assert NeedInitial(c.input) ==> RmwMakes(store.f, c.input, None, Some(Initial(c.input).0));
    }
  }

  // ---------------------------------------------------------------------
  // Runs
  // ---------------------------------------------------------------------

  /** Which calls may have been left out of the map's history because their values were too big. */
  ghost predicate PanicsTooBig(pageSize: nat, table: Table<Shown>, calls: seq<Call<Input>>,
                               replies: seq<Reply<Output>>)
    requires |calls| == |replies|
  {
    forall n :: 0 <= n < |calls| && replies[n].status == Panicked ==>
      TooBig(pageSize, ApplyAll(StringMeaning(), table, calls[..n], replies[..n]), calls[n])
  }

  /** The first call on a key with nothing stored for it panics exactly if it would make too big a record. */
  ghost predicate FirstsTooBig(pageSize: nat, absent: iset<Key>, calls: seq<Call<Input>>, replies: seq<Reply<Output>>)
    requires |calls| == |replies|
  {
    forall n :: 0 <= n < |calls| && calls[n].key in absent && Untouched(calls[..n], calls[n].key)
                && replies[n].status != Error ==>
      (replies[n].status == Panicked <==> NewTooBig(pageSize, calls[n]))
  }

  /** Every command so far was admitted on the entry that the map had for its key. */
  ghost predicate AdmittedAll(table: Table<Shown>, calls: seq<Call<Input>>, replies: seq<Reply<Output>>)
    requires |calls| == |replies|
  {
    forall n :: 0 <= n < |calls| && calls[n].CallRmw? ==>
      Admitted(calls[n].input, EntryFor(ApplyAll(StringMeaning(), table, calls[..n], replies[..n]), calls[n]))
  }

  function EntryFor(table: Table<Shown>, c: Call<Input>): Option<Shown> {
    Entry(StringMeaning(), table, TimeOf(StringMeaning(), c), c.key)
  }

  predicate OnTheList(c: Call<Input>) {
    c.CallRmw? ==> NeverDiffers(c.input)
  }

  ghost predicate InOrder(calls: seq<Call<Input>>, start: int) {
    && (forall n :: 0 <= n < |calls| ==> start <= TimeOf(StringMeaning(), calls[n]))
    && (forall n :: 0 <= n < |calls| && calls[n].CallRmw? ==> AsCommanded(calls[n].input))
    && (forall n, k :: 0 <= n < k < |calls| ==>
          TimeOf(StringMeaning(), calls[n]) <= TimeOf(StringMeaning(), calls[k]))
  }

  /** Up to the first command that is not admitted, the replies are the map's and panics are for size alone. */
  ghost predicate RightWhileAdmitted(pageSize: nat, table: Table<Shown>, calls: seq<Call<Input>>,
                                     replies: seq<Reply<Output>>)
    requires |calls| == |replies|
  {
    forall n :: 0 <= n <= |calls| && AdmittedAll(table, calls[..n], replies[..n]) ==>
      && AllRight(StringMeaning(), table, calls[..n], replies[..n])
      && PanicsTooBig(pageSize, table, calls[..n], replies[..n])
  }

  lemma AdmittedAgree(table: Table<Shown>, calls: seq<Call<Input>>, replies: seq<Reply<Output>>)
    requires |calls| == |replies| && AdmittedAll(table, calls, replies)
    requires forall n :: 0 <= n < |calls| && calls[n].CallRmw? ==> AsCommanded(calls[n].input)
    ensures AgreedAll(StringFunctions(), StringMeaning(), table, calls, replies)
  {
    hide ApplyAll, AgreesSeen, Admitted;
    forall n | 0 <= n < |calls| && calls[n].CallRmw?
      ensures AgreesOn(StringFunctions(), StringMeaning(),
                       ApplyAll(StringMeaning(), table, calls[..n], replies[..n]), calls[n])
    {
      AdmittedIff(calls[n].input, EntryFor(ApplyAll(StringMeaning(), table, calls[..n], replies[..n]), calls[n]));
    }
  }

  /** Commands from the list are admitted whatever the map holds. */
  lemma ListedAllAdmitted(table: Table<Shown>, calls: seq<Call<Input>>, replies: seq<Reply<Output>>)
    requires |calls| == |replies| && InOrder(calls, if calls == [] then 0 else TimeOf(StringMeaning(), calls[0]))
    requires forall n :: 0 <= n < |calls| ==> OnTheList(calls[n])
    ensures AdmittedAll(table, calls, replies)
  {
    hide ApplyAll, Admitted, NeverDiffers;
    forall n | 0 <= n < |calls| && calls[n].CallRmw?
      ensures Admitted(calls[n].input,
                       EntryFor(ApplyAll(StringMeaning(), table, calls[..n], replies[..n]), calls[n]))
    {
      assert OnTheList(calls[n]);
      ListedAdmitted(calls[n].input, EntryFor(ApplyAll(StringMeaning(), table, calls[..n], replies[..n]), calls[n]));
    }
  }

  lemma StringsRight(store: Store<Input, Value, Output>, table: Table<Shown>, calls: seq<Call<Input>>,
                     replies: seq<Reply<Output>>)
    requires store.f == StringFunctions() && |calls| == |replies|
    requires forall n :: 0 <= n < |calls| && calls[n].CallRmw? ==> AsCommanded(calls[n].input)
    requires RightWhileAgreed(store, StringMeaning(), table, calls, replies)
    ensures RightWhileAdmitted(store.log.pageSize, table, calls, replies)
  {
    hide AdmittedAll, AgreedAll, AllRight, TooBig, ApplyAll, PanicExplained;
    forall n | 0 <= n <= |calls| && AdmittedAll(table, calls[..n], replies[..n])
      ensures RightUpTo(store, StringMeaning(), table, calls, replies, n)
    {
      AdmittedAgree(table, calls[..n], replies[..n]);
    }
    forall n | 0 <= n < |calls|
      ensures var now := ApplyAll(StringMeaning(), table, calls[..n], replies[..n]);
              PanicExplained(store, StringMeaning(), now, calls[n]) ==> TooBig(store.log.pageSize, now, calls[n])
    {
      PanicsAreTooBig(store, ApplyAll(StringMeaning(), table, calls[..n], replies[..n]), calls[n]);
    }
    forall n | 0 <= n <= |calls| && RightUpTo(store, StringMeaning(), table, calls, replies, n)
      ensures PanicsTooBig(store.log.pageSize, table, calls[..n], replies[..n])
    {
      assert forall k :: 0 <= k < n ==> calls[..n][..k] == calls[..k] && replies[..n][..k] == replies[..k];
    }
  }

  /**
    The string store is a map from keys to strings with deadlines: any sequence
    of these commands, with the log turning, flushing and evicting under it at
    will, gets the replies the map gives, for as long as each is admitted on the
    entry it meets. Only values too big for a page, and other threads that give
    no peace until the retries are used up, can keep a command from being answered.
   */
  method RunStrings(store: Store<Input, Value, Output>, calls: seq<Call<Input>>, env: seq<Rounds>,
                    ghost table: Table<Shown>, ghost start: int)
    returns (replies: seq<Reply<Output>>)
    requires store.Idle() && store.f == StringFunctions() && |env| == |calls|
    requires InOrder(calls, start)
    requires LooksLike(store, StringMeaning(), table, start)
    modifies store, store.log
    ensures |replies| == |calls| && RightWhileAdmitted(store.log.pageSize, table, calls, replies)
    ensures FirstsTooBig(store.log.pageSize, old(Absent(store)), calls, replies)
    ensures old(Roomy(store)) ==> NoDeletePanics(calls, replies)
    ensures AllWaited(calls, old(store.AroundNow()), env, replies)
    ensures old(store.Quiet()) && AllCalm(env) ==> forall r :: r in replies ==> r.status != Error
    ensures old(store.Quiet()) && AllTidy(env) ==>
              forall n :: 0 <= n < |replies| && |env[n]| + 4 <= MAX_RETRIES ==> replies[n].status != Error
  {
    hide AllWaited, AllCalm, AllTidy, RightWhileAgreed, RightWhileAdmitted, AgreedAll, LooksLike;
    hide Store<Input, Value, Output>.Valid, Store<Input, Value, Output>.AroundNow;
    hide Store<Input, Value, Output>.Quiet;
    StringsAgreeable();
    ghost var end;
    replies, end := PerformAll(store, StringMeaning(), calls, env, table, start);
    StringsRight(store, table, calls, replies);
    forall n | 0 <= n < |calls|
      ensures Outgrows(store, calls[n], None) <==> NewTooBig(store.log.pageSize, calls[n])
    {
      OutgrowsNew(store, calls[n]);
    }
  }

  /** A new store is the empty map with nobody around and nothing stored, and every such sequence can be put to it. */
  method RunFresh(calls: seq<Call<Input>>, env: seq<Rounds>, slotOf: Key -> nat,
                  pageSize: nat, bufferSize: nat, mutablePages: nat, threads: nat)
    returns (replies: seq<Reply<Output>>)
    requires FIRST_VALID_ADDRESS < pageSize && 2 <= bufferSize && 1 <= mutablePages < bufferSize && 1 <= threads
    requires |env| == |calls| && (calls == [] || InOrder(calls, TimeOf(StringMeaning(), calls[0])))
    ensures |replies| == |calls| && RightWhileAdmitted(pageSize, map[], calls, replies)
    ensures NoDeletePanics(calls, replies) && forall keys: iset<Key> :: FirstsTooBig(pageSize, keys, calls, replies)
    ensures AllWaited(calls, Around({}, true), env, replies)
    ensures AllCalm(env) ==> forall r :: r in replies ==> r.status != Error
    ensures AllTidy(env) ==>
              forall n :: 0 <= n < |replies| && |env[n]| + 4 <= MAX_RETRIES ==> replies[n].status != Error
  {
    hide AllWaited, AllCalm, AllTidy, RightWhileAdmitted, Store<Input, Value, Output>.Valid;
    var store := new Store<Input, Value, Output>(StringFunctions(), slotOf, pageSize, bufferSize, mutablePages, threads);
    store.QuietIff();
    replies := RunStrings(store, calls, env, map[], if calls == [] then 0 else TimeOf(StringMeaning(), calls[0]));
  }
}
