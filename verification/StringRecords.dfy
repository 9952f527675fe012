/**
  The callbacks of crates/garnet/src/functions.rs as they work on a record: a
  value buffer of fixed capacity, a length, and a deadline if there is a slot for
  one (crates/tsavorite/src/record.rs:258-371). Every write stays inside the
  capacity, bytes beyond the length are never shown, and a callback that asks for
  a copy has left the record as it was.
 */
module StringRecords {
  import opened Bytes
  import opened Numbers
  import opened Callbacks
  import opened Strings

  datatype Outcome = DidUpdate | WantsCopy | HasExpired | DidCancel | WantsDelete

  function OutcomeOf(r: InPlaceResult<Value, Output>): Outcome {
    match r
    case Updated(_, _) => DidUpdate
    case NeedCopy => WantsCopy
    case Expired => HasExpired
    case Cancel(_) => DidCancel
    case Delete(_) => WantsDelete
  }

  datatype Decision = GoCopy | GiveUpCopy | GoDelete

  function DecisionOf(r: CopyResult<Value, Output>): Decision {
    match r
    case Copy(_, _) => GoCopy
    case CancelCopy => GiveUpCopy
    case DeleteCopy(_) => GoDelete
  }

  /** The room asked for, for the first value of a key, is exactly what its bytes take. */
  method InitialSize(i: Input) returns (cap: nat, hasExpiration: bool)
    ensures cap == |Initial(i).0.bytes| && hasExpiration == Initial(i).0.slot
  {
    cap := |i.operand|;
    if i.op.IncrBy? {
      cap := DigitLen(i.delta);
    } else if i.op.SetRange? {
      cap := i.op.offset + |i.operand|;
    }
    hasExpiration := i.expiration != 0;
  }

  /** A buffer that starts with a string, padded up to the offset, holds its overlay once the operand is copied in. */
  lemma OverlayShape(was: seq<Byte>, full: seq<Byte>, offset: nat, v: seq<Byte>)
    requires Max(offset + |v|, |was|) <= |full|
    requires if |was| < offset then full[..offset] == was + Zeros(offset - |was|) else full[..|was|] == was
    ensures (full[..offset] + v + full[offset + |v|..])[..Max(offset + |v|, |was|)] == Overlay(was, offset, v)
  {
    var n := Max(offset + |v|, |was|);
    var whole := full[..offset] + v + full[offset + |v|..];
    assert whole[..n] == full[..offset] + v + full[offset + |v|..n];
    if offset <= |was| {
      assert full[..offset] == was[..offset];
      assert full[offset + |v|..n] == if offset + |v| < |was| then was[offset + |v|..] else [];
    }
  }

  /** The same in a buffer zeroed as far as the result reaches, with the old string copied to its front. */
  lemma FreshShape(zeroed: seq<Byte>, was: seq<Byte>, full: seq<Byte>, offset: nat, v: seq<Byte>)
    requires Max(offset + |v|, |was|) <= |zeroed| && full == was + zeroed[|was|..]
    requires zeroed[..Max(offset + |v|, |was|)] == Zeros(Max(offset + |v|, |was|))
    ensures (full[..offset] + v + full[offset + |v|..])[..Max(offset + |v|, |was|)] == Overlay(was, offset, v)
  {
    if |was| < offset {
      forall k | |was| <= k < offset
        ensures full[k] == 0
      {
        assert full[k] == zeroed[..Max(offset + |v|, |was|)][k];
      }
      assert full[..offset] == was + Zeros(offset - |was|);
    } else {
      assert full[..|was|] == was;
    }
    OverlayShape(was, full, offset, v);
  }

  class StringRecord {
    const buf: array<Byte>
    const slot: bool
    var len: nat
    var expiration: int

    ghost predicate Valid()
      reads this, buf
    {
      len <= buf.Length
    }

    /** What the record holds. */
    function Contents(): Value
      reads this, buf
      requires Valid()
    {
      Value(buf[..len], buf.Length, slot, expiration)
    }

    /** A freshly allocated record (record.rs:341-371); its buffer may hold anything. */
    constructor (capacity: nat, hasExpiration: bool)
      ensures Valid() && fresh(buf) && len == 0 && expiration == 0
      ensures buf.Length == capacity && slot == hasExpiration
    {
      buf := new Byte[capacity];
      slot := hasExpiration;
      len := 0;
      expiration := 0;
    }

    /** Copies `v` into the buffer at `offset`. */
    method CopyAt(offset: nat, v: seq<Byte>)
      requires offset + |v| <= buf.Length
      modifies buf
      ensures buf[..] == old(buf[..offset]) + v + old(buf[offset + |v|..])
    {
      forall k | 0 <= k < |v| {
        buf[offset + k] := v[k];
      }
    }

    /** Fills [from, to) with zeros. */
    method Fill(from: nat, to: nat)
      requires from <= to <= buf.Length
      modifies buf
      ensures buf[..] == old(buf[..from]) + Zeros(to - from) + old(buf[to..])
    {
      forall k | from <= k < to {
        buf[k] := 0;
      }
    }

    method WriteVal(v: seq<Byte>)
      requires Valid() && |v| <= buf.Length
      modifies this`len, buf
      ensures Valid() && Contents() == old(Contents()).(bytes := v)
    {
      CopyAt(0, v);
      len := |v|;
    }

    method WriteNumber(n: I64)
      requires Valid() && |Decimal(n)| <= buf.Length
      modifies this`len, buf
      ensures Valid() && Contents() == old(Contents()).(bytes := Decimal(n))
    {
      hide Decimal;
      var scratch := new Byte[20];
      var start := Fmt(scratch, n);
      WriteVal(scratch[start..]);
    }

    method WriteBoth(front: seq<Byte>, back: seq<Byte>)
      requires Valid() && |front| + |back| <= buf.Length
      modifies this`len, buf
      ensures Valid() && Contents() == old(Contents()).(bytes := front + back)
    {
      CopyAt(0, front);
      assert buf[..|front|] == front;
      CopyAt(|front|, back);
      len := |front| + |back|;
      assert buf[..len] == front + back;
    }

    method SetExpiration(ts: int) returns (ok: bool)
      requires Valid()
      modifies this`expiration
      ensures ok == slot
      ensures Contents() == if slot then old(Contents()).(expiration := ts) else old(Contents())
    {
      if !slot {
        return false;
      }
      expiration := ts;
      return true;
    }

    method ApplyTtlInPlace(i: Input) returns (ok: bool)
      requires Valid()
      modifies this`expiration
      ensures ok == ApplyTtl(i, old(Contents())).Some?
      ensures Contents() == if ok then ApplyTtl(i, old(Contents())).value else old(Contents())
    {
      if i.op.SetKeepTtl? || i.op == Op.SetGet(true) {
        return true;
      }
      if i.expiration != 0 {
        ok := SetExpiration(i.expiration);
        return;
      }
      if (i.op.Set? || i.op.SetXx? || i.op.SetGet? || i.op.GetEx?) && slot {
        ok := SetExpiration(0);
        return;
      }
      return true;
    }

    method InPlaceWriter(i: Input) returns (ok: bool)
      requires Valid()
      modifies this`len, this`expiration, buf
      ensures Valid() && ok == InPlaceWrite(i, old(Contents())).Some?
      ensures Contents() == if ok then InPlaceWrite(i, old(Contents())).value else old(Contents())
    {
      if buf.Length < |i.operand| {
        return false;
      }
      if slot {
        var _ := SetExpiration(i.expiration);
      } else if i.expiration != 0 {
        return false;
      }
      WriteVal(i.operand);
      return true;
    }

    /** SETRANGE on what is there: zeros up to the offset, then the operand. */
    method OverlayInPlace(offset: nat, v: seq<Byte>) returns (n: nat)
      requires Valid() && Max(offset + |v|, len) <= buf.Length
      modifies this`len, buf
      ensures Valid() && n == Max(offset + |v|, old(len))
      ensures Contents() == old(Contents()).(bytes := Overlay(old(Contents()).bytes, offset, v))
    {
      n := Max(offset + |v|, len);
      ghost var was := buf[..len];
      if len < offset {
        Fill(len, offset);
        assert buf[..][..offset] == was + Zeros(offset - len);
      }
      assert offset <= len ==> buf[..][..len] == was;
      OverlayShape(was, buf[..], offset, v);
      ghost var full := buf[..];
      CopyAt(offset, v);
      assert buf[..] == full[..offset] + v + full[offset + |v|..];
      len := n;
      assert buf[..len] == buf[..][..n];
    }

    method IncrInPlace(i: Input) returns (r: Outcome, out: Output)
      requires Valid() && i.op.IncrBy? && !Strings.Expired(Contents(), i.now)
      modifies this`len, buf
      ensures Valid() && Resulted(InPlace(i, old(Contents())), old(Contents()), r, out)
    {
      var cur := ParseI64(buf[..len]);
      if cur.None? || !IsI64(cur.value + i.delta) {
        return DidCancel, Integer(I64_MIN);
      }
      var scratch := new Byte[20];
      var start := Fmt(scratch, cur.value + i.delta);
      var s := scratch[start..];
      if buf.Length < |s| {
        return WantsCopy, SILENT;
      }
      WriteVal(s);
      return DidUpdate, Integer(cur.value + i.delta);
    }

    /** The outcome and the record agree with what a callback should come to. */
    ghost predicate Resulted(expected: InPlaceResult<Value, Output>, before: Value, r: Outcome, out: Output)
      reads this, buf
      requires Valid()
    {
      && r == OutcomeOf(expected)
      && Contents() == (if expected.Updated? then expected.payload else before)
      && (expected.Updated? || expected.Cancel? || expected.Delete? ==> out == expected.out)
    }

    method OverwriteRecord(i: Input) returns (r: Outcome, out: Output)
      requires Valid()
      modifies this`len, this`expiration, buf
      ensures Valid() && Resulted(OverwriteInPlace(i, old(Contents())), old(Contents()), r, out)
    {
      if buf.Length < |i.operand| {
        return WantsCopy, SILENT;
      }
      out := if i.op.SetGet? then Bulk(buf[..len]) else SILENT;
      var ok := ApplyTtlInPlace(i);
      if !ok {
        return WantsCopy, out;
      }
      WriteVal(i.operand);
      return DidUpdate, out;
    }

    method AppendInPlace(i: Input) returns (r: Outcome, out: Output)
      requires Valid() && i.op.Append? && !Strings.Expired(Contents(), i.now)
      modifies this`len, buf
      ensures Valid() && Resulted(InPlace(i, old(Contents())), old(Contents()), r, out)
    {
      var n := len + |i.operand|;
      if buf.Length < n {
        return WantsCopy, SILENT;
      }
      CopyAt(len, i.operand);
      assert buf[..n] == old(buf[..len]) + i.operand;
      len := n;
      return DidUpdate, Integer(n);
    }

    /** EXPIRE, PERSIST and GETEX change the deadline only. */
    method RetimeInPlace(i: Input) returns (r: Outcome, out: Output)
      requires Valid() && (i.op.GetEx? || i.op.Expire? || i.op.Persist?) && !Strings.Expired(Contents(), i.now)
      modifies this`expiration
      ensures Valid() && Resulted(InPlace(i, old(Contents())), old(Contents()), r, out)
    {
      if i.op.GetEx? {
        out := Bulk(buf[..len]);
        var ok := ApplyTtlInPlace(i);
        return if ok then DidUpdate else WantsCopy, out;
      }
      if i.op.Expire? {
        var ok := SetExpiration(i.expiration);
        return if ok then DidUpdate else WantsCopy, Integer(1);
      }
      if slot && expiration != 0 {
        var _ := SetExpiration(0);
        return DidUpdate, Integer(1);
      }
      return DidCancel, Integer(0);
    }

    method InPlaceUpdater(i: Input) returns (r: Outcome, out: Output)
      requires Valid()
      modifies this`len, this`expiration, buf
      ensures Valid() && Resulted(InPlace(i, old(Contents())), old(Contents()), r, out)
    {
      if slot && expiration != 0 && expiration <= i.now {
        return HasExpired, SILENT;
      }
      match i.op {
        case SetNx(_) => return DidCancel, SILENT;
        case SetXx | Set | SetKeepTtl | SetGet(_) => r, out := OverwriteRecord(i);
        case IncrBy => r, out := IncrInPlace(i);
        case Append => r, out := AppendInPlace(i);
        case SetRange(offset) =>
          if buf.Length < Max(offset + |i.operand|, len) {
            return WantsCopy, SILENT;
          }
          var n := OverlayInPlace(offset, i.operand);
          return DidUpdate, Integer(n);
        case GetDel => return WantsDelete, Bulk(buf[..len]);
        case GetEx | Expire | Persist => r, out := RetimeInPlace(i);
        case _ => return WantsCopy, SILENT;
      }
    }

    /** SETRANGE into an empty buffer: zeros, the operand. */
    method OverlayEmpty(offset: nat, v: seq<Byte>)
      requires Valid() && offset + |v| <= buf.Length
      modifies this`len, buf
      ensures Valid() && Contents() == old(Contents()).(bytes := Overlay([], offset, v))
    {
      Fill(0, offset);
      ghost var full := buf[..];
      assert full[..offset] == [] + Zeros(offset);
      OverlayShape([], full, offset, v);
      CopyAt(offset, v);
      len := offset + |v|;
      assert buf[..len] == buf[..][..len];
    }

    /** The first value of a new record; its size was asked for by `InitialSize`. */
    method InitialUpdater(i: Input) returns (out: Output)
      requires Valid()
      requires len == 0 && expiration == 0
      requires buf.Length == |Initial(i).0.bytes| && slot == Initial(i).0.slot
      modifies this`len, this`expiration, buf
      ensures Valid() && Contents() == Initial(i).0 && out == Initial(i).1
    {
      hide Decimal, Overlay;
      out := SILENT;
      match i.op {
        case IncrBy =>
          WriteNumber(i.delta);
          out := Integer(i.delta);
        case SetRange(offset) =>
          OverlayEmpty(offset, i.operand);
          out := Integer(offset + |i.operand|);
        case Append =>
          WriteVal(i.operand);
          out := Integer(|i.operand|);
        case _ =>
          WriteVal(i.operand);
      }
      if i.expiration != 0 {
        var _ := SetExpiration(i.expiration);
      }
    }

    method IsExpired(now: int) returns (b: bool)
      requires Valid()
      ensures b == Strings.Expired(Contents(), now)
    {
      return slot && expiration != 0 && expiration <= now;
    }

    /** The old value as the copy callbacks read it: nothing, once it has expired. */
    method OldValue(now: int) returns (bytes: seq<Byte>)
      requires Valid()
      ensures bytes == if Strings.Expired(Contents(), now) then [] else Contents().bytes
    {
      var gone := IsExpired(now);
      return if gone then [] else buf[..len];
    }

    method OldCounter(now: int) returns (n: I64)
      requires Valid()
      ensures n == if !Strings.Expired(Contents(), now) && ParseI64(Contents().bytes).Some?
                   then ParseI64(Contents().bytes).value else 0
    {
      var gone := IsExpired(now);
      if gone {
        return 0;
      }
      var parsed := ParseI64(buf[..len]);
      return if parsed.Some? then parsed.value else 0;
    }

    /** Whether this record is to be copied, and what the reply says already. */
    method NeedCopyUpdate(i: Input) returns (d: Decision, out: Output)
      requires Valid()
      ensures var want := CopyUpdate(i, Contents());
              && d == DecisionOf(want)
              && (want.DeleteCopy? ==> out == want.out)
              && (want.Copy? ==> out == if i.op.Expire? then Integer(1) else SILENT)
    {
      out := SILENT;
      var gone := IsExpired(i.now);
      if gone {
        return match i.op {
          case Set | SetKeepTtl | SetNx(_) | IncrBy | Append | SetRange(_) | GetEx => GoCopy
          case _ => GiveUpCopy
        }, out;
      }
      match i.op {
        case SetNx(_) => return GiveUpCopy, out;
        case IncrBy =>
          var cur := ParseI64(buf[..len]);
          return if cur.Some? && IsI64(cur.value + i.delta) then GoCopy else GiveUpCopy, out;
        case GetDel => return GoDelete, Bulk(buf[..len]);
        case Expire => return GoCopy, Integer(1);
        case _ => return GoCopy, out;
      }
    }

    /** The room asked for, for the copy of this record, is exactly what the new bytes take. */
    method CopySize(i: Input) returns (cap: nat, hasExpiration: bool)
      requires Valid()
      ensures cap == Copied(i, Contents()).cap && hasExpiration == Copied(i, Contents()).slot
    {
      var oldVal := OldValue(i.now);
      match i.op {
        case IncrBy =>
          var cur := OldCounter(i.now);
          cap := DigitLen(WrappingAdd(cur, i.delta));
        case Append => cap := |oldVal| + |i.operand|;
        case SetRange(offset) => cap := Max(offset + |i.operand|, |oldVal|);
        case GetEx | Expire | Persist => cap := |oldVal|;
        case _ => cap := |i.operand|;
      }
      hasExpiration := match i.op {
        case Persist => false
        case Set => i.expiration != 0
        case _ => i.expiration != 0 || (slot && expiration != 0)
      };
    }

    /** SETRANGE into a fresh buffer: zeros, the old string, the operand. */
    method OverlayFresh(oldVal: seq<Byte>, offset: nat, v: seq<Byte>)
      requires Valid() && Max(offset + |v|, |oldVal|) <= buf.Length
      modifies this`len, buf
      ensures Valid() && Contents() == old(Contents()).(bytes := Overlay(oldVal, offset, v))
    {
      hide Overlay;
      var n := Max(offset + |v|, |oldVal|);
      Fill(0, n);
      ghost var zeroed := buf[..];
      CopyAt(0, oldVal);
      ghost var full := buf[..];
      FreshShape(zeroed, oldVal, full, offset, v);
      CopyAt(offset, v);
      assert buf[..] == full[..offset] + v + full[offset + |v|..];
      len := n;
      assert buf[..len] == buf[..][..n];
    }

    /** The new bytes, and the reply of the commands that give one here. */
    method CopyValue(i: Input, source: StringRecord, asked: Output) returns (out: Output)
      requires Valid() && source.Valid() && source != this && source.buf != buf
      requires buf.Length == |CopiedBytes(i, source.Contents())|
      requires asked == if i.op.Expire? then Integer(1) else SILENT
      modifies this`len, buf
      ensures Valid() && Contents() == old(Contents()).(bytes := old(CopiedBytes(i, source.Contents())))
      ensures out == old(CopiedOutput(i, source.Contents()))
    {
      hide Overlay, Digits, ParseI64;
      var oldVal := source.OldValue(i.now);
      out := asked;
      match i.op {
        case IncrBy =>
          var cur := source.OldCounter(i.now);
          var n := WrappingAdd(cur, i.delta);
          WriteNumber(n);
          out := Integer(n);
        case Append =>
          WriteBoth(oldVal, i.operand);
          out := Integer(|oldVal| + |i.operand|);
        case SetRange(offset) =>
          OverlayFresh(oldVal, offset, i.operand);
          out := Integer(Max(offset + |i.operand|, |oldVal|));
        case SetGet(_) =>
          out := Bulk(oldVal);
          WriteVal(i.operand);
        case GetEx =>
          out := Bulk(oldVal);
          WriteVal(oldVal);
        case Expire =>
          WriteVal(oldVal);
        case Persist =>
          WriteVal(oldVal);
          out := Integer(1);
        case _ =>
          WriteVal(i.operand);
      }
    }

    /** The deadline that a copy carries forward. */
    method CarriedDeadline(i: Input, source: StringRecord) returns (deadline: int)
      requires source.Valid()
      ensures deadline == CopiedExpiration(i, source.Contents())
    {
      var gone := source.IsExpired(i.now);
      var carries := source.slot && source.expiration != 0 && !gone;
      match i.op {
        case Set | Expire | GetEx => deadline := i.expiration;
        case Persist => deadline := 0;
        case _ =>
          deadline := if i.expiration != 0 then i.expiration else if carries then source.expiration else 0;
      }
    }

    /** The copied value of another record, in the room that `CopySize` asked for. */
    method CopyUpdater(i: Input, source: StringRecord, asked: Output) returns (out: Output)
      requires Valid() && source.Valid() && source != this && source.buf != buf
      requires len == 0 && expiration == 0
      requires buf.Length == Copied(i, source.Contents()).cap && slot == Copied(i, source.Contents()).slot
      requires asked == if i.op.Expire? then Integer(1) else SILENT
      modifies this`len, this`expiration, buf
      ensures Valid() && Contents() == old(Copied(i, source.Contents()))
      ensures out == old(CopiedOutput(i, source.Contents()))
    {
      out := CopyValue(i, source, asked);
      if slot {
        var deadline := CarriedDeadline(i, source);
        var _ := SetExpiration(deadline);
      }
    }
  }

  /** A first value as the store makes it: sized, allocated, filled in. */
  method InitialRecord(i: Input) returns (rec: StringRecord, out: Output)
    ensures fresh(rec) && rec.Valid() && (rec.Contents(), out) == Initial(i)
  {
    var cap, hasExpiration := InitialSize(i);
    rec := new StringRecord(cap, hasExpiration);
    out := rec.InitialUpdater(i);
  }

  /** A copy as the store makes it: asked for, sized, allocated, filled in. */
  method CopyRecord(i: Input, source: StringRecord) returns (d: Decision, rec: StringRecord?, out: Output)
    requires source.Valid()
    ensures var want := CopyUpdate(i, source.Contents());
            && d == DecisionOf(want)
            && (want.Copy? ==> rec != null && fresh(rec) && rec.Valid() && rec.Contents() == want.payload)
            && (want.Copy? || want.DeleteCopy? ==> out == want.out)
  {
    rec := null;
    d, out := source.NeedCopyUpdate(i);
    if d.GoCopy? {
      var cap, hasExpiration := source.CopySize(i);
      rec := new StringRecord(cap, hasExpiration);
      out := rec.CopyUpdater(i, source, out);
    }
  }
}
