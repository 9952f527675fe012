/**
  Numbers as bytes. Decimal (crates/garnet/src/resp.rs:251-307): the stack buffer
  that is filled from the back, the digit count used to size records, and the
  parser of command arguments. Little-endian words, as headers hold them.
 */
module Numbers {
  import opened Bytes

  const I64_MIN: int := -0x8000_0000_0000_0000
  const I64_MAX: int := 0x7fff_ffff_ffff_ffff

  type I64 = v: int | I64_MIN <= v <= I64_MAX

  const ZERO: Byte := 48
  const MINUS: Byte := 45
  const PLUS: Byte := 43

  predicate IsI64(v: int) {
    I64_MIN <= v <= I64_MAX
  }

  predicate IsDigit(b: Byte) {
    ZERO <= b <= ZERO + 9
  }

  function UnsignedAbs(v: int): nat {
    if v < 0 then -v else v
  }

  /** `i64::wrapping_add`. */
  function WrappingAdd(a: int, b: int): int
    requires IsI64(a) && IsI64(b)
    ensures IsI64(WrappingAdd(a, b)) && (IsI64(a + b) ==> WrappingAdd(a, b) == a + b)
  {
    if a + b < I64_MIN then a + b + 0x1_0000_0000_0000_0000
    else if I64_MAX < a + b then a + b - 0x1_0000_0000_0000_0000
    else a + b
  }

  /** The digits of a positive number, and none for zero. */
  function Digits(u: nat): seq<Byte> {
    if u == 0 then [] else Digits(u / 10) + [ZERO + u % 10]
  }

  /** How an integer is written in decimal. */
  function Decimal(v: int): seq<Byte> {
    (if v < 0 then [MINUS] else []) + (if v == 0 then [ZERO] else Digits(UnsignedAbs(v)))
  }

  function Pow10(k: nat): nat {
    if k == 0 then 1 else 10 * Pow10(k - 1)
  }

  lemma {:induction false} DigitCount(u: nat, k: nat)
    requires u < Pow10(k)
    ensures |Digits(u)| <= k
  {
    if u != 0 {
      assert 0 < k;
      DigitCount(u / 10, k - 1);
    }
  }

  /** Any i64 fits in twenty bytes. */
  lemma DecimalFits(v: int)
    requires IsI64(v)
    ensures 1 <= |Decimal(v)| <= 20
  {
    assert Pow10(5) == 100_000;
    assert Pow10(10) == 10_000_000_000;
    assert Pow10(15) == 1_000_000_000_000_000;
    assert Pow10(19) == 10_000_000_000_000_000_000;
    DigitCount(UnsignedAbs(v), 19);
  }

  /** `I64Buf::fmt`: the result is `buf[i..]`. */
  method Fmt(buf: array<Byte>, v: int) returns (i: nat)
    requires buf.Length == 20 && IsI64(v)
    modifies buf
    ensures i <= 20 && buf[i..] == Decimal(v)
  {
    DecimalFits(v);
    i := buf.Length;
    var u: nat := UnsignedAbs(v);
    if u == 0 {
      i := i - 1;
      buf[i] := ZERO;
      assert buf[i..] == [ZERO];
      return;
    }
    while 0 < u
      invariant i <= 20 && |Digits(u)| + (20 - i) == |Digits(UnsignedAbs(v))|
      invariant Digits(u) + buf[i..] == Digits(UnsignedAbs(v))
    {
      ghost var tail := buf[i..];
      i := i - 1;
      buf[i] := ZERO + u % 10;
      assert buf[i..] == [ZERO + u % 10] + tail;
      u := u / 10;
    }
    if v < 0 {
      ghost var tail := buf[i..];
      i := i - 1;
      buf[i] := MINUS;
      assert buf[i..] == [MINUS] + tail;
    }
  }

  /** `i64_digit_len` counts what `fmt` writes. */
  method DigitLen(v: int) returns (n: nat)
    ensures n == |Decimal(v)|
  {
    n := if v < 0 then 1 else 0;
    var u: nat := UnsignedAbs(v);
    if u == 0 {
      return 1;
    }
    while 0 < u
      invariant n + |Digits(u)| == |Decimal(v)|
    {
      n := n + 1;
      u := u / 10;
    }
  }

  // ---------------------------------------------------------------------
  // Parsing
  // ---------------------------------------------------------------------

  /** The number that a string of digits denotes. */
  function ValueOf(s: seq<Byte>): Option<nat> {
    if s == [] then Some(0)
    else
      var n := |s| - 1;
      var high := ValueOf(s[..n]);
      if high.None? || !IsDigit(s[n]) then None else Some(10 * high.value + (s[n] - ZERO))
  }

  lemma {:induction false} ValueOfDigits(u: nat)
    ensures ValueOf(Digits(u)) == Some(u)
  {
    if u != 0 {
      ValueOfDigits(u / 10);
      var s := Digits(u);
      assert s[..|s| - 1] == Digits(u / 10);
    }
  }

  /** `str::parse::<i64>`: a sign, digits, and a value in range. */
  function ParseSigned(s: seq<Byte>): Option<int> {
    if s == [] then None
    else
      var signed := s[0] == MINUS || s[0] == PLUS;
      var digits := if signed then s[1..] else s;
      var magnitude := ValueOf(digits);
      if digits == [] || magnitude.None? then None
      else
        var v: int := if s[0] == MINUS then 0 - magnitude.value else magnitude.value;
        if IsI64(v) then Some(v) else None
  }

  // The white-space characters of Unicode, in UTF-8, by their length.

  predicate IsSpace1(a: Byte) {
    a == 32 || 9 <= a <= 13
  }

  predicate IsSpace2(a: Byte, b: Byte) {
    a == 0xC2 && (b == 0x85 || b == 0xA0)
  }

  predicate IsSpace3(a: Byte, b: Byte, c: Byte) {
    || (a == 0xE1 && b == 0x9A && c == 0x80)
    || (a == 0xE2 && b == 0x80 && (0x80 <= c <= 0x8A || c == 0xA8 || c == 0xA9 || c == 0xAF))
    || (a == 0xE2 && b == 0x81 && c == 0x9F)
    || (a == 0xE3 && b == 0x80 && c == 0x80)
  }

  /** The length of the white-space character that the string starts with, or 0. */
  function SpaceBefore(s: seq<Byte>): (k: nat)
    ensures k <= |s|
  {
    if 1 <= |s| && IsSpace1(s[0]) then 1
    else if 2 <= |s| && IsSpace2(s[0], s[1]) then 2
    else if 3 <= |s| && IsSpace3(s[0], s[1], s[2]) then 3
    else 0
  }

  /** The length of the white-space character that the string ends with, or 0. */
  function SpaceAfter(s: seq<Byte>): (k: nat)
    ensures k <= |s|
  {
    var n := |s|;
    if 1 <= n && IsSpace1(s[n - 1]) then 1
    else if 2 <= n && IsSpace2(s[n - 2], s[n - 1]) then 2
    else if 3 <= n && IsSpace3(s[n - 3], s[n - 2], s[n - 1]) then 3
    else 0
  }

  function TrimStart(s: seq<Byte>): seq<Byte>
    decreases |s|
  {
    if SpaceBefore(s) == 0 then s else TrimStart(s[SpaceBefore(s)..])
  }

  function TrimEnd(s: seq<Byte>): seq<Byte>
    decreases |s|
  {
    if SpaceAfter(s) == 0 then s else TrimEnd(s[..|s| - SpaceAfter(s)])
  }

  /** `parse_i64`: what is left after trimming is a signed number, or nothing is. */
  function ParseI64(s: seq<Byte>): (v: Option<int>)
    ensures v.Some? ==> IsI64(v.value)
  {
    ParseSigned(TrimEnd(TrimStart(s)))
  }

  lemma {:induction false} DigitsAreDigits(u: nat)
    ensures forall b :: b in Digits(u) ==> IsDigit(b)
    ensures 0 < u ==> Digits(u) != []
  {
    if u != 0 {
      DigitsAreDigits(u / 10);
    }
  }

  predicate Inked(b: Byte) {
    IsDigit(b) || b == MINUS
  }

  lemma NothingToTrim(s: seq<Byte>)
    requires s != [] && Inked(s[0]) && Inked(s[|s| - 1])
    ensures TrimEnd(TrimStart(s)) == s
  {
    assert SpaceBefore(s) == 0 && SpaceAfter(s) == 0;
  }

  lemma ParseSignedDecimal(v: int)
    requires IsI64(v)
    ensures ParseSigned(Decimal(v)) == Some(v)
  {
    var s := Decimal(v);
    DigitsAreDigits(UnsignedAbs(v));
    ValueOfDigits(UnsignedAbs(v));
    if v < 0 {
      assert s[1..] == Digits(-v);
    } else if v == 0 {
      assert s == [ZERO] && s[..0] == [] && ValueOf(s[..0]) == Some(0);
    } else {
      assert s == Digits(v) && IsDigit(s[0]);
    }
  }

  lemma DecimalIsInked(v: int)
    requires IsI64(v)
    ensures Decimal(v) != [] && Inked(Decimal(v)[0]) && Inked(Decimal(v)[|Decimal(v)| - 1])
  {
    DigitsAreDigits(UnsignedAbs(v));
  }

  /** Writing an i64 and parsing it again gives it back. */
  lemma ParseDecimal(v: int)
    requires IsI64(v)
    ensures ParseI64(Decimal(v)) == Some(v)
  {
    DecimalIsInked(v);
    NothingToTrim(Decimal(v));
    ParseSignedDecimal(v);
  }

  // ---------------------------------------------------------------------
  // Little-endian words
  // ---------------------------------------------------------------------

  /** The `k` low bytes of `n`, least significant first. */
  function Le(n: nat, k: nat): (s: seq<Byte>)
    ensures |s| == k
  {
    if k == 0 then [] else [n % 256] + Le(n / 256, k - 1)
  }

  function FromLe(s: seq<Byte>): nat {
    if s == [] then 0 else s[0] + 256 * FromLe(s[1..])
  }

  function Pow256(k: nat): nat {
    if k == 0 then 1 else 256 * Pow256(k - 1)
  }

  lemma {:induction false} LeRoundTrip(n: nat, k: nat)
    requires n < Pow256(k)
    ensures FromLe(Le(n, k)) == n
  {
    if 0 < k {
      LeRoundTrip(n / 256, k - 1);
    }
  }
}
