/** The primitive text conversions the codec leans on: Rust's `str::parse` for the
    fixed-width integer types, their `to_string`, and an opaque stand-in for `f32`. */
module Scalars {
  import opened Wrappers

  /** The integer types the codec parses or formats. */
  datatype IntType = U8 | I8 | U16 | I16 | U32 | I32

  function MinOf(t: IntType): int {
    match t
    case U8 => 0
    case U16 => 0
    case U32 => 0
    case I8 => -0x80
    case I16 => -0x8000
    case I32 => -0x8000_0000
  }

  function MaxOf(t: IntType): int {
    match t
    case U8 => 0xFF
    case I8 => 0x7F
    case U16 => 0xFFFF
    case I16 => 0x7FFF
    case U32 => 0xFFFF_FFFF
    case I32 => 0x7FFF_FFFF
  }

  predicate IsSigned(t: IntType) {
    t == I8 || t == I16 || t == I32
  }

  predicate InRange(n: int, t: IntType) {
    MinOf(t) <= n <= MaxOf(t)
  }

  type U8 = n: int | 0 <= n <= 0xFF
  type I8 = n: int | -0x80 <= n <= 0x7F
  type U16 = n: int | 0 <= n <= 0xFFFF
  type I32 = n: int | -0x8000_0000 <= n <= 0x7FFF_FFFF

  /** An `f32`, identified by its IEEE-754 bit pattern. Its text forms are not modelled:
      callers pass the parser and the renderer in as functions. */
  datatype F32 = F32Bits(bits: bv32)

  /** `0.0_f32`, the all-zero bit pattern. */
  const ZeroF32: F32 := F32Bits(0)

  predicate IsDigit(c: char) {
    '0' <= c <= '9'
  }

  predicate AllDigits(s: string) {
    forall i :: 0 <= i < |s| ==> IsDigit(s[i])
  }

  function DigitValue(c: char): nat
    requires IsDigit(c)
  {
    c as int - '0' as int
  }

  /** The decimal value of a string of ASCII digits, most significant first. */
  function DigitsValue(d: string): nat
    requires AllDigits(d)
    decreases |d|
  {
    if |d| == 0 then 0 else DigitsValue(d[..|d| - 1]) * 10 + DigitValue(d[|d| - 1])
  }

  /** Rust's `str::parse::<t>()` for an integer type `t`: an optional `+` (or `-` when
      `t` is signed) that is not the whole text, then ASCII digits only, then a range
      check; every failure is `None`. */
  function ParseInt(s: string, t: IntType): (r: Option<int>)
    ensures r.Some? ==> InRange(r.value, t)
    ensures r.Some? ==> |s| > 0 && AllDigits(if s[0] == '+' || s[0] == '-' then s[1..] else s)
  {
    if |s| == 0 then None
    else if (s[0] == '+' || s[0] == '-') && |s| == 1 then None
    else
      var negative := s[0] == '-' && IsSigned(t);
      var digits := if s[0] == '+' || negative then s[1..] else s;
      if !AllDigits(digits) then None
      else
        var n: int := if negative then -(DigitsValue(digits) as int) else DigitsValue(digits);
        if InRange(n, t) then Some(n) else None
  }

  function ParseU8(s: string): (r: Option<U8>)
    ensures r == ParseInt(s, U8)
  {
    match ParseInt(s, U8)
    case None => None
    case Some(n) => Some(n)
  }

  function ParseI8(s: string): (r: Option<I8>)
    ensures r == ParseInt(s, I8)
  {
    match ParseInt(s, I8)
    case None => None
    case Some(n) => Some(n)
  }

  function ParseU16(s: string): (r: Option<U16>)
    ensures r == ParseInt(s, U16)
  {
    match ParseInt(s, U16)
    case None => None
    case Some(n) => Some(n)
  }

  function ParseI32(s: string): (r: Option<I32>)
    ensures r == ParseInt(s, I32)
  {
    match ParseInt(s, I32)
    case None => None
    case Some(n) => Some(n)
  }

  function DigitChar(d: nat): (c: char)
    requires d < 10
    ensures IsDigit(c) && DigitValue(c) == d
  {
    ('0' as int + d) as char
  }

  /** The shortest decimal spelling of a natural number. */
  function NatDigits(n: nat): (r: string)
    ensures |r| > 0 && AllDigits(r)
    ensures DigitsValue(r) == n
    ensures |r| > 1 ==> r[0] != '0'
    decreases n
  {
    if n < 10 then [DigitChar(n)]
    else
      var front := NatDigits(n / 10);
      var r := front + [DigitChar(n % 10)];
      assert r[..|r| - 1] == front;
      r
  }

  /** Rust's `to_string` on an integer: plain decimal, with `-` for negative values. */
  function FormatInt(n: int): (r: string)
    ensures |r| > 0
    ensures n >= 0 ==> AllDigits(r) && DigitsValue(r) == n
    ensures n < 0 ==> r[0] == '-' && AllDigits(r[1..]) && DigitsValue(r[1..]) == -n
  {
    if n < 0 then
      var r := "-" + NatDigits(-n);
      assert r[1..] == NatDigits(-n);
      r
    else NatDigits(n)
  }

  /** Formatting an in-range integer and parsing it back as the same type gives it back. */
  lemma ParseFormatInt(n: int, t: IntType)
    requires InRange(n, t)
    ensures ParseInt(FormatInt(n), t) == Some(n)
  {
    var s := FormatInt(n);
    if n < 0 {
      assert IsSigned(t);
      assert |NatDigits(-n)| > 0;
      assert s[1..] == NatDigits(-n);
    } else {
      assert IsDigit(s[0]);
    }
  }

  /** The leniency of `str::parse`: a leading `+` and leading zeros are accepted. */
  lemma ParseIntLenient()
    ensures ParseInt("+1", U8) == Some(1)
    ensures ParseInt("001", U8) == Some(1)
    ensures ParseInt("-0", I8) == Some(0)
  {
    assert DigitsValue("001") == DigitsValue("00") * 10 + 1;
    assert DigitsValue("00") == DigitsValue("0") * 10;
  }

  /** A lone sign, a `-` on an unsigned type and a non-digit are refused. */
  lemma ParseIntRefusesShape()
    ensures ParseInt("-0", U8) == None
    ensures ParseInt("+", I32) == None
    ensures ParseInt("", U16) == None
    ensures ParseInt("1.5", U16) == None
  {
    assert !IsDigit("1.5"[1]);
  }

  /** The range check is the type's own: `i8` takes -128 but not 128, `u8` not 256. */
  lemma ParseIntRange()
    ensures ParseInt("-128", I8) == Some(-128)
    ensures ParseInt("128", I8) == None
    ensures ParseInt("256", U8) == None
  {
    assert DigitsValue("128") == 128 by {
      assert DigitsValue("128") == DigitsValue("12") * 10 + 8;
      assert DigitsValue("12") == DigitsValue("1") * 10 + 2;
    }
    assert DigitsValue("256") == 256 by {
      assert DigitsValue("256") == DigitsValue("25") * 10 + 6;
      assert DigitsValue("25") == DigitsValue("2") * 10 + 5;
    }
    assert "-128"[1..] == "128";
  }
}
