/** The JVM primitive types the model uses, with the two operations applied to them:
    `Long.hashCode` and the decimal rendering of a string template. */
module Primitives {

  const MIN_LONG: int := -0x8000_0000_0000_0000
  const MAX_LONG: int := 0x7FFF_FFFF_FFFF_FFFF

  /** Kotlin's `Long`: a 64-bit signed integer. */
  newtype Long = x: int | -0x8000_0000_0000_0000 <= x <= 0x7FFF_FFFF_FFFF_FFFF

  /** Kotlin's `Int`: a 32-bit signed integer. */
  newtype Int = x: int | -0x8000_0000 <= x <= 0x7FFF_FFFF

  /** Two to the power `k`. */
  function Pow2(k: nat): (p: nat)
    ensures p > 0
  {
    if k == 0 then 1 else 2 * Pow2(k - 1)
  }

  lemma {:induction false} Pow2Add(a: nat, b: nat)
    ensures Pow2(a + b) == Pow2(a) * Pow2(b)
  {
    if a > 0 {
      Pow2Add(a - 1, b);
    }
  }

  lemma Pow2Of32()
    ensures Pow2(32) == 0x1_0000_0000
  {
    assert Pow2(2) == 4;
    Pow2Add(2, 2);
    Pow2Add(4, 4);
    Pow2Add(8, 8);
    Pow2Add(16, 16);
  }

  /** The exclusive or of the low `width` bits of `a` and `b`, bit by bit. */
  function XorBits(a: nat, b: nat, width: nat): (x: nat)
    ensures x < Pow2(width)
  {
    if width == 0 then 0
    else (if a % 2 == b % 2 then 0 else 1) + 2 * XorBits(a / 2, b / 2, width - 1)
  }

  /** `Long.hashCode(v)`, which is `(v xor (v ushr 32)).toInt()`: the low and the high
      32-bit halves of the two's-complement bits, combined by exclusive or, read as a
      signed 32-bit value. */
  function LongHashCode(v: Long): (h: Int)
  {
    var bits := (v as int) % 0x1_0000_0000_0000_0000;
    var mixed := XorBits(bits % 0x1_0000_0000, bits / 0x1_0000_0000, 32);
    Pow2Of32();
    (if mixed < 0x8000_0000 then mixed else mixed - 0x1_0000_0000) as Int
  }

  /** Exclusive or with zero keeps every bit of a value that fits the width. */
  lemma {:induction false} XorBitsZero(a: nat, width: nat)
    requires a < Pow2(width)
    ensures XorBits(a, 0, width) == a
  {
    if width > 0 {
      XorBitsZero(a / 2, width - 1);
    }
  }

  /** A non-negative Long that fits in an Int hashes to itself. */
  lemma LongHashCodeOfSmall(v: Long)
    requires 0 <= v as int <= 0x7FFF_FFFF
    ensures LongHashCode(v) as int == v as int
  {
    Pow2Of32();
    var n := v as int;
    assert n % 0x1_0000_0000_0000_0000 == n;
    assert n % 0x1_0000_0000 == n && n / 0x1_0000_0000 == 0;
    XorBitsZero(n, 32);
  }

  /** The decimal digit character of a value below ten. */
  function DigitChar(d: nat): (c: char)
    requires d < 10
    ensures '0' <= c <= '9'
  {
    ['0', '1', '2', '3', '4', '5', '6', '7', '8', '9'][d]
  }

  /** The value of a decimal digit character. */
  function DigitValue(c: char): (d: nat)
    requires '0' <= c <= '9'
    ensures d < 10
  {
    (c as int) - ('0' as int)
  }

  /** The digits of a natural number, most significant first, without leading zeros. */
  function Digits(n: nat): (s: string)
    ensures |s| > 0
    ensures forall i :: 0 <= i < |s| ==> '0' <= s[i] <= '9'
    decreases n
  {
    if n < 10 then [DigitChar(n)] else Digits(n / 10) + [DigitChar(n % 10)]
  }

  /** How a Kotlin string template renders an integer: an optional minus sign, then its digits. */
  function Decimal(n: int): (s: string)
    ensures |s| > 0
    ensures s[0] == '-' || '0' <= s[0] <= '9'
    ensures forall i :: 1 <= i < |s| ==> '0' <= s[i] <= '9'
  {
    if n < 0 then "-" + Digits(-n) else Digits(n)
  }

  /** The number a string of decimal digits denotes. */
  function DigitsValue(s: string): (n: nat)
    requires forall i :: 0 <= i < |s| ==> '0' <= s[i] <= '9'
  {
    if |s| == 0 then 0 else DigitsValue(s[..|s| - 1]) * 10 + DigitValue(s[|s| - 1])
  }

  /** The integer an optionally signed decimal string denotes: the inverse of `Decimal`. */
  function DecimalValue(s: string): (n: int)
    requires |s| > 0
    requires s[0] == '-' || '0' <= s[0] <= '9'
    requires forall i :: 1 <= i < |s| ==> '0' <= s[i] <= '9'
  {
    if s[0] == '-' then -(DigitsValue(s[1..]) as int) else DigitsValue(s)
  }

  lemma DigitRoundTrip(d: nat)
    requires d < 10
    ensures DigitValue(DigitChar(d)) == d
  {
  }

  lemma {:induction false} DigitsRoundTrip(n: nat)
    ensures DigitsValue(Digits(n)) == n
    decreases n
  {
    DigitRoundTrip(n % 10);
    if n >= 10 {
      var s := Digits(n);
      assert s[..|s| - 1] == Digits(n / 10);
      DigitsRoundTrip(n / 10);
    }
  }

  /** Reading back a rendered integer gives the integer. */
  lemma {:induction false} DecimalRoundTrip(n: int)
    ensures DecimalValue(Decimal(n)) == n
  {
    if n < 0 {
      assert Decimal(n)[1..] == Digits(-n);
      DigitsRoundTrip(-n);
    } else {
      DigitsRoundTrip(n);
    }
  }

  /** Distinct integers render differently. */
  lemma DecimalInjective(a: int, b: int)
    requires Decimal(a) == Decimal(b)
    ensures a == b
  {
    DecimalRoundTrip(a);
    DecimalRoundTrip(b);
  }
}
