/** Java's signed integral widths, the two's-complement narrowing its casts and
    Number conversions perform, and java.math.BigDecimal as an unscaled value
    with a scale. */
module JavaNumbers {

  /** byte, short, int and long. */
  datatype Width = W8 | W16 | W32 | W64

  /** The magnitude of the most negative value of a width. */
  function Half(w: Width): nat
  {
    match w
    case W8 => 0x80
    case W16 => 0x8000
    case W32 => 0x8000_0000
    case W64 => 0x8000_0000_0000_0000
  }

  /** The number of values of a width, 2^bits. */
  function Modulus(w: Width): nat
  {
    2 * Half(w)
  }

  predicate InWidth(w: Width, n: int)
  {
    -(Half(w) as int) <= n < Half(w)
  }

  /** w is at most as wide as v. */
  predicate NoWider(w: Width, v: Width)
  {
    Half(w) <= Half(v)
  }

  type i8 = n: int | -0x80 <= n < 0x80
  type i16 = n: int | -0x8000 <= n < 0x8000
  type i32 = n: int | -0x8000_0000 <= n < 0x8000_0000
  type i64 = n: int | -0x8000_0000_0000_0000 <= n < 0x8000_0000_0000_0000

  /** Two's-complement narrowing: keep the low-order bits of n and read them as a
      signed value, as Java's (byte), (short), (int) and (long) casts and
      BigInteger.intValue/longValue do. */
  function Narrow(w: Width, n: int): (r: int)
    ensures InWidth(w, r)
    ensures InWidth(w, n) ==> r == n
  {
    match w
    case W8 => (n + 0x80) % 0x100 - 0x80
    case W16 => (n + 0x8000) % 0x1_0000 - 0x8000
    case W32 => (n + 0x8000_0000) % 0x1_0000_0000 - 0x8000_0000
    case W64 => (n + 0x8000_0000_0000_0000) % 0x1_0000_0000_0000_0000 - 0x8000_0000_0000_0000
  }

  /** What narrowing discards is a whole number of moduli. */
  lemma NarrowQuotient(w: Width, n: int) returns (q: int)
    ensures n - Narrow(w, n) == q * Modulus(w)
  {
    q := (n + Half(w)) / Modulus(w);
    match w
    case W8 =>
    case W16 =>
    case W32 =>
    case W64 =>
  }

  /** Narrowing is determined by range and congruence alone: no other value of
      the width differs from n by a whole number of moduli. */
  lemma NarrowUnique(w: Width, n: int, r: int, q: int)
    requires InWidth(w, r)
    requires n - r == q * Modulus(w)
    ensures r == Narrow(w, n)
  {
    var q0 := NarrowQuotient(w, n);
    var p := Narrow(w, n);
    var t := q0 - q;
    assert r - p == t * Modulus(w);
    assert -(Modulus(w) as int) < t * Modulus(w) < Modulus(w);
    SmallMultipleIsZero(t, Modulus(w));
  }

  lemma SmallMultipleIsZero(t: int, m: int)
    requires m > 0
    requires -m < t * m < m
    ensures t == 0
  {
    assert t >= 1 ==> t * m >= m;
    assert t <= -1 ==> t * m <= -m;
  }

  /** Narrowing to a wider width first and then to a narrower one is the same as
      narrowing straight to the narrower one: (short)(int)n == (short)n. */
  lemma NarrowThrough(wide: Width, w: Width, n: int)
    requires NoWider(w, wide)
    ensures Narrow(w, Narrow(wide, n)) == Narrow(w, n)
  {
    var x := Narrow(wide, n);
    var r := Narrow(w, x);
    var a := NarrowQuotient(wide, n);
    var b := NarrowQuotient(w, x);
    var k := ModulusRatio(wide, w);
    var m := Modulus(w);
    Regroup(a, k, b, m);
    NarrowUnique(w, n, r, a * k + b);
  }

  /** A narrower modulus divides a wider one. */
  lemma ModulusRatio(wide: Width, w: Width) returns (k: int)
    requires NoWider(w, wide)
    ensures Modulus(wide) == k * Modulus(w)
  {
    k := Half(wide) / Half(w);
    match w
    case W8 =>
    case W16 =>
    case W32 =>
    case W64 =>
  }

  lemma Regroup(a: int, k: int, b: int, m: int)
    ensures a * (k * m) + b * m == (a * k + b) * m
  {
  }

  function Pow10(n: nat): (r: nat)
    ensures r >= 1
  {
    if n == 0 then 1 else 10 * Pow10(n - 1)
  }

  /** Integer division rounding toward zero, as Java's `/` and
      BigDecimal.toBigInteger do; Dafny's own `/` rounds toward minus infinity
      for a positive divisor. */
  function TruncDiv(a: int, b: int): (q: int)
    requires b > 0
    ensures a >= 0 ==> 0 <= q && b * q <= a < b * (q + 1)
    ensures a < 0 ==> q <= 0 && b * (q - 1) < a <= b * q
  {
    if a >= 0 then DivBounds(a, b); a / b
    else DivBounds(-a, b); -((-a) / b)
  }

  lemma DivBounds(a: int, b: int)
    requires a >= 0 && b > 0
    ensures 0 <= a / b && b * (a / b) <= a < b * (a / b + 1)
  {
    var q := a / b;
    assert a == b * q + a % b;
    assert b * (q + 1) == b * q + b;
  }

  /** java.math.BigDecimal: the number unscaled * 10^(-scale). Two values with the
      same number and different scales are different, as BigDecimal.equals
      says. */
  datatype BigDecimal = BigDecimal(unscaled: int, scale: i32)

  /** BigDecimal.toBigInteger: the integer part, any fraction discarded. */
  function ToBigInteger(d: BigDecimal): (r: int)
    ensures d.scale <= 0 ==> r == d.unscaled * Pow10(-(d.scale as int))
    ensures d.scale > 0 && d.unscaled >= 0 ==>
      0 <= r && r * Pow10(d.scale) <= d.unscaled < (r + 1) * Pow10(d.scale)
    ensures d.scale > 0 && d.unscaled < 0 ==>
      r <= 0 && (r - 1) * Pow10(d.scale) < d.unscaled <= r * Pow10(d.scale)
  {
    if d.scale <= 0 then d.unscaled * Pow10(-(d.scale as int))
    else TruncDiv(d.unscaled, Pow10(d.scale))
  }
}
