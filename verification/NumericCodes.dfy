/**
 * The order-preserving codes of index/numeric.go: 64-bit float patterns and signed
 * integers mapped to unsigned integers, and the bounds computed from them.
 */
module NumericCodes {
  import opened Bytes

  const SIGN := 0x8000_0000_0000_0000
  const MAX_CODE: u64 := 0xffff_ffff_ffff_ffff

  type i64 = n: int | -SIGN <= n < SIGN

  // --- XOR with a constant, as arithmetic --------------------------------------

  /** `u ^ 0x8000000000000000`. */
  function FlipSign(u: u64): u64 {
    if u < SIGN then u + SIGN else u - SIGN
  }

  /** `u ^ 0xffffffffffffffff`. */
  function FlipAll(u: u64): u64 {
    MAX_CODE - u
  }

  /** Machine words agree: toggling the top bit adds it modulo 2^64, toggling all bits subtracts from all ones. */
  lemma XorOnWords(b: bv64)
    ensures b ^ 0x8000_0000_0000_0000 == b + 0x8000_0000_0000_0000
    ensures b ^ 0xffff_ffff_ffff_ffff == 0xffff_ffff_ffff_ffff - b
    ensures b >> 63 == 1 <==> b >= 0x8000_0000_0000_0000
  {
  }

  // --- Floats ------------------------------------------------------------------

  /** `bits` is the IEEE 754 binary64 pattern of the float. */
  function EncodeFloat64(bits: u64): u64 {
    if bits >= SIGN then FlipAll(bits) else FlipSign(bits)
  }

  function DecodeFloat64(u: u64): u64 {
    if u < SIGN then FlipAll(u) else FlipSign(u)
  }

  predicate Negative(bits: u64) { bits >= SIGN }

  function Magnitude(bits: u64): nat { bits % SIGN }

  /** The totalOrder predicate on patterns (section 5.10 of IEEE 754-2019). */
  predicate TotalOrder(x: u64, y: u64) {
    if Negative(x) && Negative(y) then Magnitude(y) <= Magnitude(x)
    else if !Negative(x) && !Negative(y) then Magnitude(x) <= Magnitude(y)
    else Negative(x)
  }

  /** A bijection on patterns that realises totalOrder. */
  lemma FloatCodes(x: u64, y: u64)
    ensures DecodeFloat64(EncodeFloat64(x)) == x
    ensures EncodeFloat64(DecodeFloat64(x)) == x
    ensures EncodeFloat64(x) <= EncodeFloat64(y) <==> TotalOrder(x, y)
  {
  }

  const FRACTION := 0x10_0000_0000_0000 // 2^52
  const INFINITY := 2047 * FRACTION

  /** Every pattern but a NaN. */
  predicate Number(bits: u64) { Magnitude(bits) <= INFINITY }

  function Pow2(n: nat): (p: nat)
    ensures p > 0
  {
    if n == 0 then 1 else 2 * Pow2(n - 1)
  }

  function Product(a: nat, b: nat): nat { a * b }

  /** A magnitude in units of 2^-1074 (section 3.4 of IEEE 754-2019); infinity is the next above all finite ones. */
  function Scaled(magnitude: nat): nat {
    var e: nat, f: nat := magnitude / FRACTION, magnitude % FRACTION;
    if e == 0 then f else Product(FRACTION + f, Pow2(e - 1))
  }

  function Value(bits: u64): int
    requires Number(bits)
  {
    if Negative(bits) then -(Scaled(Magnitude(bits)) as int) else Scaled(Magnitude(bits))
  }

  lemma {:induction false} Pow2Monotone(m: nat, n: nat)
    requires m <= n
    ensures Pow2(m) <= Pow2(n)
    decreases n
  {
    if m < n {
      Pow2Monotone(m, n - 1);
    }
  }

  lemma ProductMonotone(a: nat, b: nat, c: nat, d: nat)
    requires a <= b && c <= d
    ensures Product(a, c) <= Product(b, d)
  {
    assert a * c <= b * c <= b * d;
  }

  lemma ProductStrict(a: nat, b: nat, c: nat)
    requires a < b && 0 < c
    ensures Product(a, c) < Product(b, c)
  {
  }

  /** Magnitudes are ordered by value, across every exponent boundary. */
  lemma ScaledMonotone(m: nat, n: nat)
    requires m < n
    ensures Scaled(m) < Scaled(n)
  {
    var e, f := m / FRACTION, m % FRACTION;
    var e', f' := n / FRACTION, n % FRACTION;
    if e == e' {
      if e > 0 { ProductStrict(FRACTION + f, FRACTION + f', Pow2(e - 1)); }
    } else if e == 0 {
      ProductMonotone(FRACTION, FRACTION + f', 1, Pow2(e' - 1));
    } else {
      ProductStrict(FRACTION + f, 2 * FRACTION, Pow2(e - 1));
      assert Product(2 * FRACTION, Pow2(e - 1)) == Product(FRACTION, Pow2(e));
      Pow2Monotone(e, e' - 1);
      ProductMonotone(FRACTION, FRACTION + f', Pow2(e), Pow2(e' - 1));
    }
  }

  lemma FirstBinades(m: nat)
    requires m <= 2 * FRACTION
    ensures Scaled(m) == m
  {
    var e, f := m / FRACTION, m % FRACTION;
    assert Pow2(0) == 1 && Pow2(1) == 2;
    if e == 1 {
      assert Product(FRACTION + f, 1) == m;
    } else if e == 2 {
      assert Product(FRACTION, 2) == m;
    }
  }

  lemma NextBinade(m: nat)
    requires m >= FRACTION
    ensures Scaled(m + FRACTION) == 2 * Scaled(m)
  {
    var e, f := m / FRACTION, m % FRACTION;
    assert (m + FRACTION) / FRACTION == e + 1 && (m + FRACTION) % FRACTION == f;
    DoubledProduct(FRACTION + f, Pow2(e - 1));
  }

  lemma DoubledProduct(a: nat, b: nat)
    ensures Product(a, 2 * b) == 2 * Product(a, b)
  {
  }

  /** The laws of IEEE 754 values: equal steps up to the second binade, each further one twice the last, and a sign. */
  lemma BinadesDouble(bits: u64)
    ensures Number(bits) <==> bits <= 0x7ff0_0000_0000_0000 || 0x8000_0000_0000_0000 <= bits <= 0xfff0_0000_0000_0000
    ensures bits <= 0x20_0000_0000_0000 ==> Value(bits) == bits
    ensures 0x10_0000_0000_0000 <= bits <= 0x7fe0_0000_0000_0000 ==>
              Value(bits + 0x10_0000_0000_0000) == 2 * Value(bits)
    ensures bits < 0x8000_0000_0000_0000 && Number(bits) ==> Value(bits + 0x8000_0000_0000_0000) == -Value(bits)
  {
    hide Scaled;
    if bits <= 2 * FRACTION {
      FirstBinades(bits);
    }
    if FRACTION <= bits {
      NextBinade(bits);
    }
  }

  const PLUS_ZERO: u64 := 0
  const MINUS_ZERO: u64 := 0x8000_0000_0000_0000

  /**
   * The codes of floats compare like their values, except that minus zero lies
   * below zero; so a bound of zero does not select an entry of minus zero from below.
   */
  lemma FloatOrderIsValueOrder(x: u64, y: u64)
    requires Number(x) && Number(y)
    ensures (EncodeFloat64(x) <= EncodeFloat64(y) <==> Value(x) <= Value(y))
            <==> !(x == PLUS_ZERO && y == MINUS_ZERO)
  {
    var m, n := Magnitude(x), Magnitude(y);
    assert x == m + (if Negative(x) then SIGN else 0) && y == n + (if Negative(y) then SIGN else 0);
    assert Scaled(0) == 0;
    hide Scaled, Magnitude;
    if m > 0 { ScaledMonotone(0, m); }
    if n > 0 { ScaledMonotone(0, n); }
    if m < n { ScaledMonotone(m, n); }
    if n < m { ScaledMonotone(n, m); }
  }

  // --- Integers ----------------------------------------------------------------

  function EncodeInt64(v: i64): u64 {
    FlipSign(if v < 0 then v + U64_LIMIT else v)
  }

  function DecodeInt64(u: u64): i64 {
    var w := FlipSign(u);
    if w < SIGN then w else w - U64_LIMIT
  }

  lemma IntCodes(v: i64, w: i64, u: u64)
    ensures DecodeInt64(EncodeInt64(v)) == v
    ensures EncodeInt64(DecodeInt64(u)) == u
    ensures EncodeInt64(v) <= EncodeInt64(w) <==> v <= w
  {
  }

  // --- Bounds ------------------------------------------------------------------

  function Increment(u: u64): u64 { (u + 1) % U64_LIMIT }

  function Decrement(u: u64): u64 { (u + U64_LIMIT - 1) % U64_LIMIT }

  predicate InCodeRange(c: u64, lo: u64, hi: u64) { lo <= c <= hi }

  /** A conversion of a float to an integer drops the fraction. */
  function Truncate(v: real): int {
    if v >= 0.0 then v.Floor else -((-v).Floor)
  }

  predicate Whole(v: real) { v == v.Floor as real }

  lemma WholeOfNegation(v: real)
    ensures Whole(-v) <==> Whole(v)
    ensures Whole(v) ==> (-v).Floor == -v.Floor
    ensures !Whole(v) ==> (-v).Floor == -v.Floor - 1
  {
    var n := v.Floor;
    if Whole(v) {
      assert -v == (-n) as real;
    } else {
      assert n as real < v < (n + 1) as real;
      assert (-n - 1) as real < -v < (-n) as real;
    }
  }
}
