/** Recognising a double that is exactly a small integer: `js_NewNumberValue` of
    `jsnumexception.c`, over the bit layout of `ieee754.h`. */
module JsNumber {
  import opened Numbers

  // ---------------------------------------------------------------- the format

  /** A double as the program sees it: two 32-bit words, the low one first. */
  datatype Double = Double(lo: U32, hi: U32)

  /** The `ieee` view of `union ieee754_double`. */
  datatype Ieee = Ieee(negative: nat, exponent: nat, mantissa0: nat, mantissa1: nat)

  const BIAS := 0x3ff

  predicate InRange(f: Ieee) {
    f.negative < 2 && f.exponent < 0x800 && f.mantissa0 < 0x10_0000 && f.mantissa1 < 0x1_0000_0000
  }

  function Unpack(d: Double): (f: Ieee)
    ensures InRange(f)
  {
    Ieee(d.hi / 0x10_0000 / 0x800, d.hi / 0x10_0000 % 0x800, d.hi % 0x10_0000, d.lo)
  }

  function Pack(f: Ieee): Double
    requires InRange(f)
  {
    Double(f.mantissa1, (f.negative * 0x800 + f.exponent) * 0x10_0000 + f.mantissa0)
  }

  /** The two views of the union are in one-to-one correspondence. */
  lemma PackUnpack(d: Double, f: Ieee)
    ensures Pack(Unpack(d)) == d
    ensures InRange(f) ==> Unpack(Pack(f)) == f
  {
    if InRange(f) { Fields(f.negative, f.exponent, f.mantissa0); }
  }

  lemma Fields(negative: nat, exponent: nat, mantissa: nat)
    requires exponent < 0x800 && mantissa < 0x10_0000
    ensures var hi := (negative * 0x800 + exponent) * 0x10_0000 + mantissa;
            hi / 0x10_0000 == negative * 0x800 + exponent && hi % 0x10_0000 == mantissa
    ensures (negative * 0x800 + exponent) / 0x800 == negative && (negative * 0x800 + exponent) % 0x800 == exponent
  {}

  function Significand(f: Ieee): nat {
    f.mantissa0 * 0x1_0000_0000 + f.mantissa1 + (if f.exponent > 0 then 0x10_0000_0000_0000 else 0)
  }

  /** The exact magnitude in units of 2 to the -1074, the least positive double
      (section 3.4 of IEEE 754-2008): a whole number for every finite pattern. */
  function Magnitude(f: Ieee): nat {
    Significand(f) * Pow2(if f.exponent > 0 then f.exponent - 1 else 0)
  }

  /** How many such units make one. */
  function One(): nat { Pow2(BIAS + 51) }

  function Scaled(f: Ieee): int {
    var m: int := Magnitude(f);
    if f.negative == 1 then -m else m
  }

  predicate Finite(f: Ieee) { f.exponent != 0x7ff }

  predicate NegativeZero(f: Ieee) { f == Ieee(1, 0, 0, 0) }

  /** The pattern denotes exactly the integer `n`. */
  predicate Denotes(d: Double, n: int) {
    Finite(Unpack(d)) && Scaled(Unpack(d)) == n * One()
  }

  // ---------------------------------------------------------------- values of patterns

  lemma HighWord(sign: nat, exponent: nat, mantissa0: nat, lo: U32)
    requires sign < 2 && exponent < 0x800 && mantissa0 < 0x10_0000
    ensures var hi := sign * 0x8000_0000 + exponent * 0x10_0000 + mantissa0;
            hi < 0x1_0000_0000 && Unpack(Double(lo, hi)) == Ieee(sign, exponent, mantissa0, lo)
  {
    Fields(sign, exponent, mantissa0);
  }

  lemma PatternIs(d: Double, f: Ieee, n: nat, x: int)
    requires InRange(f) && Finite(f) && Magnitude(f) == n * One()
    requires d.hi == f.negative * 0x8000_0000 + f.exponent * 0x10_0000 + f.mantissa0 && d.lo == f.mantissa1
    requires x == if f.negative == 1 then 0 - n else n
    ensures Denotes(d, x)
  {
    HighWord(f.negative, f.exponent, f.mantissa0, d.lo);
    Opposite(x, n, One());
  }

  /** The pattern 0x3ff00000:00000000 is 1, each step of the exponent field doubles it,
      and the top bit is the sign. */
  lemma PowerOfTwoPattern(k: nat)
    requires k <= 1023
    ensures Denotes(Double(0, 0x3ff0_0000 + k * 0x10_0000), Pow2(k))
    ensures Denotes(Double(0, 0xbff0_0000 + k * 0x10_0000), 0 - Pow2(k))
  {
    PowerPattern(Double(0, 0x3ff0_0000 + k * 0x10_0000), 0, k, Pow2(k));
    PowerPattern(Double(0, 0xbff0_0000 + k * 0x10_0000), 1, k, 0 - Pow2(k));
  }

  lemma PowerPattern(d: Double, sign: nat, k: nat, x: int)
    requires sign < 2 && k <= 1023 && x == if sign == 1 then 0 - Pow2(k) else Pow2(k)
    requires d.lo == 0 && d.hi == sign * 0x8000_0000 + (1023 + k) * 0x10_0000
    ensures Denotes(d, x)
  {
    PowerMagnitude(sign, k);
    PatternIs(d, Ieee(sign, 1023 + k, 0, 0), Pow2(k), x);
  }

  lemma PowerMagnitude(sign: nat, k: nat)
    ensures Magnitude(Ieee(sign, 1023 + k, 0, 0)) == Pow2(k) * One()
  {
    UnitPower(k);
  }

  lemma UnitPower(k: nat)
    ensures 0x10_0000_0000_0000 * Pow2(1022 + k) == Pow2(k) * One()
  {
    LargePowers();
    PowAdd(52, 1022 + k);
    PowAdd(k, BIAS + 51);
  }

  /** With the exponent field 0x433 the 52 bits of mantissa are the low bits of an
      integer, the high word's part above the low word's. */
  lemma WholePattern(lo: U32, mantissa0: nat)
    requires mantissa0 < 0x10_0000
    ensures var n := 0x10_0000_0000_0000 + mantissa0 * 0x1_0000_0000 + lo;
            Denotes(Double(lo, 0x4330_0000 + mantissa0), n) && Denotes(Double(lo, 0xc330_0000 + mantissa0), -n)
  {
    var n := 0x10_0000_0000_0000 + mantissa0 * 0x1_0000_0000 + lo;
    PatternIs(Double(lo, 0x4330_0000 + mantissa0), Ieee(0, 0x433, mantissa0, lo), n, n);
    PatternIs(Double(lo, 0xc330_0000 + mantissa0), Ieee(1, 0x433, mantissa0, lo), n, -n);
  }

  /** Of two patterns that differ by one in the exponent field, the larger is twice the
      other; below the least exponent only the leading bit goes. */
  lemma NextExponent(f: Ieee)
    ensures f.exponent > 0 ==> Magnitude(f.(exponent := f.exponent + 1)) == 2 * Magnitude(f)
    ensures f.exponent == 0 ==> Magnitude(f.(exponent := 1)) == Magnitude(f) + 0x10_0000_0000_0000
  {
    if f.exponent > 0 { Twice(Significand(f), Pow2(f.exponent - 1)); }
  }

  // ---------------------------------------------------------------- the macros

  const SIGNBIT := 0x8000_0000
  const EXPMASK := 0x7ff0_0000
  const JSVAL_INT_MAX := 0x3fff_ffff

  predicate IsFinite(d: Double) { And(d.hi, EXPMASK) != EXPMASK }

  predicate IsNegZero(d: Double) { d.hi == SIGNBIT && d.lo == 0 }

  /** The bit tests decide the classes of the format. */
  lemma BitTests(d: Double)
    ensures IsFinite(d) <==> Finite(Unpack(d))
    ensures IsNegZero(d) <==> NegativeZero(Unpack(d))
  {
    ExponentBits(d.hi);
    SignBit(d.hi);
  }

  lemma SignBit(hi: U32)
    ensures hi == SIGNBIT <==> hi / 0x10_0000 / 0x800 == 1 && hi / 0x10_0000 % 0x800 == 0 && hi % 0x10_0000 == 0
  {
    var top := hi / 0x10_0000;
    assert hi == top * 0x10_0000 + hi % 0x10_0000 && top == top / 0x800 * 0x800 + top % 0x800;
  }

  /** The mask selects the exponent field. */
  lemma ExponentBits(hi: U32)
    ensures And(hi, EXPMASK) == hi / 0x10_0000 % 0x800 * 0x10_0000
  {
    Powers();
    var top := hi / 0x10_0000;
    AndField(hi, 20, 11, 0x10_0000, 0x800, EXPMASK, top / 0x800, top % 0x800, hi % 0x10_0000);
  }

  /** A finite double without its fraction. */
  function Truncated(d: Double): int {
    var whole: int := Magnitude(Unpack(d)) / One();
    if Unpack(d).negative == 1 then -whole else whole
  }

  /** That is towards zero: the whole part of the magnitude, with the sign. */
  lemma TruncatedIs(d: Double)
    ensures var m, t := Magnitude(Unpack(d)), Truncated(d);
            && WholePart(if t < 0 then 0 - t else t, m, One())
            && (t > 0 ==> Scaled(Unpack(d)) > 0) && (t < 0 ==> Scaled(Unpack(d)) < 0)
  {
    DivisionIs(Magnitude(Unpack(d)), One(), Magnitude(Unpack(d)) / One());
  }

  predicate WholePart(q: nat, m: nat, u: nat) { q * u <= m < (q + 1) * u }

  lemma DivisionIs(m: nat, u: nat, q: int)
    requires u > 0 && q == m / u
    ensures q >= 0 && WholePart(q, m, u) && (q > 0 ==> m > 0)
  {
    assert m == u * q + m % u;
    assert (q + 1) * u == q * u + u;
  }

  /** `(jsint)d`: the conversion of a value outside the range of `int` is not defined
      by C, so it gives whatever `other` is. */
  function Cast(d: Double, other: I32): I32 {
    if -0x8000_0000 <= Truncated(d) < 0x8000_0000 then Truncated(d) else other
  }

  /** `INT_FITS_IN_JSVAL(i)`: the sum and the product wrap around at 32 bits. */
  predicate Fits(i: I32) {
    (i + JSVAL_INT_MAX) % 0x1_0000_0000 <= 2 * JSVAL_INT_MAX % 0x1_0000_0000
  }

  /** The wrapped range test is the plain one. */
  lemma FitsIs(i: I32)
    ensures Fits(i) <==> -JSVAL_INT_MAX <= i <= JSVAL_INT_MAX
    ensures Fits(i) <==> -0x3fff_ffff <= i <= 0x3fff_ffff
  {}

  /** Comparing with the truncation recognises integers and nothing else, whatever an
      out-of-range conversion gives. */
  lemma CastEqual(d: Double, other: I32)
    requires Finite(Unpack(d))
    ensures Denotes(d, Cast(d, other)) <==> exists n: I32 :: Denotes(d, n)
    ensures forall n: I32 :: Denotes(d, n) ==> n == Cast(d, other)
  {
    forall n: I32 | Denotes(d, n) ensures n == Cast(d, other) {
      DenotesTruncated(d, n);
    }
  }

  lemma DenotesTruncated(d: Double, n: int)
    requires Denotes(d, n)
    ensures Truncated(d) == n
  {
    var u, m := One(), Magnitude(Unpack(d));
    Multiples(n, u);
    if Unpack(d).negative == 1 {
      assert (-n) * u == m;
      QuotientIs(m, u, -n, 0);
    } else {
      QuotientIs(m, u, n, 0);
    }
  }

  /** The pattern denotes an integer of magnitude at most 2^30 - 1. */
  ghost predicate DenotesSmall(d: Double) {
    exists n :: -JSVAL_INT_MAX <= n <= JSVAL_INT_MAX && Denotes(d, n)
  }

  /** `js_NewNumberValue`: succeeds exactly on the integers that fit, negative zero
      excepted, and stores the integer. */
  method NewNumberValue(d: Double, other: I32) returns (ok: bool, rval: I32)
    ensures ok <==> !NegativeZero(Unpack(d)) && DenotesSmall(d)
    ensures ok ==> Denotes(d, rval) && -JSVAL_INT_MAX <= rval <= JSVAL_INT_MAX
    ensures !ok ==> rval == if IsFinite(d) && !IsNegZero(d) then Cast(d, other) else -1
  {
    BitTests(d);
    var i: I32 := -1;
    if IsFinite(d) && !IsNegZero(d) {
      i := Cast(d, other);
      CastEqual(d, other);
      FitsIs(i);
      if Scaled(Unpack(d)) == i * One() && Fits(i) {
        return true, i;
      }
    }
    return false, i;
  }

  // ---------------------------------------------------------------- one pattern per integer

  lemma SignificandRange(f: Ieee)
    requires InRange(f)
    ensures f.exponent > 0 ==> 0x10_0000_0000_0000 <= Significand(f) < 0x20_0000_0000_0000
    ensures f.exponent == 0 ==> Significand(f) < 0x10_0000_0000_0000
  {}

  /** A larger exponent is a larger magnitude, whatever the mantissas. */
  lemma ExponentOrders(f: Ieee, g: Ieee)
    requires InRange(f) && InRange(g) && f.exponent < g.exponent
    ensures Magnitude(f) < Magnitude(g)
  {
    SignificandRange(f);
    SignificandRange(g);
    var pf := Pow2(if f.exponent > 0 then f.exponent - 1 else 0);
    var pg := Pow2(g.exponent - 1);
    if f.exponent > 0 {
      PowMonotonic(f.exponent, g.exponent - 1);
      assert 2 * pf <= pg;
      MulLess(Significand(f), 0x20_0000_0000_0000, pf);
      MulAtMost(2 * pf, pg, 0x10_0000_0000_0000);
      MulAtLeast(Significand(g), 0x10_0000_0000_0000, pg);
    } else {
      MulAtLeast(Significand(g), 0x10_0000_0000_0000, pg);
    }
  }

  lemma MulLess(a: nat, b: nat, p: nat)
    requires a < b && p > 0
    ensures a * p < b * p
  {}

  lemma MulAtMost(p: nat, q: nat, k: nat)
    requires p <= q
    ensures k * p <= k * q
  {}

  lemma MulAtLeast(a: nat, b: nat, p: nat)
    requires a >= b
    ensures a * p >= b * p
  {}

  /** The value determines the pattern, the two zeros apart. */
  lemma ValueDetermines(f: Ieee, g: Ieee)
    requires InRange(f) && InRange(g) && Scaled(f) == Scaled(g)
    requires !NegativeZero(f) && !NegativeZero(g)
    ensures f == g
  {
    assert Magnitude(f) == Magnitude(g);
    if f.exponent < g.exponent {
      ExponentOrders(f, g);
    } else if g.exponent < f.exponent {
      ExponentOrders(g, f);
    }
    var p := Pow2(if f.exponent > 0 then f.exponent - 1 else 0);
    Cancel(Significand(f), Significand(g), p);
    SameHalves(f, g);
    ZeroMagnitude(f);
  }

  lemma Cancel(a: nat, b: nat, p: nat)
    requires p > 0 && a * p == b * p
    ensures a == b
  {}

  lemma SameHalves(f: Ieee, g: Ieee)
    requires InRange(f) && InRange(g) && f.exponent == g.exponent && Significand(f) == Significand(g)
    ensures f.mantissa0 == g.mantissa0 && f.mantissa1 == g.mantissa1
  {}

  lemma ZeroMagnitude(f: Ieee)
    requires InRange(f)
    ensures Magnitude(f) == 0 ==> f.exponent == 0 && f.mantissa0 == 0 && f.mantissa1 == 0
  {}

  /** The position of the leading bit. */
  function Leading(n: nat): (e: nat)
    requires n > 0
    ensures Pow2(e) <= n < 2 * Pow2(e)
  {
    if n == 1 then 0 else 1 + Leading(n / 2)
  }

  /** The bits after the leading one, moved up to the 52-bit mantissa field. */
  function Fraction(k: nat): nat
    requires k > 0
  {
    if Leading(k) <= 52 then Product(k - Pow2(Leading(k)), Pow2(52 - Leading(k))) else 0
  }

  function Product(a: nat, b: nat): nat {
    assert a * b >= 0;
    a * b
  }

  /** An integer as a normalised sign, exponent and mantissa. */
  function Encode(n: int): Ieee
    requires -JSVAL_INT_MAX <= n <= JSVAL_INT_MAX
  {
    if n == 0 then Ieee(0, 0, 0, 0)
    else
      var k := if n < 0 then -n else n;
      Ieee(if n < 0 then 1 else 0, BIAS + Leading(k), Fraction(k) / 0x1_0000_0000, Fraction(k) % 0x1_0000_0000)
  }

  lemma LeadingBound(k: nat)
    requires 0 < k <= JSVAL_INT_MAX
    ensures Leading(k) < 30
  {
    LargePowers();
    if Leading(k) >= 30 { PowMonotonic(30, Leading(k)); }
  }

  lemma Shifted(k: nat, p: nat, q: nat, top: nat)
    requires p <= k < 2 * p && p * q == top && q > 0
    ensures (k - p) * q + top == k * q && (k - p) * q < top
  {}

  lemma FractionIs(k: nat)
    requires 0 < k <= JSVAL_INT_MAX
    ensures Leading(k) < 30 && Fraction(k) < 0x10_0000_0000_0000
    ensures Fraction(k) + 0x10_0000_0000_0000 == k * Pow2(52 - Leading(k))
  {
    var e := Leading(k);
    LeadingBound(k);
    assert Pow2(e) * Pow2(52 - e) == 0x10_0000_0000_0000 by {
      PowAdd(e, 52 - e);
      LargePowers();
    }
    Shifted(k, Pow2(e), Pow2(52 - e), 0x10_0000_0000_0000);
  }

  lemma EncodedMagnitude(k: nat, e: nat, f: Ieee)
    requires e <= 52 && f.exponent == BIAS + e && Significand(f) == k * Pow2(52 - e)
    ensures Magnitude(f) == k * One()
  {
    var p, q := Pow2(52 - e), Pow2(BIAS + e - 1);
    assert p * q == One() by {
      PowAdd(52 - e, BIAS + e - 1);
      assert 52 - e + (BIAS + e - 1) == BIAS + 51;
    }
    Assoc(k, p, q);
  }

  lemma EncodedRange(k: nat)
    requires 0 < k <= JSVAL_INT_MAX
    ensures Fraction(k) / 0x1_0000_0000 < 0x10_0000 && BIAS + Leading(k) < 0x7ff
    ensures Fraction(k) / 0x1_0000_0000 * 0x1_0000_0000 + Fraction(k) % 0x1_0000_0000 == Fraction(k)
  {
    FractionIs(k);
  }

  lemma EncodedIs(n: int, k: nat)
    requires 0 < k <= JSVAL_INT_MAX && (n == k || n + k == 0)
    ensures InRange(Encode(n)) && Finite(Encode(n)) && Scaled(Encode(n)) == n * One()
  {
    EncodedRange(k);
    FractionIs(k);
    EncodedMagnitude(k, Leading(k), Encode(n));
    Opposite(n, k, One());
  }

  lemma Opposite(n: int, k: nat, u: nat)
    requires n == k || n + k == 0
    ensures n * u == k * u || n * u + k * u == 0
    ensures n + k == 0 ==> n * u + k * u == 0
    ensures n == k ==> n * u == k * u
  {}

  /** The round trip: encoding an integer that fits gives a pattern that denotes it. */
  lemma EncodeDenotes(n: int)
    requires -JSVAL_INT_MAX <= n <= JSVAL_INT_MAX
    ensures InRange(Encode(n)) && Denotes(Pack(Encode(n)), n) && !NegativeZero(Encode(n))
  {
    var f := Encode(n);
    if n != 0 {
      EncodedIs(n, if n < 0 then -n else n);
    }
    assert InRange(f) && Finite(f) && Scaled(f) == n * One();
    Transport(f, n);
  }

  /** The round trip as a run: the recogniser accepts the encoded integer and gives it
      back. */
  method RecogniseEncoded(n: int, other: I32) returns (ok: bool, rval: I32)
    requires -JSVAL_INT_MAX <= n <= JSVAL_INT_MAX
    ensures ok && rval == n
  {
    EncodedIsSmall(n);
    var d := Pack(Encode(n));
    ok, rval := NewNumberValue(d, other);
    OneInteger(n, rval);
  }

  lemma EncodedIsSmall(n: int)
    requires -JSVAL_INT_MAX <= n <= JSVAL_INT_MAX
    ensures InRange(Encode(n)) && DenotesSmall(Pack(Encode(n))) && !NegativeZero(Unpack(Pack(Encode(n))))
  {
    EncodeDenotes(n);
    PackUnpack(Double(0, 0), Encode(n));
  }

  /** The encoded pattern denotes no other integer. */
  lemma OneInteger(n: int, k: int)
    requires -JSVAL_INT_MAX <= n <= JSVAL_INT_MAX && InRange(Encode(n)) && Denotes(Pack(Encode(n)), k)
    ensures n == k
  {
    EncodeDenotes(n);
    DenotesTruncated(Pack(Encode(n)), n);
    DenotesTruncated(Pack(Encode(n)), k);
  }

  lemma Transport(f: Ieee, n: int)
    requires InRange(f) && Finite(f) && Scaled(f) == n * One()
    ensures Denotes(Pack(f), n)
  {
    PackUnpack(Double(0, 0), f);
  }

  /** Exactly one pattern is accepted for each integer that fits, and it is the encoded
      one: accepting is a bijection onto the range. */
  lemma ExactlyOnePattern(n: int, d: Double)
    requires -JSVAL_INT_MAX <= n <= JSVAL_INT_MAX
    ensures InRange(Encode(n))
    ensures Denotes(d, n) && !IsNegZero(d) <==> d == Pack(Encode(n))
  {
    EncodeDenotes(n);
    BitTests(d);
    PackUnpack(d, Encode(n));
    if Denotes(d, n) && !IsNegZero(d) {
      ValueDetermines(Unpack(d), Encode(n));
    }
  }
}
