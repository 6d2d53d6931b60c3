/** C integers as numbers: 32-bit ranges, powers of two and the bitwise `&`. */
module Numbers {

  type U32 = x: nat | x < 0x1_0000_0000

  type I32 = x: int | -0x8000_0000 <= x < 0x8000_0000

  /** Addition of C `unsigned` values. */
  function Add(x: nat, y: nat): U32 { (x + y) % 0x1_0000_0000 }

  lemma AddIsSum(x: nat, y: nat)
    requires x + y < 0x1_0000_0000
    ensures Add(x, y) == x + y
  {}

  function Pow2(e: nat): (p: nat)
    ensures p > 0
  {
    if e == 0 then 1 else 2 * Pow2(e - 1)
  }

  lemma {:induction false} PowAdd(a: nat, b: nat)
    ensures Pow2(a + b) == Pow2(a) * Pow2(b)
  {
    if a > 0 {
      PowAdd(a - 1, b);
      Assoc(2, Pow2(a - 1), Pow2(b));
      assert a + b - 1 == (a - 1) + b;
    }
  }

  lemma Assoc(a: nat, b: nat, c: nat)
    ensures a * (b * c) == (a * b) * c
  {}

  lemma {:induction false} PowMonotonic(a: nat, b: nat)
    requires a <= b
    ensures Pow2(a) <= Pow2(b)
  {
    if a < b { PowMonotonic(a, b - 1); }
  }

  lemma SmallPowers()
    ensures Pow2(4) == 0x10 && Pow2(7) == 0x80 && Pow2(8) == 0x100
  {
    assert Pow2(1) == 2;
    assert Pow2(2) == 4;
    assert Pow2(3) == 8;
    assert Pow2(4) == 16;
    assert Pow2(5) == 32;
    assert Pow2(6) == 64;
  }

  lemma Powers()
    ensures Pow2(11) == 0x800 && Pow2(16) == 0x1_0000 && Pow2(20) == 0x10_0000
  {
    SmallPowers();
    PowAdd(8, 3);
    PowAdd(8, 8);
    PowAdd(16, 4);
  }

  lemma LargePowers()
    ensures Pow2(30) == 0x4000_0000 && Pow2(52) == 0x10_0000_0000_0000
  {
    SmallPowers();
    Powers();
    PowAdd(8, 2);
    assert Pow2(10) == 0x400;
    PowAdd(20, 10);
    PowAdd(16, 16);
    assert Pow2(32) == 0x1_0000_0000;
    PowAdd(32, 20);
  }

  lemma Multiples(x: int, u: nat)
    requires u > 0
    ensures x >= 1 ==> x * u >= u
    ensures x <= -1 ==> x * u + u <= 0
  {
    if x >= 1 { assert x * u == u + (x - 1) * u; }
    if x <= -1 { assert x * u + u == (x + 1) * u; }
  }

  /** A quotient is known by its remainder. */
  lemma QuotientIs(m: nat, u: nat, k: int, r: nat)
    requires u > 0 && m == k * u + r && r < u
    ensures m / u == k
  {
    var d := k - m / u;
    assert m == u * (m / u) + m % u;
    assert d * u == m % u - r;
    Multiples(d, u);
  }

  // ---------------------------------------------------------------- bitwise and

  /** `x & y`, bit by bit. */
  function And(x: nat, y: nat): nat {
    if x == 0 || y == 0 then 0 else 2 * And(x / 2, y / 2) + (x % 2) * (y % 2)
  }

  lemma AndStep(x: nat, y: nat)
    ensures And(x, y) == 2 * And(x / 2, y / 2) + (x % 2) * (y % 2)
  {}

  /** Half of a number split at an even place. */
  lemma HalfSplit(x: nat, h: nat, q: nat, r: nat)
    requires x == 2 * h * q + r && r < 2 * h
    ensures x / 2 == h * q + r / 2 && r / 2 < h && x % 2 == r % 2
  {
    var z := h * q;
    assert 2 * h * q == 2 * z;
  }

  /** Masking with the `k` low ones, where the low part of the number is `r`. */
  lemma {:induction false} AndLow(x: nat, k: nat, p: nat, q: nat, r: nat)
    requires p == Pow2(k) && x == p * q + r && r < p
    ensures And(x, p - 1) == r
  {
    if k > 0 {
      var h := Pow2(k - 1);
      HalfSplit(x, h, q, r);
      AndLow(x / 2, k - 1, h, q, r / 2);
      AndStep(x, p - 1);
      assert (p - 1) / 2 == h - 1 && (p - 1) % 2 == 1;
    }
  }

  /** A mask moved up `k` places selects from the part of the number above them. */
  lemma {:induction false} AndShift(x: nat, m: nat, k: nat, p: nat, y: nat, q: nat, r: nat)
    requires p == Pow2(k) && y == m * p && x == p * q + r && r < p
    ensures And(x, y) == And(q, m) * p
  {
    if k > 0 {
      var h := Pow2(k - 1);
      var z := m * h;
      Twice(m, h);
      assert y == 2 * z;
      HalfSplit(x, h, q, r);
      AndShift(x / 2, m, k - 1, h, z, q, r / 2);
      AndStep(x, y);
      assert y / 2 == z && y % 2 == 0;
      Twice(And(q, m), h);
    }
  }

  lemma Twice(a: nat, b: nat)
    ensures a * (2 * b) == 2 * (a * b)
  {}

  /** Masking with the `n` ones from place `k` up selects the middle of the number. */
  lemma AndField(x: nat, k: nat, n: nat, p: nat, w: nat, mask: nat, top: nat, middle: nat, low: nat)
    requires p == Pow2(k) && w == Pow2(n) && mask == (w - 1) * p
    requires x == p * (w * top + middle) + low && middle < w && low < p
    ensures And(x, mask) == middle * p
  {
    AndShift(x, w - 1, k, p, mask, w * top + middle, low);
    AndLow(w * top + middle, n, w, top, middle);
  }
}
