/** Machine words as sets of bit numbers: `x & y` is `x * y`, `x | y` is `x + y`,
    `x & ~y` is `x - y`. */
module Words {
  import opened Numbers

  type Word16 = w: set<nat> | forall b | b in w :: b < 16 witness {}

  type Word32 = w: set<nat> | forall b | b in w :: b < 32 witness {}

  /** All 32 bits, the value -1. */
  const ONES: Word32 := set b: nat | b < 32

  const ONES16: Word16 := set b: nat | b < 16

  function Lo16(x: Word32): Word16 { set b | b in x && b < 16 }

  function Hi16(x: Word32): (y: Word16)
    ensures forall b: nat :: b in y <==> b + 16 in x
  {
    set b | b in x && b >= 16 :: b - 16
  }

  function Shl(x: Word32, k: nat): (y: Word32)
    ensures forall b: nat :: b in y <==> k <= b < 32 && b - k in x
  {
    set b | b in x && b + k < 32 :: b + k
  }

  function Shr(x: Word32, k: nat): (y: Word32)
    ensures forall b: nat :: b in y <==> b + k in x
  {
    set b | b in x && b >= k :: b - k
  }

  function Flip(x: Word32, bit: nat): Word32
    requires bit < 32
  {
    if bit in x then x - {bit} else x + {bit}
  }

  // ---------------------------------------------------------------- words and numbers

  /** The bits of a number. */
  function Bits(n: U32): Word32 { set b: nat | b < 32 && n / Pow2(b) % 2 == 1 }

  /** Four and eight bits from place `k` on, as numbers. */
  function Four(w: Word32, k: nat): nat {
    (if k in w then 1 else 0) + (if k + 1 in w then 2 else 0) +
    (if k + 2 in w then 4 else 0) + (if k + 3 in w then 8 else 0)
  }

  function Eight(w: Word32, k: nat): nat { Four(w, k) + 16 * Four(w, k + 4) }

  /** The number that a word is. */
  function Number(w: Word32): nat {
    Eight(w, 0) + 0x100 * Eight(w, 8) + 0x1_0000 * Eight(w, 16) + 0x100_0000 * Eight(w, 24)
  }

  lemma EightSame(w: Word32, k: nat, x: Word32, j: nat)
    requires forall b: nat | k <= b < k + 8 :: b in w <==> b - k + j in x
    ensures Eight(w, k) == Eight(x, j)
  {}

  lemma EightNone(w: Word32, k: nat)
    requires forall b | b in w :: !(k <= b < k + 8)
    ensures Eight(w, k) == 0
  {}

  lemma NumberIs(w: Word32, a: nat, b: nat, c: nat, d: nat)
    requires Eight(w, 0) == a && Eight(w, 8) == b && Eight(w, 16) == c && Eight(w, 24) == d
    ensures Number(w) == a + 0x100 * b + 0x1_0000 * c + 0x100_0000 * d
  {}

  lemma NumberOfLow(w: Word16, low: nat, high: nat)
    requires low == Eight(w, 0) && high == Eight(w, 8)
    ensures Number(w) == 0x100 * high + low
  {}

  /** A word with bits in one byte only. */
  lemma NumberOfByte(w: Word32, k: nat, n: nat)
    requires k == 0 || k == 8 || k == 16 || k == 24
    requires (forall b | b in w :: k <= b < k + 8) && Eight(w, k) == n
    ensures Number(w) == (if k == 0 then 1 else if k == 8 then 0x100 else if k == 16 then 0x1_0000 else 0x100_0000) * n
  {
    if k != 0 { EightNone(w, 0); }
    if k != 8 { EightNone(w, 8); }
    if k != 16 { EightNone(w, 16); }
    if k != 24 { EightNone(w, 24); }
  }

  /** The bits of a number are that number. */
  lemma BitsNumber(n: U32)
    ensures Number(Bits(n)) == n
  {
    SmallPowers();
    Powers();
    PowAdd(16, 8);
    EightBits(n, 0, n);
    EightBits(n, 8, n / 0x100);
    EightBits(n, 16, n / 0x1_0000);
    EightBits(n, 24, n / 0x100_0000);
    FourBytes(n);
  }

  lemma FourBytes(n: U32)
    ensures n == n % 256 + 0x100 * (n / 0x100 % 256) + 0x1_0000 * (n / 0x1_0000 % 256)
                 + 0x100_0000 * (n / 0x100_0000 % 256)
  {}

  lemma EightBits(n: U32, k: nat, q: nat)
    requires k <= 24 && q == n / Pow2(k)
    ensures Eight(Bits(n), k) == q % 256
  {
    var q2 := FourBits(n, k, q);
    var q4 := FourBits(n, k + 4, q2);
    LowByteIs(q, q4, Four(Bits(n), k), Four(Bits(n), k + 4));
  }

  lemma LowByteIs(q: nat, rest: nat, low: nat, high: nat)
    requires q == 16 * (16 * rest + high) + low && low < 16 && high < 16
    ensures q % 256 == low + 16 * high
  {}

  lemma FourBits(n: U32, k: nat, q: nat) returns (rest: nat)
    requires k <= 28 && q == n / Pow2(k)
    ensures rest == n / Pow2(k + 4)
    ensures q == 16 * rest + Four(Bits(n), k)
  {
    var q1 := NextBit(n, k, q);
    var q2 := NextBit(n, k + 1, q1);
    var q3 := NextBit(n, k + 2, q2);
    rest := NextBit(n, k + 3, q3);
  }

  lemma NextBit(n: U32, k: nat, q: nat) returns (rest: nat)
    requires k < 32 && q == n / Pow2(k)
    ensures rest == n / Pow2(k + 1)
    ensures q == 2 * rest + (if k in Bits(n) then 1 else 0)
  {
    HalfQuotient(n, Pow2(k));
    rest := q / 2;
  }

  lemma HalfQuotient(x: nat, p: nat)
    requires p > 0
    ensures x / (2 * p) == x / p / 2
  {
    var q := x / p;
    var h, b, r := q / 2, q % 2, x % p;
    assert x == p * q + r;
    assert p * q == h * (2 * p) + p * b by { assert q == 2 * h + b; }
    assert p * b + r < 2 * p;
    QuotientIs(x, 2 * p, h, p * b + r);
  }
}
