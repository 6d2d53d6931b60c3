/** The byte-order macros of `db.h`, which rewrite memory a byte at a time. */
module ByteSwap {

  type Byte = x: nat | x < 256

  function Reversed(s: seq<Byte>): (r: seq<Byte>)
    ensures |r| == |s|
    ensures forall i | 0 <= i < |s| :: r[i] == s[|s| - 1 - i]
  {
    seq(|s|, i requires 0 <= i < |s| => s[|s| - 1 - i])
  }

  /** The number a little-endian machine reads from these bytes. */
  function Little(s: seq<Byte>): nat {
    if s == [] then 0 else s[0] + 256 * Little(s[1..])
  }

  /** The number a big-endian machine reads from them. */
  function Big(s: seq<Byte>): nat {
    if s == [] then 0 else 256 * Big(s[..|s| - 1]) + s[|s| - 1]
  }

  /** Two and four bytes, written out. */
  lemma LittleIs(a: Byte, b: Byte, c: Byte, d: Byte)
    ensures Little([a, b]) == a + 0x100 * b
    ensures Little([a, b, c, d]) == a + 0x100 * b + 0x1_0000 * c + 0x100_0000 * d
  {
    LittleCons(d, []);
    LittleCons(c, [d]);
    LittleCons(b, [c, d]);
    LittleCons(a, [b, c, d]);
    LittleCons(b, []);
    LittleCons(a, [b]);
  }

  lemma LittleCons(a: Byte, rest: seq<Byte>)
    ensures Little([a] + rest) == a + 0x100 * Little(rest)
  {
    assert ([a] + rest)[1..] == rest;
  }

  /** Reversed bytes read in the other order: this is what a swap is for. */
  lemma {:induction false} ReversedReads(s: seq<Byte>)
    ensures Little(Reversed(s)) == Big(s)
  {
    if s != [] {
      var init := s[..|s| - 1];
      ReversedReads(init);
      assert Reversed(s)[1..] == Reversed(init);
    }
  }

  /** The bytes of a word in memory. */
  function Word(mem: seq<Byte>, p: nat, width: nat): seq<Byte>
    requires p + width <= |mem|
  {
    mem[p..p + width]
  }

  /** Memory outside the word at `p` is as it was. */
  predicate SameOutside(mem: seq<Byte>, was: seq<Byte>, p: nat, width: nat) {
    |mem| == |was| && forall i | 0 <= i < |was| && !(p <= i < p + width) :: mem[i] == was[i]
  }

  /** `M_32_SWAP` and `P_32_SWAP`. */
  method Swap32(mem: array<Byte>, p: nat)
    requires p + 4 <= mem.Length
    modifies mem
    ensures Word(mem[..], p, 4) == Reversed(Word(old(mem[..]), p, 4))
    ensures SameOutside(mem[..], old(mem[..]), p, 4)
  {
    var t0, t1, t2, t3 := mem[p], mem[p + 1], mem[p + 2], mem[p + 3];
    mem[p] := t3;
    mem[p + 1] := t2;
    mem[p + 2] := t1;
    mem[p + 3] := t0;
    assert Word(mem[..], p, 4) == [t3, t2, t1, t0];
    assert Word(old(mem[..]), p, 4) == [t0, t1, t2, t3];
  }

  /** `P_32_COPY(a, b)`, byte by byte. Where the two words overlap, an early store can
      change a byte that a later one reads, so they are kept apart. */
  method Copy32(mem: array<Byte>, a: nat, b: nat)
    requires a + 4 <= mem.Length && b + 4 <= mem.Length && (a + 4 <= b || b + 4 <= a)
    modifies mem
    ensures Word(mem[..], b, 4) == Reversed(Word(old(mem[..]), a, 4))
    ensures SameOutside(mem[..], old(mem[..]), b, 4)
  {
    mem[b] := mem[a + 3];
    mem[b + 1] := mem[a + 2];
    mem[b + 2] := mem[a + 1];
    mem[b + 3] := mem[a];
    assert Word(old(mem[..]), a, 4) == [mem[b + 3], mem[b + 2], mem[b + 1], mem[b]];
    assert Word(mem[..], b, 4) == [mem[b], mem[b + 1], mem[b + 2], mem[b + 3]];
  }

  method Swap16(mem: array<Byte>, p: nat)
    requires p + 2 <= mem.Length
    modifies mem
    ensures Word(mem[..], p, 2) == Reversed(Word(old(mem[..]), p, 2))
    ensures SameOutside(mem[..], old(mem[..]), p, 2)
  {
    var t0, t1 := mem[p], mem[p + 1];
    mem[p] := t1;
    mem[p + 1] := t0;
    assert Word(mem[..], p, 2) == [t1, t0];
    assert Word(old(mem[..]), p, 2) == [t0, t1];
  }

  method Copy16(mem: array<Byte>, a: nat, b: nat)
    requires a + 2 <= mem.Length && b + 2 <= mem.Length && (a + 2 <= b || b + 2 <= a)
    modifies mem
    ensures Word(mem[..], b, 2) == Reversed(Word(old(mem[..]), a, 2))
    ensures SameOutside(mem[..], old(mem[..]), b, 2)
  {
    mem[b] := mem[a + 1];
    mem[b + 1] := mem[a];
    assert Word(old(mem[..]), a, 2) == [mem[b + 1], mem[b]];
    assert Word(mem[..], b, 2) == [mem[b], mem[b + 1]];
  }

  // ---------------------------------------------------------------- two steps, either width

  /** Memory `m` after the word at `b` has received the word at `a` of `was`, reversed. */
  predicate Swapped(m: seq<Byte>, was: seq<Byte>, a: nat, b: nat, width: nat) {
    && |m| == |was| && a + width <= |was| && b + width <= |was|
    && Word(m, b, width) == Reversed(Word(was, a, width))
    && SameOutside(m, was, b, width)
  }

  /** After a swap from `a` to `b` and one in place at `b`, the word at `b` is the one
      that was at `a`, and nothing else has moved. */
  lemma SwapsCancel(was: seq<Byte>, mid: seq<Byte>, m: seq<Byte>, a: nat, b: nat, width: nat)
    requires Swapped(mid, was, a, b, width) && Swapped(m, mid, b, b, width)
    ensures Word(m, b, width) == Word(was, a, width) && SameOutside(m, was, b, width)
    ensures a == b ==> m == was
  {
    if a == b {
      forall i | 0 <= i < |m| ensures m[i] == was[i] {
        if b <= i < b + width { assert m[i] == Word(m, b, width)[i - b] == Word(was, b, width)[i - b]; }
      }
    }
  }

  lemma WordApart(m: seq<Byte>, was: seq<Byte>, a: nat, b: nat, width: nat)
    requires SameOutside(m, was, b, width) && a + width <= |was| && (a + width <= b || b + width <= a)
    ensures Word(m, a, width) == Word(was, a, width)
  {}

  /** Swapping the same word twice restores all of memory. */
  method SwapTwice(mem: array<Byte>, p: nat)
    requires p + 4 <= mem.Length
    modifies mem
    ensures mem[..] == old(mem[..])
  {
    Swap32(mem, p);
    ghost var mid := mem[..];
    Swap32(mem, p);
    SwapsCancel(old(mem[..]), mid, mem[..], p, p, 4);
  }

  method SwapTwice16(mem: array<Byte>, p: nat)
    requires p + 2 <= mem.Length
    modifies mem
    ensures mem[..] == old(mem[..])
  {
    Swap16(mem, p);
    ghost var mid := mem[..];
    Swap16(mem, p);
    SwapsCancel(old(mem[..]), mid, mem[..], p, p, 2);
  }

  /** A swapping copy followed by a swap in place is a plain copy. */
  method CopyThenSwap(mem: array<Byte>, a: nat, b: nat)
    requires a + 4 <= mem.Length && b + 4 <= mem.Length && (a + 4 <= b || b + 4 <= a)
    modifies mem
    ensures Word(mem[..], b, 4) == Word(old(mem[..]), a, 4) == Word(mem[..], a, 4)
    ensures SameOutside(mem[..], old(mem[..]), b, 4)
  {
    Copy32(mem, a, b);
    ghost var mid := mem[..];
    Swap32(mem, b);
    SwapsCancel(old(mem[..]), mid, mem[..], a, b, 4);
    WordApart(mem[..], old(mem[..]), a, b, 4);
  }

  method CopyThenSwap16(mem: array<Byte>, a: nat, b: nat)
    requires a + 2 <= mem.Length && b + 2 <= mem.Length && (a + 2 <= b || b + 2 <= a)
    modifies mem
    ensures Word(mem[..], b, 2) == Word(old(mem[..]), a, 2) == Word(mem[..], a, 2)
    ensures SameOutside(mem[..], old(mem[..]), b, 2)
  {
    Copy16(mem, a, b);
    ghost var mid := mem[..];
    Swap16(mem, b);
    SwapsCancel(old(mem[..]), mid, mem[..], a, b, 2);
    WordApart(mem[..], old(mem[..]), a, b, 2);
  }
}
