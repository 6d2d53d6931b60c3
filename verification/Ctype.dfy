/** Character classification: the wide-character functions of `locale_ctype.c`, the
    tables made from them, and the inline fast paths of `_ctype.h` that use the tables. */
module Ctype {
  import opened Options
  import opened Words
  import opened Numbers
  import opened Widths

  /** `__wchar_t`, an unsigned short. */
  type WChar = c: nat | c < 0x1_0000

  /** 0xe0000000, the screen-width bits of a type word, and the printable bit. */
  const SCRW_MASK: Word32 := {29, 30, 31}
  const CT_PRINT: Word32 := {19}
  const CT_DIGIT: Word32 := {10}
  const CT_XDIGIT: Word32 := {15}
  const CT_IDEOGRAM: Word32 := {22}
  /** The low byte holds the value of a digit. */
  const NUM_MASK: Word32 := set b: nat | b < 8
  /** The attributes that `___wctype_uni` keeps: bits 8 to 23 but for the ideogram's. */
  const CT_KEPT: Word32 := (set b: nat | b < 24) - NUM_MASK - CT_IDEOGRAM

  /** The values that `_ctype.h` gives these. */
  lemma TypeConstants(w: Word32)
    ensures w == SCRW_MASK ==> Number(w) == 0xe000_0000
    ensures w == CT_PRINT ==> Number(w) == 0x8_0000
    ensures w == CT_DIGIT ==> Number(w) == 0x400
    ensures w == CT_XDIGIT ==> Number(w) == 0x8000
    ensures w == CT_IDEOGRAM ==> Number(w) == 0x40_0000
  {
    if w == SCRW_MASK {
      NumberOfByte(w, 24, 0xe0);
    } else if w == CT_PRINT {
      NumberOfByte(w, 16, 8);
    } else if w == CT_DIGIT {
      NumberOfByte(w, 8, 4);
    } else if w == CT_XDIGIT {
      NumberOfByte(w, 8, 0x80);
    } else if w == CT_IDEOGRAM {
      NumberOfByte(w, 16, 0x40);
    }
  }

  // ---------------------------------------------------------------- the operating system

  type Word8 = w: set<nat> | forall b | b in w :: b < 8 witness {}

  /** `UNICTYPE`; `bidi` is a char. */
  datatype UniType = UniType(itype: Word16, bidi: Word8, extend: Word16)

  /** What the OS/2 Unicode library answers: `UniQueryCharType`, which may be null,
      `UniTolower`, `UniToupper` and `UniQueryNumericValue`. */
  datatype Os = Os(
    query: WChar -> Option<UniType>, lower: WChar -> WChar, upper: WChar -> WChar, numeric: WChar -> I32)

  const C3_IDEOGRAPH := 8

  // ---------------------------------------------------------------- the slow functions

  function ToU32(x: I32): U32 { if x < 0 then x + 0x1_0000_0000 else x }

  /** The value stored for a digit: a decimal digit, an upper-case hexadecimal one, or
      whatever single byte the system gives. */
  function DigitValue(numeric: I32, wc: WChar): U32 {
    if Add(wc, 0x1_0000_0000 - 0x30) <= 9 then Add(wc, 0x1_0000_0000 - 0x30)
    else if Add(wc, 0x1_0000_0000 - 0x41) <= 5 then Add(wc, 0x1_0000_0000 - 0x41) + 10
    else if And(ToU32(numeric), 0xffff_ff00) == 0 then ToU32(numeric)
    else 0
  }

  /** `___wctype_uni`. The shift binds tighter than the mask in its last step. */
  function WcTypeUni(u: UniType, numeric: I32, wc: WChar): Word32 {
    var digits := if Kept(u) * (CT_XDIGIT + CT_DIGIT) != {} then Bits(DigitValue(numeric, wc)) else {};
    Kept(u) + digits + u.bidi * Shl({0, 1, 2, 3}, 24)
  }

  /** The attributes it keeps. */
  function Kept(u: UniType): Word32 {
    Shl(u.itype, 8) * CT_KEPT + (if C3_IDEOGRAPH in u.extend then CT_IDEOGRAM else {})
  }

  /** `uMask` in the C locale and in every other: ~0x7f and ~0xff. */
  const C_MASK: U32 := 0xffff_ff80
  const LOCALE_MASK: U32 := 0xffff_ff00

  predicate IsMask(mask: U32) { mask == C_MASK || mask == LOCALE_MASK }

  function SlowType(os: Os, rs: seq<Range>, mask: U32, wc: WChar): Word32 {
    if mask != C_MASK || wc <= 127 then SystemType(os, wc) + WidthOf(rs, wc) else {}
  }

  function SystemType(os: Os, wc: WChar): Word32 {
    var u := os.query(wc);
    if u.Some? then WcTypeUni(u.value, os.numeric(wc), wc) else {}
  }

  function SlowLower(os: Os, mask: U32, wc: WChar): WChar {
    if mask == C_MASK && wc > 127 then wc else os.lower(wc)
  }

  function SlowUpper(os: Os, mask: U32, wc: WChar): WChar {
    if mask == C_MASK && wc > 127 then wc else os.upper(wc)
  }

  /** `___wctype`, with its search. */
  method WcTypeOf(os: Os, rs: seq<Range>, mask: U32, wc: WChar) returns (r: Word32)
    requires Ordered(rs, 1)
    ensures r == SlowType(os, rs, mask, wc)
  {
    r := {};
    if mask != C_MASK || wc <= 127 {
      var ufType := SystemType(os, wc);
      var flags := UnicodeWidthFlags(rs, wc);
      r := ufType + flags;
    }
  }

  // ---------------------------------------------------------------- the tables

  /** `__libc_GLocaleWCtype` without `uMask`. */
  datatype Tables = Tables(lower: seq<WChar>, upper: seq<WChar>, types: seq<Word32>)

  predicate FullSize(t: Tables) { |t.lower| == |t.upper| == |t.types| == 256 }

  /** The first `n` entries of a table are what `f` gives. */
  ghost predicate Holds<T>(table: seq<T>, n: nat, f: WChar -> T) {
    n <= |table| && n <= 0x1_0000 && forall c | 0 <= c < n :: table[c] == f(c)
  }

  /** The first `n` entries are what the slow functions give under `mask`. */
  ghost predicate AgreesTo(t: Tables, n: nat, os: Os, rs: seq<Range>, mask: U32) {
    && Holds(t.lower, n, c => SlowLower(os, mask, c))
    && Holds(t.upper, n, c => SlowUpper(os, mask, c))
    && Holds(t.types, n, c => SlowType(os, rs, mask, c))
  }

  lemma HoldsMore<T>(table: seq<T>, f: WChar -> T, x: T)
    requires |table| < 0x1_0000 && Holds(table, |table|, f) && x == f(|table|)
    ensures Holds(table + [x], |table| + 1, f)
  {}

  /** The program that prints the tables, in the locale that `mask` belongs to. */
  method MakeTables(os: Os, rs: seq<Range>, mask: U32) returns (t: Tables)
    requires Ordered(rs, 1)
    ensures FullSize(t) && AgreesTo(t, 256, os, rs, mask)
  {
    var lower := MakeTable(c => SlowLower(os, mask, c));
    var upper := MakeTable(c => SlowUpper(os, mask, c));
    var types: seq<Word32> := [];
    ghost var slow := c => SlowType(os, rs, mask, c);
    for i := 0 to 256
      invariant |types| == i && Holds(types, i, slow)
    {
      var ufType := WcTypeOf(os, rs, mask, i);
      HoldsMore(types, slow, ufType);
      types := types + [ufType];
    }
    t := Tables(lower, upper, types);
  }

  /** One of its loops. */
  method MakeTable<T>(f: WChar -> T) returns (table: seq<T>)
    ensures |table| == 256 && Holds(table, 256, f)
  {
    table := [];
    for i := 0 to 256
      invariant |table| == i && Holds(table, i, f)
    {
      HoldsMore(table, f, f(i));
      table := table + [f(i)];
    }
  }

  /** How many entries are used under a mask. */
  function Limit(mask: U32): nat { if mask == C_MASK then 128 else 256 }

  /** Tables made in a locale other than C serve both masks. */
  lemma TablesServe(t: Tables, os: Os, rs: seq<Range>, mask: U32)
    requires FullSize(t) && AgreesTo(t, 256, os, rs, LOCALE_MASK) && IsMask(mask)
    ensures AgreesTo(t, Limit(mask), os, rs, mask)
  {}

  /** Nothing above U+007F has a type or another case, as the C locale says. */
  ghost predicate AsciiOnly(os: Os, rs: seq<Range>) {
    forall c: WChar | 128 <= c < 256 ::
      os.lower(c) == c == os.upper(c) && SlowType(os, rs, LOCALE_MASK, c) == {}
  }

  /** Why the program that makes them first leaves the C locale: tables made in the C
      locale serve another one only if there is nothing in the upper half to know. */
  lemma TablesFromC(t: Tables, os: Os, rs: seq<Range>)
    requires FullSize(t) && AgreesTo(t, 256, os, rs, C_MASK)
    ensures AgreesTo(t, 128, os, rs, C_MASK)
    ensures AgreesTo(t, 256, os, rs, LOCALE_MASK) <==> AsciiOnly(os, rs)
  {
    if AgreesTo(t, 256, os, rs, LOCALE_MASK) {
      forall c: WChar | 128 <= c < 256
        ensures os.lower(c) == c == os.upper(c) && SlowType(os, rs, LOCALE_MASK, c) == {}
      {
        assert t.lower[c] == SlowLower(os, C_MASK, c) == c;
        assert t.upper[c] == SlowUpper(os, C_MASK, c) == c;
        assert t.types[c] == SlowType(os, rs, C_MASK, c) == {};
      }
    }
    if AsciiOnly(os, rs) {
      forall c | 0 <= c < 256
        ensures t.lower[c] == SlowLower(os, LOCALE_MASK, c) && t.upper[c] == SlowUpper(os, LOCALE_MASK, c)
        ensures t.types[c] == SlowType(os, rs, LOCALE_MASK, c)
      {
        assert t.lower[c] == SlowLower(os, C_MASK, c);
        if c >= 128 { assert os.lower(c) == c; }
      }
    }
  }

  // ---------------------------------------------------------------- the fast paths

  /** What an `int` becomes when it is passed as a `__wchar_t`. */
  function Narrow(wc: I32): WChar { wc % 0x1_0000 }

  predicate InTable(mask: U32, wc: I32) { And(ToU32(wc), mask) == 0 }

  lemma InTableIs(mask: U32, wc: I32)
    requires IsMask(mask)
    ensures InTable(mask, wc) <==> 0 <= wc < Limit(mask)
  {
    var x := ToU32(wc);
    HighMasks(x, x / 0x80, x % 0x80, x / 0x100, x % 0x100);
  }

  lemma HighMasks(x: U32, q7: nat, r7: nat, q8: nat, r8: nat)
    requires x == 0x80 * q7 + r7 && r7 < 0x80 && x == 0x100 * q8 + r8 && r8 < 0x100
    ensures And(x, 0xffff_ff80) == q7 * 0x80 && And(x, 0xffff_ff00) == q8 * 0x100
  {
    SmallPowers();
    Powers();
    PowAdd(16, 8);
    assert Pow2(25) == 0x200_0000;
    AndField(x, 7, 25, 0x80, 0x200_0000, 0xffff_ff80, 0, q7, r7);
    AndField(x, 8, 24, 0x100, 0x100_0000, 0xffff_ff00, 0, q8, r8);
  }

  function WcType(t: Tables, os: Os, rs: seq<Range>, mask: U32, wc: I32, f: Word32): Word32
    requires FullSize(t) && IsMask(mask)
  {
    InTableIs(mask, wc);
    if InTable(mask, wc) then t.types[wc] * f else SlowType(os, rs, mask, Narrow(wc)) * f
  }

  function ToWUpper(t: Tables, os: Os, mask: U32, wc: I32): WChar
    requires FullSize(t) && IsMask(mask)
  {
    InTableIs(mask, wc);
    if InTable(mask, wc) then t.upper[wc] else SlowUpper(os, mask, Narrow(wc))
  }

  function ToWLower(t: Tables, os: Os, mask: U32, wc: I32): WChar
    requires FullSize(t) && IsMask(mask)
  {
    InTableIs(mask, wc);
    if InTable(mask, wc) then t.lower[wc] else SlowLower(os, mask, Narrow(wc))
  }

  /** With the tables as they are made, the fast paths are the slow functions of the
      narrowed character, for every `int` and in every locale. */
  lemma FastIsSlow(t: Tables, os: Os, rs: seq<Range>, mask: U32, wc: I32, f: Word32)
    requires FullSize(t) && AgreesTo(t, 256, os, rs, LOCALE_MASK) && IsMask(mask)
    ensures WcType(t, os, rs, mask, wc, f) == SlowType(os, rs, mask, Narrow(wc)) * f
    ensures ToWUpper(t, os, mask, wc) == SlowUpper(os, mask, Narrow(wc))
    ensures ToWLower(t, os, mask, wc) == SlowLower(os, mask, Narrow(wc))
  {
    TablesServe(t, os, rs, mask);
    InTableIs(mask, wc);
    if 0 <= wc < Limit(mask) { assert Narrow(wc) == wc; }
  }

  /** Which character that is. */
  lemma NarrowIs(wc: I32)
    ensures (wc - Narrow(wc)) % 0x1_0000 == 0
    ensures Narrow(wc) == wc <==> 0 <= wc < 0x1_0000
  {
    assert wc == 0x1_0000 * (wc / 0x1_0000) + Narrow(wc);
  }

  /** Folding is the system's, but for what the C locale does not know. */
  lemma FoldsLike(t: Tables, os: Os, rs: seq<Range>, mask: U32, wc: I32)
    requires FullSize(t) && AgreesTo(t, 256, os, rs, LOCALE_MASK) && IsMask(mask)
    ensures var c := Narrow(wc);
            if mask == 0xffff_ff80 && c > 127 then ToWLower(t, os, mask, wc) == c == ToWUpper(t, os, mask, wc)
            else ToWLower(t, os, mask, wc) == os.lower(c) && ToWUpper(t, os, mask, wc) == os.upper(c)
  {
    FastIsSlow(t, os, rs, mask, wc, {});
  }

  /** So two characters that differ by a multiple of 65536 cannot be told apart. */
  lemma HighCharacterAliases(t: Tables, os: Os, rs: seq<Range>, mask: U32, a: I32, b: I32, f: Word32)
    requires FullSize(t) && AgreesTo(t, 256, os, rs, LOCALE_MASK) && IsMask(mask)
    requires (a - b) % 0x1_0000 == 0
    ensures WcType(t, os, rs, mask, a, f) == WcType(t, os, rs, mask, b, f)
    ensures ToWUpper(t, os, mask, a) == ToWUpper(t, os, mask, b)
    ensures ToWLower(t, os, mask, a) == ToWLower(t, os, mask, b)
  {
    FastIsSlow(t, os, rs, mask, a, f);
    FastIsSlow(t, os, rs, mask, b, f);
    SameNarrow(a, b);
  }

  lemma SameNarrow(a: I32, b: I32)
    requires (a - b) % 0x1_0000 == 0
    ensures Narrow(a) == Narrow(b)
  {}

  /** In the C locale a character whose low half is above 127 has no type and folds to
      that half. */
  lemma CLocale(t: Tables, os: Os, rs: seq<Range>, wc: I32, f: Word32)
    requires FullSize(t) && AgreesTo(t, 256, os, rs, LOCALE_MASK) && Narrow(wc) > 127
    ensures WcType(t, os, rs, C_MASK, wc, f) == {}
    ensures ToWUpper(t, os, C_MASK, wc) == Narrow(wc) == ToWLower(t, os, C_MASK, wc)
  {
    FastIsSlow(t, os, rs, C_MASK, wc, f);
  }

  // ---------------------------------------------------------------- what a type word holds

  lemma BitsOfByte(n: U32, b: nat)
    requires n < 256 && b in Bits(n)
    ensures b < 8
  {
    if b >= 8 {
      SmallPowers();
      PowMonotonic(8, b);
      Quotient(n, Pow2(b));
    }
  }

  lemma Quotient(n: nat, p: nat)
    requires n < p
    ensures n / p == 0
  {}

  lemma DigitFitsByte(numeric: I32, wc: WChar)
    ensures DigitValue(numeric, wc) < 256
  {
    OneByte(ToU32(numeric));
  }

  lemma DigitBits(numeric: I32, wc: WChar)
    ensures Bits(DigitValue(numeric, wc)) <= NUM_MASK
  {
    DigitFitsByte(numeric, wc);
    forall b | b in Bits(DigitValue(numeric, wc)) ensures b < 8 { BitsOfByte(DigitValue(numeric, wc), b); }
  }

  /** The value of a digit, case by case. */
  lemma DigitIs(numeric: I32, wc: WChar)
    ensures DigitValue(numeric, wc) ==
              if '0' as int <= wc <= '9' as int then wc - '0' as int
              else if 'A' as int <= wc <= 'F' as int then wc - 'A' as int + 10
              else if 0 <= numeric < 256 then numeric
              else 0
  {
    OneByte(ToU32(numeric));
  }

  lemma OneByte(x: U32)
    ensures And(x, 0xffff_ff00) == 0 <==> x < 256
  {
    HighMasks(x, x / 0x80, x % 0x80, x / 0x100, x % 0x100);
  }

  /** The low byte of a type word, as a number: the value of a digit, and 0 for any other
      character. */
  lemma TypeWord(u: UniType, numeric: I32, wc: WChar)
    ensures Eight(WcTypeUni(u, numeric, wc), 0) ==
              if !(2 in u.itype || 7 in u.itype) then 0
              else if '0' as int <= wc <= '9' as int then wc - '0' as int
              else if 'A' as int <= wc <= 'F' as int then wc - 'A' as int + 10
              else if 0 <= numeric < 256 then numeric
              else 0
  {
    var w, v := WcTypeUni(u, numeric, wc), DigitValue(numeric, wc);
    DigitIs(numeric, wc);
    ByteOfBits(v);
    LowBits(u, numeric, wc);
    if 2 in u.itype || 7 in u.itype {
      EightSame(w, 0, Bits(v), 0);
    } else {
      EightSame(w, 0, {}, 0);
    }
  }

  lemma ByteOfBits(v: U32)
    requires v < 256
    ensures Eight(Bits(v), 0) == v
  {
    assert Pow2(0) == 1;
    EightBits(v, 0, v);
  }

  /** The low bits come from the digit alone. */
  lemma LowBits(u: UniType, numeric: I32, wc: WChar)
    ensures forall b | 0 <= b < 8 ::
      b in WcTypeUni(u, numeric, wc) <==> (2 in u.itype || 7 in u.itype) && b in Bits(DigitValue(numeric, wc))
  {
    var kept := Kept(u);
    KeptBits(u);
    assert kept * (CT_XDIGIT + CT_DIGIT) != {} <==> 10 in kept || 15 in kept by {
      if 10 in kept { assert 10 in kept * (CT_XDIGIT + CT_DIGIT); }
      if 15 in kept { assert 15 in kept * (CT_XDIGIT + CT_DIGIT); }
    }
  }

  lemma KeptBits(u: UniType)
    ensures forall b: nat ::
      b in Kept(u) <==> 8 <= b < 24 && (if b == 22 then C3_IDEOGRAPH in u.extend else b - 8 in u.itype)
  {}

  /** The attributes: bits 8 to 23 are those of the system moved up, the ideogram's in
      place of one of them, and there is nothing above. */
  lemma TypeAttributes(u: UniType, numeric: I32, wc: WChar, b: nat)
    requires b >= 8
    ensures b in WcTypeUni(u, numeric, wc) <==> b < 24 && (if b == 22 then 8 in u.extend else b - 8 in u.itype)
  {
    KeptBits(u);
    DigitBits(numeric, wc);
  }

  /** The width bits are left for the table. */
  lemma NoWidthBits(u: UniType, numeric: I32, wc: WChar)
    ensures WcTypeUni(u, numeric, wc) * SCRW_MASK == {}
  {
    DigitBits(numeric, wc);
  }

  /** `_ctype.h` says that the bidirectional class is in bits 24 to 27. It is there if
      and only if it is 0: those bits are always clear. */
  lemma BidiLost(u: UniType, numeric: I32, wc: WChar)
    ensures WcTypeUni(u, numeric, wc) * Shl({0, 1, 2, 3}, 24) == {}
    ensures WcTypeUni(u, numeric, wc) * Shl({0, 1, 2, 3}, 24) == Shl(u.bidi * {0, 1, 2, 3}, 24)
            <==> u.bidi * {0, 1, 2, 3} == {}
  {
    DigitBits(numeric, wc);
    forall b | b in u.bidi * {0, 1, 2, 3} ensures b + 24 in Shl(u.bidi * {0, 1, 2, 3}, 24) {}
  }

  // ---------------------------------------------------------------- widths

  /** `__wcwidth`. */
  function WcWidth(t: Tables, os: Os, rs: seq<Range>, mask: U32, wc: I32): int
    requires FullSize(t) && IsMask(mask)
  {
    if wc == 0 then 0 else Decoded(WcType(t, os, rs, mask, wc, SCRW_MASK + CT_PRINT))
  }

  function Decoded(f: Word32): int {
    if f * SCRW_MASK != {} then Number2(Shr(f * SCRW_MASK, 30))
    else if f * CT_PRINT != {} then 1 else -1
  }

  /** The number that a word of two bits is. */
  function Number2(x: Word32): nat { (if 0 in x then 1 else 0) + (if 1 in x then 2 else 0) }

  /** How a width is stored: `__CT_SCRW0` to `__CT_SCRW3`. */
  function Stored(width: nat): Word32
    requires width <= 3
  {
    match width
    case 0 => {29}
    case 1 => {30}
    case 2 => {31}
    case 3 => {30, 31}
  }

  lemma StoredConstants(w: Word32)
    ensures w == Stored(0) ==> Number(w) == 0x2000_0000
    ensures w == Stored(1) ==> Number(w) == 0x4000_0000
    ensures w == Stored(2) ==> Number(w) == 0x8000_0000
    ensures w == Stored(3) ==> Number(w) == 0xc000_0000
  {
    if w == Stored(0) {
      NumberOfByte(w, 24, 0x20);
    } else if w == Stored(1) {
      NumberOfByte(w, 24, 0x40);
    } else if w == Stored(2) {
      NumberOfByte(w, 24, 0x80);
    } else if w == Stored(3) {
      NumberOfByte(w, 24, 0xc0);
    }
  }

  lemma StoredNumber(width: nat)
    requires width <= 3
    ensures Stored(width) != {} && Number2(Shr(Stored(width), 30)) == width
  {
    assert 29 in Stored(0);
    assert 0 in Shr(Stored(width), 30) <==> 30 in Stored(width);
    assert 1 in Shr(Stored(width), 30) <==> 31 in Stored(width);
  }

  /** A stored width is what comes out; without one, the printable bit decides. */
  lemma WidthDecodes(t: Tables, os: Os, rs: seq<Range>, mask: U32, wc: I32, width: nat)
    requires FullSize(t) && AgreesTo(t, 256, os, rs, LOCALE_MASK) && IsMask(mask) && wc != 0 && width <= 3
    ensures var w := SlowType(os, rs, mask, Narrow(wc));
            && (w * SCRW_MASK == Stored(width) ==> WcWidth(t, os, rs, mask, wc) == width)
            && (w * SCRW_MASK == {} ==> WcWidth(t, os, rs, mask, wc) == if 19 in w then 1 else -1)
  {
    FastIsSlow(t, os, rs, mask, wc, SCRW_MASK + CT_PRINT);
    DecodedWord(SlowType(os, rs, mask, Narrow(wc)), width);
  }

  lemma DecodedWord(w: Word32, width: nat)
    requires width <= 3
    ensures w * SCRW_MASK == Stored(width) ==> Decoded(w * (SCRW_MASK + CT_PRINT)) == width
    ensures w * SCRW_MASK == {} ==> Decoded(w * (SCRW_MASK + CT_PRINT)) == if 19 in w then 1 else -1
  {
    StoredNumber(width);
    var f := w * (SCRW_MASK + CT_PRINT);
    assert f * SCRW_MASK == w * SCRW_MASK;
    assert f * CT_PRINT == w * CT_PRINT;
    assert 19 in w <==> 19 in w * CT_PRINT;
  }

  /** The system has a type for `c` with the printable attribute. */
  predicate Printable(os: Os, c: WChar) { os.query(c).Some? && 11 in os.query(c).value.itype }

  lemma SlowWidth(os: Os, rs: seq<Range>, mask: U32, c: WChar)
    requires mask != C_MASK || c <= 127
    requires WidthOf(rs, c) <= SCRW_MASK
    ensures SlowType(os, rs, mask, c) * SCRW_MASK == WidthOf(rs, c)
    ensures 19 in SlowType(os, rs, mask, c) <==> Printable(os, c)
  {
    SystemBits(os, c);
    OnlyWidth(SystemType(os, c), WidthOf(rs, c));
  }

  lemma SystemBits(os: Os, c: WChar)
    ensures SystemType(os, c) * SCRW_MASK == {} && (19 in SystemType(os, c) <==> Printable(os, c))
  {
    if os.query(c).Some? {
      NoWidthBits(os.query(c).value, os.numeric(c), c);
      TypeAttributes(os.query(c).value, os.numeric(c), c, 19);
    }
  }

  lemma OnlyWidth(w: Word32, width: Word32)
    requires w * SCRW_MASK == {} && width <= SCRW_MASK
    ensures (w + width) * SCRW_MASK == width && (19 in w + width <==> 19 in w)
  {
    assert (w + width) * SCRW_MASK == w * SCRW_MASK + width;
  }

  /** From the system's attributes to the answer: the attribute in bit `b`, for a width
      table that holds nothing but widths. */
  lemma ClassIs(t: Tables, os: Os, rs: seq<Range>, mask: U32, wc: I32, f: Word32, b: nat)
    requires FullSize(t) && AgreesTo(t, 256, os, rs, LOCALE_MASK) && IsMask(mask)
    requires 8 <= b < 24 && WidthOf(rs, Narrow(wc)) <= SCRW_MASK
    ensures var c := Narrow(wc);
            b in WcType(t, os, rs, mask, wc, f) <==>
              && b in f && !(mask == 0xffff_ff80 && c > 127) && os.query(c).Some?
              && (if b == 22 then 8 in os.query(c).value.extend else b - 8 in os.query(c).value.itype)
  {
    var c := Narrow(wc);
    FastIsSlow(t, os, rs, mask, wc, f);
    if os.query(c).Some? { TypeAttributes(os.query(c).value, os.numeric(c), c, b); }
  }

  /** From the generator's two sets to the answer: a zero-width character has width 0,
      any other wide one 2, and of the rest the printable ones 1. The C locale knows
      nothing above U+007F. */
  lemma WidthIs(zero: set<nat>, wide: set<nat>, table: seq<Range>, t: Tables, os: Os, mask: U32, wc: I32)
    requires Generated(zero, wide, table)
    requires FullSize(t) && AgreesTo(t, 256, os, table, LOCALE_MASK) && IsMask(mask)
    ensures var c := Narrow(wc);
            WcWidth(t, os, table, mask, wc) ==
              if wc == 0 then 0
              else if mask == C_MASK && c > 127 then -1
              else if c in zero then 0
              else if c in wide then 2
              else if Printable(os, c) then 1 else -1
  {
    var c := Narrow(wc);
    GeneratedWidths(zero, wide, table);
    if wc != 0 {
      WidthDecodes(t, os, table, mask, wc, 0);
      WidthDecodes(t, os, table, mask, wc, 2);
      if mask != C_MASK || c <= 127 { SlowWidth(os, table, mask, c); }
    }
  }

  // ---------------------------------------------------------------- narrow characters

  /** `__ctype`: a `char` may arrive sign-extended, and EOF is -1. */
  function CType(types: seq<Word32>, ch: I32, f: Word32): Word32
    requires |types| == 256
  {
    LowByte(ToU32(ch), ToU32(ch) / 256, ToU32(ch) % 256);
    if -128 <= ch < 256 && ch != -1 then types[And(ToU32(ch), 0xff)] * f else {}
  }

  lemma LowByte(x: U32, q: nat, r: nat)
    requires x == 256 * q + r && r < 256
    ensures And(x, 0xff) == r
  {
    SmallPowers();
    AndLow(x, 8, 256, q, r);
  }

  /** A table entry for every `char`, signed or not, and nothing for any other value. */
  lemma CTypeIs(types: seq<Word32>, ch: I32, f: Word32)
    requires |types| == 256
    ensures CType(types, ch, f) ==
              if 0 <= ch < 256 then types[ch] * f
              else if -128 <= ch < -1 then types[ch + 256] * f
              else {}
  {
    if 0 <= ch < 256 { LowByte(ch, 0, ch); }
    if -128 <= ch < -1 { LowByte(ch + 0x1_0000_0000, 0xff_ffff, ch + 256); }
  }

  /** A signed `char` classifies like the unsigned one, except 0xff, which as a signed
      `char` is EOF. */
  lemma SignedCharLikeUnsigned(types: seq<Word32>, ch: nat, f: Word32)
    requires |types| == 256 && 128 <= ch < 256
    ensures ch < 255 ==> CType(types, ch - 256, f) == CType(types, ch, f) == types[ch] * f
    ensures CType(types, 255 - 256, f) == {}
  {
    CTypeIs(types, ch, f);
    CTypeIs(types, ch - 256, f);
  }
}
