/** The a.out header macros of `a_out.h`: packed fields, file layout and load
    addresses, with the rounding macros of `gmon.h`. */
module AOut {
  import opened Words
  import opened Numbers

  // ---------------------------------------------------------------- a_info

  /** 0407 and 0413. */
  const OMAGIC: Word32 := {0, 1, 2, 8}
  const ZMAGIC: Word32 := {0, 1, 3, 8}

  const BYTE: Word32 := set b: nat | b < 8

  function Magic(info: Word32): Word32 { info * ONES16 }

  function MachType(info: Word32): Word32 { Shr(info, 16) * BYTE }

  function Flags(info: Word32): Word32 { Shr(info, 24) * BYTE }

  lemma MagicNumbers(w: Word32)
    ensures w == OMAGIC ==> Number(w) == 0x107
    ensures w == ZMAGIC ==> Number(w) == 0x10b
  {
    if w == OMAGIC {
      NumberOfLow(w, 7, 1);
    } else if w == ZMAGIC {
      NumberOfLow(w, 11, 1);
    }
  }

  /** The word as a number: the magic number in the low half, the machine type in the next
      byte, the flags in the last. */
  lemma InfoNumber(info: Word32)
    ensures Number(Magic(info)) < 0x1_0000 && Number(MachType(info)) < 0x100 && Number(Flags(info)) < 0x100
    ensures Number(info) ==
              Number(Magic(info)) + 0x1_0000 * Number(MachType(info)) + 0x100_0000 * Number(Flags(info))
  {
    LowHalf(info, Magic(info));
    ByteAt(info, 16, MachType(info));
    ByteAt(info, 24, Flags(info));
  }

  lemma LowHalf(info: Word32, w: Word32)
    requires w == info * ONES16
    ensures Number(w) == Eight(info, 0) + 0x100 * Eight(info, 8)
  {
    EightSame(w, 0, info, 0);
    EightSame(w, 8, info, 8);
    EightNone(w, 16);
    EightNone(w, 24);
    NumberIs(w, Eight(info, 0), Eight(info, 8), 0, 0);
  }

  lemma ByteAt(info: Word32, k: nat, w: Word32)
    requires k <= 24 && w == Shr(info, k) * BYTE
    ensures Number(w) == Eight(info, k)
  {
    EightSame(w, 0, info, k);
    NumberOfByte(w, 0, Eight(info, k));
  }

  /** One of the four macros that write `a_info`. */
  datatype Write =
    | SetInfo(magic: Word32, machtype: Word32, flags: Word32)
    | SetMagic(magic: Word32)
    | SetMachType(machtype: Word32)
    | SetFlags(flags: Word32)

  /** 0x00ff0000 and 0xff000000. */
  const MACHTYPE_MASK: Word32 := Shl(BYTE, 16)
  const FLAGS_MASK: Word32 := Shl(BYTE, 24)

  class Exec {
    var info: Word32

    method Set(w: Write)
      modifies this
      ensures FieldsOf(info) == LastWritten(FieldsOf(old(info)), [w])
    {
      assert [w][..0] == [];
      match w
      case SetInfo(m, t, f) => AfterInfo(m, t, f); info := (m * ONES16) + Shl(t * BYTE, 16) + Shl(f * BYTE, 24);
      case SetMagic(m) => AfterMagic(info, m); info := (info - ONES16) + (m * ONES16);
      case SetMachType(t) => AfterMachType(info, t); info := (info - MACHTYPE_MASK) + Shl(t * BYTE, 16);
      case SetFlags(f) => AfterFlags(info, f); info := (info - FLAGS_MASK) + Shl(f * BYTE, 24);
    }

    /** Any finite series of writes: each getter gives the last value written to its
        field, and the word is nothing but the three fields packed. */
    method SetAll(ws: seq<Write>)
      modifies this
      ensures FieldsOf(info) == LastWritten(FieldsOf(old(info)), ws)
      ensures info == Packed(LastWritten(FieldsOf(old(info)), ws))
    {
      for i := 0 to |ws|
        invariant FieldsOf(info) == LastWritten(FieldsOf(old(info)), ws[..i])
      {
        assert ws[..i + 1][..i] == ws[..i] && ws[..i + 1][i] == ws[i];
        Set(ws[i]);
        assert [ws[i]][..0] == [];
      }
      assert ws[..|ws|] == ws;
      PackedInfo(info);
    }
  }

  /** The three fields kept apart. */
  datatype Fields = Fields(magic: Word32, machtype: Word32, flags: Word32)

  /** The last value written to each field, cut to the width of the field. */
  function LastWritten(start: Fields, ws: seq<Write>): Fields {
    if ws == [] then start else Overwritten(LastWritten(start, ws[..|ws| - 1]), ws[|ws| - 1])
  }

  function Overwritten(f: Fields, w: Write): Fields {
    match w
    case SetInfo(m, t, g) => Fields(m * ONES16, t * BYTE, g * BYTE)
    case SetMagic(m) => f.(magic := m * ONES16)
    case SetMachType(t) => f.(machtype := t * BYTE)
    case SetFlags(g) => f.(flags := g * BYTE)
  }

  function FieldsOf(info: Word32): Fields { Fields(Magic(info), MachType(info), Flags(info)) }

  function Packed(f: Fields): Word32 { f.magic + Shl(f.machtype, 16) + Shl(f.flags, 24) }

  /** The word is its fields, and the fields are the word's. */
  lemma PackedInfo(info: Word32)
    ensures Packed(FieldsOf(info)) == info
  {}

  lemma AfterMagic(info: Word32, m: Word32)
    ensures FieldsOf((info - ONES16) + (m * ONES16)) == FieldsOf(info).(magic := m * ONES16)
  {}

  lemma AfterMachType(info: Word32, t: Word32)
    ensures FieldsOf((info - MACHTYPE_MASK) + Shl(t * BYTE, 16)) == FieldsOf(info).(machtype := t * BYTE)
  {}

  lemma AfterFlags(info: Word32, t: Word32)
    ensures FieldsOf((info - FLAGS_MASK) + Shl(t * BYTE, 24)) == FieldsOf(info).(flags := t * BYTE)
  {}

  lemma AfterInfo(m: Word32, t: Word32, f: Word32)
    ensures FieldsOf((m * ONES16) + Shl(t * BYTE, 16) + Shl(f * BYTE, 24)) == Fields(m * ONES16, t * BYTE, f * BYTE)
  {}

  // ---------------------------------------------------------------- file layout

  datatype Header = Header(
    info: Word32, text: U32, data: U32, bss: U32, syms: U32, entry: U32, trsize: U32, drsize: U32)

  const SIZEOF_EXEC := 32

  const HDROFF := 1024 - SIZEOF_EXEC

  function TxtOff(h: Header): U32 {
    if Magic(h.info) == ZMAGIC then HDROFF + SIZEOF_EXEC else SIZEOF_EXEC
  }

  /** 1024 in a demand-paged executable, and otherwise the size of the header. */
  lemma TxtOffIs(h: Header)
    ensures TxtOff(h) == if Magic(h.info) == {0, 1, 3, 8} then 1024 else 32
  {}

  function DatOff(h: Header): U32 { Add(TxtOff(h), h.text) }
  function TRelOff(h: Header): U32 { Add(DatOff(h), h.data) }
  function DRelOff(h: Header): U32 { Add(TRelOff(h), h.trsize) }
  function SymOff(h: Header): U32 { Add(DRelOff(h), h.drsize) }
  function StrOff(h: Header): U32 { Add(SymOff(h), h.syms) }

  /** The parts of a file in order: the header (after a stub, in a demand-paged
      executable), text, data, text and data relocations, symbols, strings. */
  type Section = seq<bv8>

  datatype Parts = Parts(
    stub: Section, header: Section, text: Section, data: Section,
    trel: Section, drel: Section, syms: Section, strings: Section)

  function Sections(p: Parts): seq<Section> {
    [p.stub, p.header, p.text, p.data, p.trel, p.drel, p.syms, p.strings]
  }

  function Image(ss: seq<Section>): Section {
    if ss == [] then [] else Image(ss[..|ss| - 1]) + ss[|ss| - 1]
  }

  /** Where part `k` of a file begins. */
  function Offset(ss: seq<Section>, k: nat): nat
    requires k <= |ss|
  {
    if k == 0 then 0 else Offset(ss, k - 1) + |ss[k - 1]|
  }

  lemma {:induction false} OffsetIs(ss: seq<Section>)
    ensures |Image(ss)| == Offset(ss, |ss|)
  {
    if ss != [] {
      OffsetIs(ss[..|ss| - 1]);
      SameOffsets(ss, |ss| - 1, |ss| - 1);
    }
  }

  lemma {:induction false} SameOffsets(ss: seq<Section>, n: nat, k: nat)
    requires k <= n <= |ss|
    ensures Offset(ss[..n], k) == Offset(ss, k)
  {
    if k > 0 { SameOffsets(ss, n, k - 1); }
  }

  /** `len` bytes of a file from `off` on, or nothing if it is too short. */
  function Slice(f: Section, off: nat, len: nat): Section {
    if off + len <= |f| then f[off..off + len] else []
  }

  /** Slicing a file at the offset and length of a part gives the part back. */
  lemma {:induction false} SliceIsPart(ss: seq<Section>, k: nat)
    requires k < |ss|
    ensures Slice(Image(ss), Offset(ss, k), |ss[k]|) == ss[k]
  {
    var init := ss[..|ss| - 1];
    OffsetIs(init);
    SameOffsets(ss, |ss| - 1, |ss| - 1);
    SameOffsets(ss, |ss| - 1, k);
    if k < |ss| - 1 {
      SliceIsPart(init, k);
      SliceBefore(Image(init), ss[|ss| - 1], Offset(ss, k), ss[k]);
    } else {
      SliceLast(Image(init), ss[k]);
    }
  }

  lemma SliceBefore(f: Section, more: Section, off: nat, part: Section)
    requires Slice(f, off, |part|) == part
    ensures Slice(f + more, off, |part|) == part
  {}

  lemma SliceLast(f: Section, part: Section)
    ensures Slice(f + part, |f|, |part|) == part
  {}

  /** The parts have the sizes the header gives them. */
  predicate Describes(h: Header, p: Parts) {
    && |p.stub| == (if Magic(h.info) == ZMAGIC then HDROFF else 0) && |p.header| == SIZEOF_EXEC
    && |p.text| == h.text && |p.data| == h.data && |p.trel| == h.trsize && |p.drel| == h.drsize
    && |p.syms| == h.syms
  }

  /** No offset of this header overflows 32 bits: the file before the strings is
      smaller than 4 GiB. */
  predicate FitsFile(h: Header) {
    TxtOff(h) + h.text + h.data + h.trsize + h.drsize + h.syms < 0x1_0000_0000
  }

  /** The offset macros are the running sums of the sizes, so the parts are contiguous
      and disjoint: each begins where the one before it ends. */
  lemma OffsetsChain(h: Header, p: Parts)
    requires Describes(h, p) && FitsFile(h)
    ensures var ss := Sections(p);
            && Offset(ss, 1) == TxtOff(h) - SIZEOF_EXEC && Offset(ss, 8) == StrOff(h) + |p.strings|
            && Offset(ss, 2) == TxtOff(h) && Offset(ss, 3) == DatOff(h) && Offset(ss, 4) == TRelOff(h)
            && Offset(ss, 5) == DRelOff(h) && Offset(ss, 6) == SymOff(h) && Offset(ss, 7) == StrOff(h)
  {
    MacroSums(h);
    SectionSums(p);
  }

  /** Without overflow the macros add. */
  lemma MacroSums(h: Header)
    requires FitsFile(h)
    ensures DatOff(h) == TxtOff(h) + h.text && TRelOff(h) == DatOff(h) + h.data
    ensures DRelOff(h) == TRelOff(h) + h.trsize && SymOff(h) == DRelOff(h) + h.drsize
    ensures StrOff(h) == SymOff(h) + h.syms
  {}

  lemma SectionSums(p: Parts)
    ensures var ss := Sections(p);
            && Offset(ss, 1) == |p.stub| && Offset(ss, 2) == Offset(ss, 1) + |p.header|
            && Offset(ss, 3) == Offset(ss, 2) + |p.text| && Offset(ss, 4) == Offset(ss, 3) + |p.data|
            && Offset(ss, 5) == Offset(ss, 4) + |p.trel| && Offset(ss, 6) == Offset(ss, 5) + |p.drel|
            && Offset(ss, 7) == Offset(ss, 6) + |p.syms| && Offset(ss, 8) == Offset(ss, 7) + |p.strings|
  {}

  /** Reading a file by the macros recovers every section that was written, the header
      included, and the strings are what remains. */
  lemma MacrosRecoverSections(h: Header, p: Parts)
    requires Describes(h, p) && FitsFile(h)
    ensures var f := Image(Sections(p));
            && Slice(f, TxtOff(h) - SIZEOF_EXEC, SIZEOF_EXEC) == p.header
            && Slice(f, TxtOff(h), h.text) == p.text
            && Slice(f, DatOff(h), h.data) == p.data
            && Slice(f, TRelOff(h), h.trsize) == p.trel
            && Slice(f, DRelOff(h), h.drsize) == p.drel
            && Slice(f, SymOff(h), h.syms) == p.syms
            && Slice(f, StrOff(h), |p.strings|) == p.strings
            && |f| == StrOff(h) + |p.strings|
  {
    var ss := Sections(p);
    OffsetsChain(h, p);
    OffsetIs(ss);
    SliceIsPart(ss, 1);
    SliceIsPart(ss, 2);
    SliceIsPart(ss, 3);
    SliceIsPart(ss, 4);
    SliceIsPart(ss, 5);
    SliceIsPart(ss, 6);
    SliceIsPart(ss, 7);
  }

  // ---------------------------------------------------------------- rounding

  /** `ROUNDDOWN` and `ROUNDUP` of `unsigned` operands: the sum inside `ROUNDUP` wraps
      around at 32 bits. */
  function RoundDown(x: U32, y: U32): nat
    requires y > 0
  {
    x / y * y
  }

  function RoundUp(x: U32, y: U32): nat
    requires y > 0
  {
    Add(x, y - 1) / y * y
  }

  /** The greatest multiple of `y` that is not above `x`. */
  ghost predicate GreatestMultiple(m: int, x: nat, y: nat)
    requires y > 0
  {
    m <= x < m + y && exists k: int :: m == k * y
  }

  /** The least multiple of `y` that is not below `x`. */
  ghost predicate LeastMultiple(m: int, x: nat, y: nat)
    requires y > 0
  {
    x <= m < x + y && exists k: int :: m == k * y
  }

  lemma RoundDownIsGreatest(x: U32, y: U32)
    requires y > 0
    ensures GreatestMultiple(RoundDown(x, y), x, y)
  {
    var q := x / y;
    assert x == y * q + x % y;
    assert q * y == RoundDown(x, y);
  }

  /** `ROUNDUP` is the least multiple exactly when the sum inside it does not wrap; when
      it does, the result is 0. */
  lemma RoundUpIsLeast(x: U32, y: U32)
    requires y > 0
    ensures LeastMultiple(RoundUp(x, y), x, y) <==> x + y - 1 < 0x1_0000_0000
    ensures x + y - 1 >= 0x1_0000_0000 ==> RoundUp(x, y) == 0
  {
    var s := x + y - 1;
    if s < 0x1_0000_0000 {
      var q := s / y;
      assert s == y * q + s % y;
      assert q * y == RoundUp(x, y);
    } else {
      assert Add(x, y - 1) == s - 0x1_0000_0000 < y;
      SmallQuotient(s - 0x1_0000_0000, y);
    }
  }

  lemma RoundUpFits(x: U32, y: U32)
    requires y > 0
    ensures RoundUp(x, y) < 0x1_0000_0000
  {
    var s := Add(x, y - 1);
    assert s == y * (s / y) + s % y;
  }

  lemma SmallQuotient(x: nat, y: nat)
    requires x < y
    ensures x / y == 0
  {}

  // ---------------------------------------------------------------- load addresses

  const SEGMENT_SIZE := 0x1_0000

  function TxtAddr(h: Header): U32 { SEGMENT_SIZE }

  /** `~(SEGMENT_SIZE - 1)` is 0xffff0000, and adding 0xffffffff subtracts one. */
  function DatAddr(h: Header): U32 {
    var end := Add(TxtAddr(h), h.text);
    if Magic(h.info) == OMAGIC then end
    else Add(SEGMENT_SIZE, And(Add(end, 0xffff_ffff), 0xffff_0000))
  }

  function BssAddr(h: Header): U32 { Add(DatAddr(h), h.data) }

  lemma SegmentBits(x: U32)
    ensures And(x, 0xffff_0000) == x / 0x1_0000 * 0x1_0000
  {
    Powers();
    AndField(x, 16, 16, 0x1_0000, 0x1_0000, 0xffff_0000, 0, x / 0x1_0000, x % 0x1_0000);
  }

  /** The mask form is `ROUNDUP` of the wrapped text end, for every size of text. */
  lemma DatAddrIsRoundUp(h: Header)
    requires Magic(h.info) != OMAGIC
    ensures DatAddr(h) == RoundUp(Add(TxtAddr(h), h.text), SEGMENT_SIZE)
  {
    var end := Add(TxtAddr(h), h.text);
    SegmentBits(Add(end, 0xffff_ffff));
    SegmentUp(end);
  }

  lemma SegmentUp(end: U32)
    ensures Add(SEGMENT_SIZE, Add(end, 0xffff_ffff) / 0x1_0000 * 0x1_0000) == RoundUp(end, SEGMENT_SIZE)
  {
    if end == 0 {
      assert Add(end, 0xffff_ffff) == 0xffff_ffff;
    } else {
      assert Add(end, 0xffff_ffff) == end - 1;
      var q := (end - 1) / 0x1_0000;
      assert (end - 1 + 0x1_0000) / 0x1_0000 == q + 1;
      if q < 0xffff {
        assert Add(end, 0xffff) == end - 1 + 0x1_0000;
      } else {
        assert Add(end, 0xffff) == end - 1 + 0x1_0000 - 0x1_0000_0000;
      }
    }
  }

  /** Hence it is the least segment boundary not below the true end of the text if and
      only if the text is at most 0xfffe0000 bytes. */
  lemma DatAddrIsBoundary(h: Header)
    requires Magic(h.info) != OMAGIC
    ensures LeastMultiple(DatAddr(h), SEGMENT_SIZE + h.text, SEGMENT_SIZE) <==> h.text <= 0xfffe_0000
  {
    DatAddrIsRoundUp(h);
    TextEnd(h.text);
  }

  lemma TextEnd(text: U32)
    ensures LeastMultiple(RoundUp(Add(SEGMENT_SIZE, text), SEGMENT_SIZE), SEGMENT_SIZE + text, SEGMENT_SIZE)
            <==> text <= 0xfffe_0000
  {
    if text < 0xffff_0000 {
      assert Add(SEGMENT_SIZE, text) == SEGMENT_SIZE + text;
      RoundUpIsLeast(SEGMENT_SIZE + text, SEGMENT_SIZE);
    } else {
      RoundUpFits(Add(SEGMENT_SIZE, text), SEGMENT_SIZE);
    }
  }

  /** One byte more and the data would be loaded at address 0. */
  lemma DatAddrWraps(h: Header)
    requires Magic(h.info) != OMAGIC && h.text == 0xfffe_0001
    ensures DatAddr(h) == 0
  {
    DatAddrIsRoundUp(h);
    RoundUpIsLeast(SEGMENT_SIZE + h.text, SEGMENT_SIZE);
  }

  /** The end of the text, rounded up or not, is a 32-bit address. */
  predicate FitsMemory(h: Header) {
    h.text <= (if Magic(h.info) == OMAGIC then 0xfffe_ffff else 0xfffe_0000)
  }

  /** Text, data and bss do not overlap in memory, in either form of header, as long as
      their ends are 32-bit addresses. */
  lemma AddressesOrdered(h: Header)
    requires FitsMemory(h) && DatAddr(h) + h.data + h.bss < 0x1_0000_0000
    ensures 0x1_0000 + h.text <= DatAddr(h) < 0x1_0000 + h.text + 0x1_0000
    ensures Magic(h.info) == OMAGIC ==> DatAddr(h) == 0x1_0000 + h.text
    ensures Magic(h.info) != OMAGIC ==> DatAddr(h) % 0x1_0000 == 0
    ensures DatAddr(h) + h.data == BssAddr(h)
    ensures BssAddr(h) + h.bss < 0x1_0000_0000
  {
    if Magic(h.info) == OMAGIC { ImpureAddress(h); } else { SegmentAddress(h); }
    AddIsSum(DatAddr(h), h.data);
  }

  lemma ImpureAddress(h: Header)
    requires Magic(h.info) == OMAGIC && h.text <= 0xfffe_ffff
    ensures DatAddr(h) == 0x1_0000 + h.text
  {}

  lemma SegmentAddress(h: Header)
    requires Magic(h.info) != OMAGIC && h.text <= 0xfffe_0000
    ensures 0x1_0000 + h.text <= DatAddr(h) < 0x1_0000 + h.text + 0x1_0000 && DatAddr(h) % 0x1_0000 == 0
  {
    DatAddrIsBoundary(h);
    MultipleOfSegment(DatAddr(h), SEGMENT_SIZE + h.text);
  }

  lemma MultipleOfSegment(m: nat, x: nat)
    requires LeastMultiple(m, x, SEGMENT_SIZE)
    ensures x <= m < x + 0x1_0000 && m % 0x1_0000 == 0
  {
    var k: int :| m == k * SEGMENT_SIZE;
  }
}
