/** A small image, byte by byte, and what the library makes of it: a function that
    moves its frame is unwound through, one that does not is not found, and one with
    other alignment factors is misread. */
module Witnesses {
  import opened Words
  import opened Options
  import opened Leb128
  import opened FrameTable
  import opened CallFrame
  import opened EhFrame
  import opened DwarfReference
  import F = InstructionFormat
  import I = ImageLayout
  import opened RuleRefinement
  import opened EmittedRules
  import opened TableCorrectness
  import opened Process
  import opened CodeCaching
  import opened LibraryList
  import opened Unwinding
  import opened CallChain
  import PlainPrograms
  import W = StackWalking

  // ----- the image -----

  const PAIRS: seq<u8> :=
    [0x00, 0x02, 0x00, 0x00] + [0x3a, 0x00, 0x00, 0x00]
    + ([0x60, 0x02, 0x00, 0x00] + [0x4e, 0x00, 0x00, 0x00]
       + ([0x80, 0x02, 0x00, 0x00] + [0x75, 0x00, 0x00, 0x00] + []))

  /** The search header: three entries, at 58, 78 and 117. */
  const HEADER: seq<u8> := [0x01, 0x1b, 0x03, 0x3b] + [0x20, 0x00, 0x00, 0x00] + [0x03, 0x00, 0x00, 0x00] + PAIRS

  /** At 36: factors 1 and -8. */
  const CIE: seq<u8> :=
    [0x12, 0x00, 0x00, 0x00]
    + [0x00, 0x00, 0x00, 0x00, 0x01, 0x7a, 0x52, 0x00, 0x01, 0x78, 0x10, 0x01, 0x1b, 0x0c, 0x07, 0x08, 0x90, 0x01]

  /** At 58, for 0x200 to 0x240: after 4 bytes the CFA is 32 above the stack pointer. */
  const FRAME_FDE: seq<u8> :=
    [0x10, 0x00, 0x00, 0x00] + [0x1a, 0x00, 0x00, 0x00] + [0xbe, 0x01, 0x00, 0x00] + [0x40, 0x00, 0x00, 0x00] + [0x00]
    + [0x44, 0x0e, 0x20]

  /** At 78, for 0x260 to 0x270: an empty program. */
  const LEAF_FDE: seq<u8> :=
    [0x0d, 0x00, 0x00, 0x00] + [0x2e, 0x00, 0x00, 0x00] + [0x0a, 0x02, 0x00, 0x00] + [0x10, 0x00, 0x00, 0x00] + [0x00] + []

  /** At 95: factors 1 and -4. */
  const OTHER_CIE: seq<u8> :=
    [0x12, 0x00, 0x00, 0x00]
    + [0x00, 0x00, 0x00, 0x00, 0x01, 0x7a, 0x52, 0x00, 0x01, 0x7c, 0x10, 0x01, 0x1b, 0x0c, 0x07, 0x08, 0x90, 0x02]

  /** At 117, for 0x280 to 0x290: the frame pointer saved 4 factors from the CFA. */
  const FAR_FDE: seq<u8> :=
    [0x0f, 0x00, 0x00, 0x00] + [0x1a, 0x00, 0x00, 0x00] + [0x03, 0x02, 0x00, 0x00] + [0x10, 0x00, 0x00, 0x00] + [0x00]
    + [0x86, 0x04]

  const IMAGE: Image := HEADER + CIE + FRAME_FDE + LEAF_FDE + OTHER_CIE + FAR_FDE

  lemma Parts()
    ensures Holds(IMAGE, 0, HEADER) && Holds(IMAGE, 36, CIE) && Holds(IMAGE, 58, FRAME_FDE)
    ensures Holds(IMAGE, 78, LEAF_FDE) && Holds(IMAGE, 95, OTHER_CIE) && Holds(IMAGE, 117, FAR_FDE)
  {
    Sizes();
    hide HEADER, CIE, FRAME_FDE, LEAF_FDE, OTHER_CIE, FAR_FDE;
    SixParts(HEADER, CIE, FRAME_FDE, LEAF_FDE, OTHER_CIE, FAR_FDE);
  }

  lemma Word(lo: u8, hi: u8)
    ensures Bytes4(lo + 0x100 * hi) == [lo, hi, 0, 0] && U32(lo + 0x100 * hi) == lo + 0x100 * hi
  {
  }

  lemma Sizes()
    ensures |HEADER| == 36 && |CIE| == 22 && |FRAME_FDE| == 20 && |LEAF_FDE| == 17 && |OTHER_CIE| == 22
  {
  }

  lemma SixParts(a: seq<u8>, b: seq<u8>, c: seq<u8>, d: seq<u8>, e: seq<u8>, f: seq<u8>)
    ensures var img := a + b + c + d + e + f;
      && Holds(img, 0, a) && Holds(img, |a|, b) && Holds(img, |a| + |b|, c) && Holds(img, |a| + |b| + |c|, d)
      && Holds(img, |a| + |b| + |c| + |d|, e) && Holds(img, |a| + |b| + |c| + |d| + |e|, f)
  {
    var img := a + b + c + d + e + f;
    assert img[0..|img|] == img;
    assert Holds(img, 0, img);
    hide Holds;
    HoldsParts(img, 0, a + b + c + d + e, f);
    HoldsParts(img, 0, a + b + c + d, e);
    I.HoldsFour(img, 0, a, b, c, d);
  }

  // ----- the image, read -----

  function Usual(n: nat): seq<F.Code> { [F.CodeText.DefCfa(7, 8), F.CodeText.ShortOffset(16, n)] }

  /** Augmented with a pointer encoding; the return address lies `n` factors from the CFA. */
  function CieFor(da: int, n: nat): I.CieFields { I.CieFields(1, [0x7a, 0x52], 1, da, 16, [0x1b], Usual(n)) }

  const FRAME_CODE: seq<F.Code> := [F.CodeText.Advance(4), F.CodeText.DefCfaOffset(32)]
  const FAR_CODE: seq<F.Code> := [F.CodeText.ShortOffset(6, 4)]

  function EntryFor(start: u32, end: u32, code: seq<F.Code>): I.FdeFields { I.FdeFields(start, end, true, [], code) }

  const TABLE: seq<(u32, i32)> := [(0x200, 58), (0x260, 78), (0x280, 117)]

  lemma SmallNumbers()
    ensures EncodeU(0) == [0] && EncodeU(1) == [1] && EncodeU(2) == [2] && EncodeU(4) == [4] && EncodeU(7) == [7]
    ensures EncodeU(8) == [8] && EncodeU(32) == [32] && EncodeS(-8) == [0x78] && EncodeS(-4) == [0x7c]
  {
  }

  lemma UsualBytes(n: nat)
    requires n < 0x80
    ensures F.ProgramBytes(Usual(n)) == [0x0c, 7, 8, 0x90, n]
  {
    SmallNumbers();
    assert EncodeU(n) == [n];
    hide EncodeU;
    var rest: seq<F.Code> := [F.CodeText.ShortOffset(16, n)];
    assert Usual(n)[1..] == rest && rest[1..] == [];
    assert F.CodeBytes(Usual(n)[0]) == [0x0c, 7, 8];
    assert F.CodeBytes(rest[0]) == [0x90, n];
    hide F.CodeBytes;
    assert F.ProgramBytes(rest) == [0x90, n] + [];
  }

  lemma CieFits(da: int, n: nat)
    requires n < 0x80 && (da == -8 || da == -4)
    ensures var t := CieFor(da, n);
      t.Body() == [0, 0, 0, 0, 1, 0x7a, 0x52, 0, 1, da + 0x80, 16, 1, 0x1b, 0x0c, 7, 8, 0x90, n]
  {
    SmallNumbers();
    UsualBytes(n);
    hide EncodeU, EncodeS, F.ProgramBytes, Usual;
  }

  function NearCie(): I.Cie {
    CieFits(-8, 1);
    CieFor(-8, 1)
  }

  function OtherCie(): I.Cie {
    CieFits(-4, 2);
    CieFor(-4, 2)
  }

  lemma CieWritten()
    ensures CIE == I.CieBytes(NearCie())
  {
    CieFits(-8, 1);
    Word(18, 0);
    hide I.CieFields.Body, CieFor, Bytes4;
  }

  lemma OtherCieWritten()
    ensures OTHER_CIE == I.CieBytes(OtherCie())
  {
    CieFits(-4, 2);
    Word(18, 0);
    hide I.CieFields.Body, CieFor, Bytes4;
  }

  lemma CodesWritten()
    ensures F.ProgramBytes(FRAME_CODE) == [0x44, 0x0e, 0x20] && F.ProgramBytes(FAR_CODE) == [0x86, 0x04]
    ensures F.ProgramBytes([]) == []
  {
    SmallNumbers();
    hide EncodeU;
    var last: seq<F.Code> := [F.CodeText.DefCfaOffset(32)];
    assert FRAME_CODE[1..] == last && last[1..] == [] && FAR_CODE[1..] == [];
    assert F.CodeBytes(FRAME_CODE[0]) == [0x44] && F.CodeBytes(last[0]) == [0x0e, 32] && F.CodeBytes(FAR_CODE[0]) == [0x86, 4];
    hide F.CodeBytes;
    assert F.ProgramBytes(last) == [0x0e, 32] + [];
  }

  lemma EntryWritten(t: I.Entry, p: int, c: int, bytes: seq<u8>)
    requires t == EntryFor(t.start, t.end, t.code) && F.ProgramBytes(t.code) == bytes
    ensures I.EntryBytes(t, p, c)
      == Bytes4(13 + |bytes|) + Bytes4(U32(p + 4 - c)) + Bytes4(U32(t.start - (p + 8))) + Bytes4(U32(t.end - t.start)) + [0] + bytes
  {
    SmallNumbers();
    hide EncodeU, F.ProgramBytes, Bytes4, U32;
    assert t.Tail() == [0] + bytes;
  }

  lemma TailFits(start: u32, end: u32, code: seq<F.Code>)
    requires |F.ProgramBytes(code)| < 0x100
    ensures |EntryFor(start, end, code).Tail()| < 0x200
  {
    SmallNumbers();
    hide EncodeU, F.ProgramBytes;
  }

  function FrameText(): I.Entry {
    CodesWritten();
    TailFits(0x200, 0x240, FRAME_CODE);
    EntryFor(0x200, 0x240, FRAME_CODE)
  }

  function LeafText(): I.Entry {
    CodesWritten();
    TailFits(0x260, 0x270, []);
    EntryFor(0x260, 0x270, [])
  }

  function FarText(): I.Entry {
    CodesWritten();
    TailFits(0x280, 0x290, FAR_CODE);
    EntryFor(0x280, 0x290, FAR_CODE)
  }

  lemma FrameWritten()
    ensures FRAME_FDE == I.EntryBytes(FrameText(), 58, 36)
  {
    CodesWritten();
    hide Bytes4, U32, FRAME_CODE, F.ProgramBytes, I.EntryBytes;
    EntryWritten(FrameText(), 58, 36, [0x44, 0x0e, 0x20]);
    Word(16, 0);
    Word(26, 0);
    Word(0xbe, 1);
    Word(0x40, 0);
  }

  lemma LeafWritten()
    ensures LEAF_FDE == I.EntryBytes(LeafText(), 78, 36)
  {
    CodesWritten();
    hide Bytes4, U32, F.ProgramBytes, I.EntryBytes;
    EntryWritten(LeafText(), 78, 36, []);
    Word(13, 0);
    Word(46, 0);
    Word(0x0a, 2);
    Word(0x10, 0);
  }

  lemma FarWritten()
    ensures FAR_FDE == I.EntryBytes(FarText(), 117, 95)
  {
    CodesWritten();
    hide Bytes4, U32, FAR_CODE, F.ProgramBytes, I.EntryBytes;
    EntryWritten(FarText(), 117, 95, [0x86, 0x04]);
    Word(15, 0);
    Word(26, 0);
    Word(3, 2);
    Word(0x10, 0);
  }

  lemma PairsCons(a: u32, b: i32, rest: seq<(u32, i32)>)
    ensures I.PairsBytes([(a, b)] + rest) == Bytes4(a) + Bytes4(U32(b)) + I.PairsBytes(rest)
  {
    assert ([(a, b)] + rest)[1..] == rest;
  }

  lemma HeaderWritten()
    ensures HEADER == I.HeaderBytes(1, (0x1b, 0x03, 0x3b), 32, 3, TABLE)
  {
    hide I.PairsBytes, Bytes4, TABLE, PAIRS;
    TableWritten();
    Word(32, 0);
    Word(3, 0);
  }

  lemma TableWritten()
    ensures I.PairsBytes(TABLE) == PAIRS
  {
    var t1, t2: seq<(u32, i32)> := [(0x260, 78), (0x280, 117)], [(0x280, 117)];
    assert TABLE == [(0x200, 58)] + t1 && t1 == [(0x260, 78)] + t2 && t2 == [(0x280, 117)] + [];
    assert I.PairsBytes([]) == [];
    hide I.PairsBytes, Bytes4, U32, TABLE;
    PairsCons(0x280, 117, []);
    PairsCons(0x260, 78, t2);
    PairsCons(0x200, 58, t1);
    Word(58, 0);
    Word(78, 0);
    Word(117, 0);
    Word(0, 2);
    Word(0x60, 2);
    Word(0x80, 2);
  }

  /** The entry that is read for one that was written with the usual instructions. */
  function Entry(start: u32, end: u32, prog: seq<Instr>, junk: Rules, da: int, n: nat): Fde {
    Fde(start, end, prog, junk, Some(Own(1, da, [DefCfa(7, 8), Offset(16, n)], prog)))
  }

  function FrameFde(junk: int -> Rules): Fde { Entry(0x200, 0x240, [AdvanceLoc(4), DefCfaOffset(32)], junk(58), -8, 1) }

  function LeafFde(junk: int -> Rules): Fde { Entry(0x260, 0x270, [], junk(78), -8, 1) }

  function FarFde(junk: int -> Rules): Fde { Entry(0x280, 0x290, [Offset(6, 4)], junk(117), -4, 2) }

  function FdeList(junk: int -> Rules): seq<Fde> { [FrameFde(junk), LeafFde(junk), FarFde(junk)] }

  lemma CodesMeaning(p: int, n: nat)
    ensures F.ProgramMeaning(FRAME_CODE, p) == [AdvanceLoc(4), DefCfaOffset(32)]
    ensures F.ProgramMeaning(FAR_CODE, p) == [Offset(6, 4)] && F.ProgramMeaning([], p) == []
    ensures F.ProgramMeaning(Usual(n), p) == [DefCfa(7, 8), Offset(16, n)]
  {
    var last: seq<F.Code>, slot: seq<F.Code> := [F.CodeText.DefCfaOffset(32)], [F.CodeText.ShortOffset(16, n)];
    assert FRAME_CODE[1..] == last && last[1..] == [] && FAR_CODE[1..] == [] && Usual(n)[1..] == slot && slot[1..] == [];
    hide F.CodeBytes;
    var q, r := p + |F.CodeBytes(FRAME_CODE[0])|, p + |F.CodeBytes(Usual(n)[0])|;
    assert F.ProgramMeaning(last, q) == [DefCfaOffset(32)];
    assert F.ProgramMeaning(slot, r) == [Offset(16, n)];
  }

  /** The parts are written as the layout prescribes. */
  lemma EntriesLie()
    ensures I.EntryAt(IMAGE, 58, FrameText(), 36, NearCie())
    ensures I.EntryAt(IMAGE, 78, LeafText(), 36, NearCie())
    ensures I.EntryAt(IMAGE, 117, FarText(), 95, OtherCie())
  {
    Parts();
    CieWritten();
    OtherCieWritten();
    FrameWritten();
    LeafWritten();
    FarWritten();
    hide IMAGE, CIE, OTHER_CIE, FRAME_FDE, LEAF_FDE, FAR_FDE, HEADER, I.CieBytes, I.EntryBytes, Holds, FRAME_CODE, FAR_CODE, Usual;
  }

  function Written(): seq<I.Placed> {
    [I.Placed(58, FrameText(), 36, NearCie()), I.Placed(78, LeafText(), 36, NearCie()), I.Placed(117, FarText(), 95, OtherCie())]
  }

  /** The bytes decode to these entries, all compiled under the first one's factors. */
  lemma ImageDecodes(junk: int -> Rules)
    ensures Fdes(IMAGE, FdePointers(IMAGE, 0), junk) == FdeList(junk)
    ensures ImageAlignment(IMAGE, FdePointers(IMAGE, 0), junk) == (1, -8)
  {
    WrittenLies();
    Factors();
    hide *;
    Parts();
    HeaderWritten();
    I.ImageReads(IMAGE, 0, (0x1b, 0x03, 0x3b), 32, TABLE, Written(), junk);
    FdesRead(Fdes(IMAGE, FdePointers(IMAGE, 0), junk), junk);
  }

  lemma WrittenLies()
    ensures |Written()| == |TABLE| == 3
    ensures forall i :: 0 <= i < 3 ==> var e := Written()[i]; e.at == 0 + TABLE[i].1 && I.EntryAt(IMAGE, e.at, e.entry, e.c, e.cie)
  {
    EntriesLie();
    hide IMAGE, I.EntryAt, FrameText, LeafText, FarText, NearCie, OtherCie;
  }

  lemma Factors()
    ensures U32(Written()[0].cie.codeAlign) == 1 && I32(Written()[0].cie.dataAlign) == -8
  {
    NearFactors();
    hide FrameText, LeafText, FarText, NearCie, OtherCie, U32, I32;
  }

  lemma NearFactors()
    ensures U32(NearCie().codeAlign) == 1 && I32(NearCie().dataAlign) == -8
  {
    assert U32(1) == 1 && I32(-8) == -8;
    hide Usual, U32, I32, I.CieFields.Body;
    assert NearCie() == CieFor(-8, 1);
  }

  lemma FdesRead(fs: seq<Fde>, junk: int -> Rules)
    requires |fs| == 3 && forall i :: 0 <= i < 3 ==> I.Reads(fs[i], Written()[i], junk)
    ensures fs == FdeList(junk)
  {
    hide I.Reads, FrameText, LeafText, FarText, NearCie, OtherCie, FrameFde, LeafFde, FarFde;
    assert I.Reads(fs[0], Written()[0], junk) && I.Reads(fs[1], Written()[1], junk) && I.Reads(fs[2], Written()[2], junk);
    FrameReads(fs[0], junk);
    LeafReads(fs[1], junk);
    FarReads(fs[2], junk);
  }

  lemma FrameReads(f: Fde, junk: int -> Rules)
    requires I.Reads(f, I.Placed(58, FrameText(), 36, NearCie()), junk)
    ensures f == FrameFde(junk)
  {
    CodesMeaning(FrameText().CodeStart(58), 1);
    CodesMeaning(NearCie().CodeStart(36), 1);
    hide F.ProgramMeaning, I.FdeFields.CodeStart, I.CieFields.CodeStart, FRAME_CODE, FAR_CODE, Usual;
  }

  lemma LeafReads(f: Fde, junk: int -> Rules)
    requires I.Reads(f, I.Placed(78, LeafText(), 36, NearCie()), junk)
    ensures f == LeafFde(junk)
  {
    CodesMeaning(LeafText().CodeStart(78), 1);
    CodesMeaning(NearCie().CodeStart(36), 1);
    hide F.ProgramMeaning, I.FdeFields.CodeStart, I.CieFields.CodeStart, FRAME_CODE, FAR_CODE, Usual;
  }

  lemma FarReads(f: Fde, junk: int -> Rules)
    requires I.Reads(f, I.Placed(117, FarText(), 95, OtherCie()), junk)
    ensures f == FarFde(junk)
  {
    CodesMeaning(FarText().CodeStart(117), 2);
    CodesMeaning(OtherCie().CodeStart(95), 2);
    hide F.ProgramMeaning, I.FdeFields.CodeStart, I.CieFields.CodeStart, FRAME_CODE, FAR_CODE, Usual;
  }

  // ----- the image, mapped -----

  const BASE: u64 := 0x40_0000

  function Library(junk: int -> Rules): Mapped {
    Mapped(Lib(BASE, BASE + 0x1000, BASE, CompileImage(IMAGE, 0, junk).recs), IMAGE, 0, junk)
  }

  lemma LibraryFaithful(junk: int -> Rules)
    ensures Library(junk).Faithful() && Library(junk).img == IMAGE
    ensures Library(junk).Entries() == FdeList(junk) && Library(junk).Align() == (1, -8)
  {
    ImageDecodes(junk);
    ListWellFormed(junk);
    hide IMAGE, Fdes, FdePointers, ImageAlignment, CompileImage, FdeList, WellFormed;
  }

  lemma ListWellFormed(junk: int -> Rules)
    ensures WellFormed(FdeList(junk), 1)
  {
    assert [AdvanceLoc(4), DefCfaOffset(32)][1..] == [DefCfaOffset(32)];
  }

  function Records(junk: int -> Rules): seq<FrameDesc> {
    TableCorrectness.Table(IMAGE, FdeList(junk), 1, -8)
  }

  lemma LibraryLookup(junk: int -> Rules, x: u32, pc: u64)
    requires pc == BASE + x
    ensures Library(junk).Target(pc) == x
    ensures Library(junk).lib.FrameDescFor(pc) == Lookup(Records(junk), x)
  {
    LibraryFaithful(junk);
    hide IMAGE, CompileImage, Mapped.Entries, Mapped.Align, FindFrameDesc, Lookup, TableCorrectness.Table, Mapped.Faithful,
         FdeList;
    FaithfulLookup(Library(junk), pc);
  }

  lemma LibraryFrame(junk: int -> Rules, x: u32, pc: u64)
    requires x < 0x1000 && pc == BASE + x
    ensures Home([Library(junk)], pc) == Some(Library(junk))
    ensures FrameAt(Libs([Library(junk)]), pc)
      == match Library(junk).lib.FrameDescFor(pc) case None => DEFAULT_FRAME case Some(f) => f
  {
    var m := Library(junk);
    assert m.lib.Contains(pc);
    hide IMAGE, CompileImage, FindFrameDesc, DEFAULT_FRAME;
    HomeLibrary([m], pc);
  }

  /** Both common information entries establish the usual row. */
  lemma UsualRow(o: Own, n: nat)
    requires o.initial == [DefCfa(7, 8), Offset(16, n)] && n * o.dataAlign == -8
    ensures InitialRow(o) == Some(INITIAL_ROW)
  {
    var p1: seq<Instr> := [Offset(16, n)];
    assert o.initial[1..] == p1 && p1[1..] == [];
    var row := BLANK_ROW.WithCfa(CfaRegister(7, 8));
    var s := DwState(row, [], None);
    assert DwExec(DwState(BLANK_ROW, [], None), DefCfa(7, 8), o.dataAlign) == Some(s);
    assert row.With(16, OffsetRule(-8)) == INITIAL_ROW;
    assert DwExec(s, Offset(16, n), o.dataAlign) == Some(s.(row := INITIAL_ROW));
    assert Established(p1, s, o.dataAlign) == Some(INITIAL_ROW);
  }

  lemma InitialAsks(img: Image)
    ensures Asked(img, INITIAL_ROW) == ENTRY_HELD && PlainPrograms.PlainRow(INITIAL_ROW)
  {
    assert INITIAL_ROW.RuleFor(6) == SameValueRule;
    assert INITIAL_ROW.RuleFor(16) == OffsetRule(-8);
  }

  // ----- the function that is not found -----

  lemma LeafMissed(junk: int -> Rules, x: u32)
    requires 0x260 <= x < 0x270
    ensures Lookup(Records(junk), x) == None
    ensures LeafFde(junk).start <= x < LeafFde(junk).end
    ensures FdeRowAt(LeafFde(junk), x) == Some(INITIAL_ROW)
  {
    ListWellFormed(junk);
    UsualRow(LeafFde(junk).own.value, 1);
    hide IMAGE, EntryRule, Library, InitialRow;
    LeafRows(LeafFde(junk));
    hide ProgramRows, Lookup, TableCorrectness.Table, WellFormed;
    LookupMissesAfterGap(IMAGE, FdeList(junk), 1, -8, 1, x);
  }

  lemma LeafRows(f: Fde)
    requires f.prog == []
    ensures forall r :: r in ProgramRows(IMAGE, f, 1, -8) ==> r.Rule() == EntryRule()
  {
    hide IMAGE;
  }

  /** The leaf function is covered, the standard gives it the initial row, and it is
      not found: both functions end and start with the same row, with a gap between. */
  lemma LeafFunctionMissed(junk: int -> Rules, x: u32, pc: u64)
    requires 0x260 <= x < 0x270 && pc == BASE + x
    ensures
      var m, leaf := Library(junk), LeafFde(junk);
      && m.Entries() == [FrameFde(junk), leaf, FarFde(junk)]
      && m.Target(pc) == x && leaf.start <= x < leaf.end
      && FdeRowAt(leaf, x) == Some(INITIAL_ROW)
      && m.lib.FrameDescFor(pc) == None
  {
    assert FdeList(junk) == [FrameFde(junk), LeafFde(junk), FarFde(junk)];
    hide *;
    LibraryFaithful(junk);
    LibraryLookup(junk, x, pc);
    LeafMissed(junk, x);
  }

  // ----- the function that is misread -----

  const FAR_ROW := INITIAL_ROW.With(6, OffsetRule(-16))

  lemma FarRow(junk: int -> Rules, x: u32)
    requires 0x280 <= x < 0x290
    ensures FdeRowAt(FarFde(junk), x) == Some(FAR_ROW)
  {
    UsualRow(FarFde(junk).own.value, 2);
    hide InitialRow;
    assert [Offset(6, 4)][1..] == [];
  }

  lemma FarHeld(img: Image, junk: int -> Rules, x: u32)
    requires 0x280 <= x < 0x290
    ensures FdeHeldAt(img, FarFde(junk), x, 1, -8) == Held(Some((REG_SP, 8)), Some(-32))
    ensures Asked(img, FAR_ROW) == Held(Some((REG_SP, 8)), Some(-16)) && Expressible(img, FAR_ROW)
  {
    hide IsPltBlock, RelativeBlock;
    assert [Offset(6, 4)][1..] == [];
    assert FAR_ROW.RuleFor(6) == OffsetRule(-16) && FAR_ROW.RuleFor(16) == OffsetRule(-8);
  }

  /** Under the image's factors every step of its program would be supported. */
  lemma FarSupported(img: Image, x: u32)
    ensures Supported(img, [Offset(6, 4)], 0x280, x, AT_START, None, false, 1, -8)
  {
    InitialAsks(img);
    var prog: seq<Instr> := [Offset(6, 4)];
    assert prog[1..] == [];
    PlainPrograms.PlainSupported(img, prog, 0x280, x, AT_START, false, None, 1, -8);
  }

  lemma {:induction false} GoverningIn(es: seq<FrameDesc>, x: u32)
    ensures Governing(es, x).Some? ==> Governing(es, x).value in es && Governing(es, x).value.loc <= x
    decreases |es|
  {
    if es != [] && es[|es| - 1].loc > x {
      GoverningIn(es[..|es| - 1], x);
    }
  }

  /** Every entry of the image follows a gap: what is held is found, unless it is the
      entry row behind the first one. */
  lemma Found(junk: int -> Rules, k: nat, x: u32, held: Held)
    requires k < 3 && FdeList(junk)[k].start <= x < FdeList(junk)[k].end
    requires FdeHeldAt(IMAGE, FdeList(junk)[k], x, 1, -8) == held && held.Known()
    requires k > 0 ==> (PackCfa(held.cfa.value.0, held.cfa.value.1), held.fp.value) != EntryRule()
    ensures var found := Lookup(Records(junk), x);
      found.Some? && Says(found.value, held)
  {
    var f := FdeList(junk)[k];
    ListWellFormed(junk);
    GapsBefore(junk, k);
    hide IMAGE, FdeHeldAt, ProgramRows, PackCfa, EntryRule, Lookup, TableCorrectness.Table, FdeList, InRange, Agrees, FdeRowAt,
         Governing, Expressible, Encode, Asked;
    FdeRefines(IMAGE, f, 1, -8, x, INITIAL_ROW);
    GoverningIn(ProgramRows(IMAGE, f, 1, -8), x);
    LookupMissesAfterGap(IMAGE, FdeList(junk), 1, -8, k, x);
    LookupSound(IMAGE, FdeList(junk), 1, -8, k, x);
  }

  lemma GapsBefore(junk: int -> Rules, k: nat)
    requires k < 3
    ensures k > 0 ==> FdeList(junk)[k - 1].end < FdeList(junk)[k].start
  {
  }

  lemma FarFound(junk: int -> Rules, x: u32)
    requires 0x280 <= x < 0x290
    ensures var found := Lookup(Records(junk), x);
      found.Some? && Says(found.value, Held(Some((REG_SP, 8)), Some(-32)))
  {
    FarHeld(IMAGE, junk, x);
    assert FdeList(junk)[2] == FarFde(junk);
    assert (PackCfa(REG_SP, 8), -32 as i32) != EntryRule();
    hide IMAGE, FdeHeldAt, PackCfa, EntryRule, Lookup, Records, FdeList, Asked, Expressible;
    Found(junk, 2, x, Held(Some((REG_SP, 8)), Some(-32)));
  }

  /** The parser reads every program under the first common information entry's factors.
      Here the entry's own data factor is another: a record is found, every step of the
      program would be supported under the image's factors, and yet the record is not
      the standard's row. So the condition on the factors cannot be dropped. */
  lemma FarFunctionMisread(junk: int -> Rules, x: u32, pc: u64)
    requires 0x280 <= x < 0x290 && pc == BASE + x
    ensures
      var m, far := Library(junk), FarFde(junk);
      && m.Entries() == FdeList(junk) && FdeList(junk)[2] == far && m.Target(pc) == x && far.start <= x < far.end
      && FdeRowAt(far, x) == Some(FAR_ROW) && Expressible(m.img, FAR_ROW)
      && Supported(m.img, far.prog, far.start, x, AT_START, None, false, m.Align().0, m.Align().1)
      && !Agrees(m.img, far, x, m.Align().0, m.Align().1)
      && m.lib.FrameDescFor(pc).Some? && m.lib.FrameDescFor(pc).value.Rule() != Encode(m.img, FAR_ROW)
  {
    FarFacts(junk, x);
    FarFound(junk, x);
    FarEncoded(IMAGE);
    hide IMAGE, Library, FdeList, Records, Lookup, FdeRowAt, Expressible, Supported, Agrees, Encode, Mapped.Faithful, Mapped.Target,
         Mapped.Entries, Mapped.Align, Lib.FrameDescFor, FarFde, PackCfa, BASE;
    LibraryFaithful(junk);
    LibraryLookup(junk, x, pc);
  }

  lemma FarFacts(junk: int -> Rules, x: u32)
    requires 0x280 <= x < 0x290
    ensures var far := FarFde(junk);
      && FdeList(junk)[2] == far && far.start <= x < far.end
      && FdeRowAt(far, x) == Some(FAR_ROW) && Expressible(IMAGE, FAR_ROW)
      && Supported(IMAGE, far.prog, far.start, x, AT_START, None, false, 1, -8)
      && !Agrees(IMAGE, far, x, 1, -8)
  {
    assert FdeList(junk)[2] == FarFde(junk);
    hide IMAGE, FdeRowAt, FdeHeldAt, Asked, Supported, Expressible, FdeList;
    FarRow(junk, x);
    FarHeld(IMAGE, junk, x);
    FarSupported(IMAGE, x);
  }

  lemma FarEncoded(img: Image)
    ensures Expressible(img, FAR_ROW) && Encode(img, FAR_ROW) == (PackCfa(REG_SP, 8), -16)
  {
    hide PackCfa;
    assert FAR_ROW.RuleFor(6) == OffsetRule(-16) && FAR_ROW.RuleFor(16) == OffsetRule(-8);
  }

  // ----- the function that is unwound through -----

  const FRAME_ROW := INITIAL_ROW.WithCfa(CfaRegister(7, 32))

  /** The row of the frame function behind its first four bytes. */
  lemma FrameRow(junk: int -> Rules, x: u32)
    requires 0x204 <= x < 0x240
    ensures FdeRowAt(FrameFde(junk), x) == Some(FRAME_ROW)
  {
    UsualRow(FrameFde(junk).own.value, 1);
    hide InitialRow;
    var rest: seq<Instr> := [DefCfaOffset(32)];
    assert FrameFde(junk).prog[1..] == rest && rest[1..] == [];
  }

  lemma FrameSupported(img: Image, junk: int -> Rules, x: u32)
    ensures FdeSupported(img, FrameFde(junk), x, 1, -8)
  {
    UsualRow(FrameFde(junk).own.value, 1);
    InitialAsks(img);
    hide InitialRow, Asked;
    var prog: seq<Instr>, rest: seq<Instr> := [AdvanceLoc(4), DefCfaOffset(32)], [DefCfaOffset(32)];
    assert prog[1..] == rest && rest[1..] == [];
    PlainPrograms.PlainSupported(img, prog, 0x200, x, AT_START, false, None, 1, -8);
  }

  lemma FrameAsks(img: Image)
    ensures Asked(img, FRAME_ROW) == Held(Some((REG_SP, 32)), Some(SAME_FP))
  {
    assert INITIAL_ROW.RuleFor(6) == SameValueRule;
    assert INITIAL_ROW.RuleFor(16) == OffsetRule(-8);
  }

  lemma FrameAgrees(img: Image, junk: int -> Rules, x: u32)
    requires 0x204 <= x < 0x240
    ensures Agrees(img, FrameFde(junk), x, 1, -8)
    ensures FdeHeldAt(img, FrameFde(junk), x, 1, -8) == Held(Some((REG_SP, 32)), Some(SAME_FP))
  {
    hide FdeHeldAt, FdeRowAt, FdeSupported, Asked, FrameFde;
    FrameSupported(img, junk, x);
    SupportedAgrees(img, FrameFde(junk), x, 1, -8);
    FrameRow(junk, x);
    FrameAsks(img);
  }

  lemma FrameIndex(junk: int -> Rules, x: u32)
    requires 0x200 <= x < 0x240
    ensures EntryIndex(FdeList(junk), x) == Some(0) && FdeList(junk)[0] == FrameFde(junk)
    ensures FrameFde(junk).start == 0x200 && FrameFde(junk).end == 0x240
  {
  }

  lemma FramePlaced(junk: int -> Rules, x: u32, pc: u64)
    requires 0x204 <= x < 0x240 && pc == BASE + x
    ensures Placed([Library(junk)], pc)
  {
    FrameIndex(junk, x);
    hide IMAGE, Library, Agrees, Lookup, Records, Mapped.Faithful, EntryIndex, Home, Libs, Mapped.Target,
         Lib.FrameDescFor, Mapped.Entries, Mapped.Align, Mapped.Missing, FrameFde, FdeList, FrameAt, BASE;
    LibraryFaithful(junk);
    LibraryLookup(junk, x, pc);
    LibraryFrame(junk, x, pc);
    FrameAgrees(IMAGE, junk, x);
  }

  /** The record found in the frame function. */
  lemma FrameRecord(junk: int -> Rules, x: u32, pc: u64)
    requires 0x204 <= x < 0x240 && pc == BASE + x
    ensures FrameAt(Libs([Library(junk)]), pc).Rule() == (PackCfa(REG_SP, 32), SAME_FP)
  {
    hide *;
    LibraryLookup(junk, x, pc);
    LibraryFrame(junk, x, pc);
    FrameFound(junk, x);
  }

  lemma FrameFound(junk: int -> Rules, x: u32)
    requires 0x204 <= x < 0x240
    ensures
      var found := Lookup(Records(junk), x);
      found.Some? && found.value.Rule() == (PackCfa(REG_SP, 32), SAME_FP)
  {
    FrameIndex(junk, x);
    hide IMAGE, FdeHeldAt, Agrees, PackCfa, Lookup, Records, FdeList, FrameFde, EntryIndex, EntryRule;
    FrameAgrees(IMAGE, junk, x);
    Found(junk, 0, x, Held(Some((REG_SP, 32)), Some(SAME_FP)));
  }

  /** Such a frame is unwound by the stack pointer alone. */
  lemma FrameUnwound(f: FrameDesc, mem: Memory, c: Ctx)
    requires f.Rule() == (PackCfa(REG_SP, 32), SAME_FP) && c.sp < 0x1000_0000
    ensures Unwound(f, mem, c) == Some(Ctx(Load(mem, c.sp + 24), c.sp + 32, c.fp))
    ensures Needs(f, c) == {c.sp + 24}
  {
    FrameSp(f, c);
    assert !IsPcOffset(SAME_FP);
    SmallAddress(c.sp);
    hide PackCfa, W.NextSp, Load, U64, IsPcOffset;
  }

  lemma SmallAddress(sp: u64)
    requires sp < 0x1000_0000
    ensures U64(sp + 32 - 8) == sp + 24
  {
  }

  lemma FrameSp(f: FrameDesc, c: Ctx)
    requires f.Rule() == (PackCfa(REG_SP, 32), SAME_FP) && c.sp < 0x1000_0000
    ensures W.NextSp(f, c) == Some(c.sp + 32)
  {
    hide PackCfa, CfaReg, CfaOff;
    PackCfaRoundTrip(REG_SP, 32);
  }

  lemma FrameSlots(junk: int -> Rules, x: u32, c: Ctx)
    requires 0x204 <= x < 0x240 && c.pc == BASE + x && c.sp < 0x1000_0000
    ensures Slots([Library(junk)], c) == {c.sp + 24}
  {
    FrameRecord(junk, x, c.pc);
    hide Library, FrameAt, Libs, Unwound, Needs, PackCfa;
    FrameUnwound(FrameAt(Libs([Library(junk)]), c.pc), map[], c);
  }

  lemma FramePrescribed(junk: int -> Rules, mem: Memory, x: u32, c: Ctx)
    requires 0x204 <= x < 0x240 && c.pc == BASE + x && c.sp < 0x1000_0000
    ensures PrescribedCaller([Library(junk)], mem, c) == Some(Ctx(Load(mem, c.sp + 24), c.sp + 32, c.fp))
  {
    var ms := [Library(junk)];
    LibraryFaithful(junk);
    assert AllFaithful(ms);
    hide IMAGE, AllFaithful, Library, Placed, PrescribedCaller, FrameAt, Unwound, Needs, Load, Libs, Mapped.Faithful,
         PackCfa, BASE;
    FramePlaced(junk, x, c.pc);
    FrameRecord(junk, x, c.pc);
    FrameUnwindsTruly(ms, mem, c);
    FrameUnwound(FrameAt(Libs(ms), c.pc), mem, c);
  }

  lemma FrameLive(junk: int -> Rules, mem: Memory, x: u32, c: Ctx, d: Ctx)
    requires 0x204 <= x < 0x240 && c.pc == BASE + x && c.sp < 0x1000_0000 && c.sp % 8 == 0
    requires d == Ctx(Load(mem, c.sp + 24), c.sp + 32, c.fp) && 0x1000 <= d.pc < 0x1000_0000
    ensures Live([Library(junk)], mem, c, d)
  {
    assert Guarded(c, d);
    hide Guarded, Library, Placed, PrescribedCaller, Load, BASE;
    FramePlaced(junk, x, c.pc);
    FramePrescribed(junk, mem, x, c);
  }

  // ----- a run through it -----

  /** Two nested activations of the frame function. The inner one stores through a
      pointer into the outer one's frame, above its own return address. */
  const FIRST_CALL := Event.Call(0x2010, BASE + 0x200)
  const FIRST_BODY := Event.Body(Ctx(BASE + 0x210, 0x7_ffe0, 0x8_1000), map[])
  const SECOND_CALL := Event.Call(BASE + 0x214, BASE + 0x200)
  const SECOND_BODY := Event.Body(Ctx(BASE + 0x208, 0x7_ffc0, 0x8_1000), map[0x7_ffe8 := 5])

  const OUTER := Ctx(0x2010, 0x8_0000, 0x8_1000)
  const MIDDLE := Ctx(BASE + 0x214, 0x7_ffe0, 0x8_1000)

  const AFTER_CALL := Stack(map[0x7_fff8 := 0x2010], [Ctx(BASE + 0x200, 0x7_fff8, 0x8_1000), OUTER])
  const AFTER_BODY := Stack(map[0x7_fff8 := 0x2010], [Ctx(BASE + 0x210, 0x7_ffe0, 0x8_1000), OUTER])
  const AFTER_SECOND :=
    Stack(map[0x7_fff8 := 0x2010, 0x7_ffd8 := BASE + 0x214], [Ctx(BASE + 0x200, 0x7_ffd8, 0x8_1000), MIDDLE, OUTER])
  const AT_END :=
    Stack(map[0x7_fff8 := 0x2010, 0x7_ffd8 := BASE + 0x214, 0x7_ffe8 := 5],
          [Ctx(BASE + 0x208, 0x7_ffc0, 0x8_1000), MIDDLE, OUTER])

  lemma FirstCall(junk: int -> Rules, top: Ctx)
    requires top == Ctx(0x2000, 0x8_0000, 0x8_1000)
    ensures
      var s := Stack(map[], [top]);
      Conforms([Library(junk)], s, FIRST_CALL) && CallChain.Next(s, FIRST_CALL) == AFTER_CALL
  {
    hide Library;
  }

  lemma FirstBody(junk: int -> Rules)
    ensures Conforms([Library(junk)], AFTER_CALL, FIRST_BODY) && CallChain.Next(AFTER_CALL, FIRST_BODY) == AFTER_BODY
  {
    hide Library;
    assert AFTER_CALL.mem + map[] == AFTER_CALL.mem;
  }

  lemma MiddleLive(junk: int -> Rules)
    ensures Live([Library(junk)], AFTER_SECOND.mem, MIDDLE, OUTER)
    ensures Slots([Library(junk)], MIDDLE) == {0x7_fff8}
  {
    assert Load(AFTER_SECOND.mem, 0x7_fff8) == 0x2010;
    hide Live, Library, Slots, Load, IMAGE;
    FrameLive(junk, AFTER_SECOND.mem, 0x214, MIDDLE, OUTER);
    FrameSlots(junk, 0x214, MIDDLE);
  }

  lemma SecondCall(junk: int -> Rules)
    ensures Conforms([Library(junk)], AFTER_BODY, SECOND_CALL)
  {
    SecondStep();
    MiddleLive(junk);
    hide Live, Library, Slots, CallChain.Next, AFTER_SECOND, SECOND_CALL, MIDDLE, OUTER, BASE;
    assert SECOND_CALL.Call?;
  }

  lemma SecondStep()
    ensures CallChain.Next(AFTER_BODY, SECOND_CALL) == AFTER_SECOND
    ensures SECOND_CALL.Call? && |AFTER_BODY.frames| == 2 && AFTER_BODY.frames[1] == OUTER
    ensures |AFTER_SECOND.frames| == 3 && AFTER_SECOND.frames[1] == MIDDLE && AFTER_SECOND.frames[2] == OUTER
  {
  }

  lemma SecondBody(junk: int -> Rules)
    ensures Conforms([Library(junk)], AFTER_SECOND, SECOND_BODY)
  {
    SecondStep();
    MiddleLive(junk);
    SecondWrites();
    hide Live, Library, Slots, SECOND_BODY, AFTER_SECOND, AFTER_BODY, SECOND_CALL, CallChain.Next, MIDDLE, OUTER, BASE;
    assert Spared([Library(junk)], AFTER_SECOND, 0x7_ffe8);
    hide Spared;
    assert forall a :: a in SECOND_BODY.writes ==> Spared([Library(junk)], AFTER_SECOND, a);
  }

  lemma SecondWrites()
    ensures SECOND_BODY.Body? && forall a :: a in SECOND_BODY.writes ==> a == 0x7_ffe8
  {
  }

  lemma BodyStep()
    ensures CallChain.Next(AFTER_SECOND, SECOND_BODY) == AT_END
  {
    assert AT_END.mem == AFTER_SECOND.mem + map[0x7_ffe8 := 5];
  }

  lemma EndInterruptible(junk: int -> Rules)
    ensures Interruptible([Library(junk)], AT_END)
  {
    assert Load(AT_END.mem, 0x7_ffd8) == BASE + 0x214;
    hide Live, Library, Load;
    FrameLive(junk, AT_END.mem, 0x208, AT_END.frames[0], MIDDLE);
  }

  lemma RunConforms(junk: int -> Rules, top: Ctx)
    requires top == Ctx(0x2000, 0x8_0000, 0x8_1000)
    ensures
      var s0, es := Stack(map[], [top]), [FIRST_CALL, FIRST_BODY, SECOND_CALL, SECOND_BODY];
      ConformingRun([Library(junk)], s0, es) && CallChain.Run(s0, es) == AT_END
  {
    var ms, s0 := [Library(junk)], Stack(map[], [top]);
    hide *;
    FirstCall(junk, top);
    FirstBody(junk);
    SecondCall(junk);
    SecondStep();
    SecondBody(junk);
    BodyStep();
    StacksNotEmpty();
    var e3, e2, e1 := [SECOND_BODY], [SECOND_CALL, SECOND_BODY], [FIRST_BODY, SECOND_CALL, SECOND_BODY];
    RunEmpty(ms, AT_END);
    RunCons(ms, AFTER_SECOND, SECOND_BODY, [], e3);
    RunCons(ms, AFTER_BODY, SECOND_CALL, e3, e2);
    RunCons(ms, AFTER_CALL, FIRST_BODY, e2, e1);
    RunCons(ms, s0, FIRST_CALL, e1, [FIRST_CALL, FIRST_BODY, SECOND_CALL, SECOND_BODY]);
  }

  lemma RunEmpty(ms: seq<Mapped>, s: Stack)
    requires s.frames != []
    ensures ConformingRun(ms, s, []) && CallChain.Run(s, []) == s
  {
  }

  lemma RunCons(ms: seq<Mapped>, s: Stack, e: CallChain.Event, rest: seq<CallChain.Event>, es: seq<CallChain.Event>)
    requires s.frames != [] && CallChain.Next(s, e).frames != [] && es == [e] + rest
    ensures
      var s' := CallChain.Next(s, e);
      && (ConformingRun(ms, s, es) <==> Conforms(ms, s, e) && ConformingRun(ms, s', rest))
      && CallChain.Run(s, es) == CallChain.Run(s', rest)
  {
    hide Conforms, CallChain.Next;
    assert es[1..] == rest;
  }

  /** The run through the compiled image conforms, and walking it recovers both
      calls of the frame function and the call from outside. */
  lemma ImageRun(junk: int -> Rules, top: Ctx, n: nat)
    requires top == Ctx(0x2000, 0x8_0000, 0x8_1000) && n >= 3
    ensures
      var s0, es := Stack(map[], [top]), [FIRST_CALL, FIRST_BODY, SECOND_CALL, SECOND_BODY];
      var pcs := W.Pcs(W.Visits(Libs([Library(junk)]), AT_END.mem, AT_END.frames[0], n));
      && ConformingRun([Library(junk)], s0, es) && CallChain.Run(s0, es) == AT_END
      && |pcs| >= 3 && pcs[..3] == [BASE + 0x208, BASE + 0x214, 0x2010]
  {
    hide *;
    RunConforms(junk, top);
    EndInterruptible(junk);
    LibraryAlone(junk);
    PendingReturns();
    StacksNotEmpty();
    var es, chain := [FIRST_CALL, FIRST_BODY, SECOND_CALL, SECOND_BODY], [BASE + 0x208, BASE + 0x214, 0x2010];
    WalkRecoversCalls([Library(junk)], Stack(map[], [top]), es, n);
    assert [BASE + 0x208] + [BASE + 0x214, 0x2010] == chain;
    assert chain[..3] == chain;
  }

  lemma LibraryAlone(junk: int -> Rules)
    ensures AllFaithful([Library(junk)])
  {
    LibraryFaithful(junk);
    hide Library, Mapped.Faithful;
  }

  lemma StacksNotEmpty()
    ensures AFTER_CALL.frames != [] && AFTER_BODY.frames != [] && AFTER_SECOND.frames != [] && AT_END.frames != []
    ensures AT_END.frames[0].pc == BASE + 0x208
  {
  }

  lemma PendingReturns()
    ensures Pending([FIRST_CALL, FIRST_BODY, SECOND_CALL, SECOND_BODY], []) == [BASE + 0x214, 0x2010]
  {
    var e3 := [SECOND_CALL, SECOND_BODY];
    var e2 := [FIRST_BODY] + e3;
    assert e3[1..] == [SECOND_BODY] && e2[1..] == e3 && [SECOND_BODY][1..] == [];
    assert [FIRST_CALL, FIRST_BODY, SECOND_CALL, SECOND_BODY][1..] == e2;
    assert [0x2010] + [] == [0x2010] && [BASE + 0x214] + [0x2010] == [BASE + 0x214, 0x2010];
    assert Pending([SECOND_BODY], [BASE + 0x214, 0x2010]) == [BASE + 0x214, 0x2010];
    assert Pending(e3, [0x2010]) == [BASE + 0x214, 0x2010];
    assert Pending(e2, [0x2010]) == [BASE + 0x214, 0x2010];
  }

  // ----- bytes of the two programs that the parser gets wrong -----

  /** The frame pointer saved and its rule restored, as in `PlainPrograms.RestoreIgnored`. */
  const RESTORING: Image := [0x86, 0x02, 0xc6]

  lemma RestoringDecodes()
    ensures Program(RESTORING, 0, 3) == [Offset(6, 2), Restore(6)]
  {
    assert Decode(RESTORING, 0) == (Offset(6, 2), 2) && Decode(RESTORING, 2) == (Restore(6), 3);
    hide Decode, RESTORING;
    assert Program(RESTORING, 3, 3) == [];
    assert Program(RESTORING, 2, 3) == [Restore(6)];
  }

  /** Two states remembered and restored, as in `PlainPrograms.NestedRememberLost`. */
  const NESTING: Image := [0x0a, 0x0e, 0x10, 0x0a, 0x0b, 0x0b]

  lemma NestingDecodes()
    ensures Program(NESTING, 0, 6) == [RememberState, DefCfaOffset(16), RememberState, RestoreState, RestoreState]
  {
    assert Decode(NESTING, 0) == (RememberState, 1) && Decode(NESTING, 1) == (DefCfaOffset(16), 3);
    assert Decode(NESTING, 3) == (RememberState, 4);
    assert Decode(NESTING, 4) == (RestoreState, 5) && Decode(NESTING, 5) == (RestoreState, 6);
    hide Decode, NESTING;
    assert Program(NESTING, 6, 6) == [];
    assert Program(NESTING, 5, 6) == [RestoreState];
    assert Program(NESTING, 4, 6) == [RestoreState, RestoreState];
    assert Program(NESTING, 3, 6) == [RememberState, RestoreState, RestoreState];
  }
}
