/** The layout of `.eh_frame_hdr` and `.eh_frame` (section 10.6 of LSB Core),
    and the table that a whole image compiles to. */
module EhFrame {
  import opened Words
  import opened Options
  import opened Leb128
  import opened FrameTable
  import opened CallFrame

  /** What an entry's own common information entry makes of it: alignment factors,
      initial instructions, and the entry's program. */
  datatype Own = Own(codeAlign: nat, dataAlign: int, initial: seq<Instr>, prog: seq<Instr>)

  /** A frame description entry: the code it covers, its program as the parser reads
      it and as it is meant. `junk` is what the remembered-state slot holds before
      anything is remembered. */
  datatype Fde = Fde(start: u32, end: u32, prog: seq<Instr>, junk: Rules, own: Option<Own>)

  /** What the parser has built so far: the table and the alignment factors. */
  datatype Compiled = Compiled(recs: seq<FrameDesc>, codeAlign: u32, dataAlign: i32)

  const FRESH := Compiled([], 1, -8)

  predicate IsSkippedLength(len: u32) { len == 0 || len == 0xffff_ffff }

  /** The position after the zero byte that ends the string at `p`. */
  function StringEnd(img: Image, p: int): (end: int)
    ensures p < end
    decreases |img| - p
  {
    if Byte(img, p) == 0 then p + 1 else StringEnd(img, p + 1)
  }

  /** The alignment factors of the common information entry at `p`. */
  function CieAlignment(img: Image, p: int): Option<(u32, i32)> {
    if IsSkippedLength(Get32(img, p)) then None
    else
      var a := FactorsAt(img, p);
      Some((U32(ULeb(img, a)), I32(SLeb(img, LebEnd(img, a)))))
  }

  /** Where the alignment factors of the common information entry at `p` lie. */
  function FactorsAt(img: Image, p: int): int { StringEnd(img, p + 4 + 5) }

  /** Whether its augmentation string says that it and its entries hold augmentation
      data. */
  predicate Augmented(img: Image, p: int) { Byte(img, p + 4 + 5) == 0x7a }

  /** The instructions of the common information entry at `p`: behind the return
      address register, a byte in version 1, and the augmentation data, if any. */
  function InitialProgram(img: Image, p: int): seq<Instr> {
    var reg := LebEnd(img, LebEnd(img, FactorsAt(img, p)));
    var data := if Byte(img, p + 4 + 4) == 1 then reg + 1 else LebEnd(img, reg);
    var code := if Augmented(img, p) then LebEnd(img, data) + ULeb(img, data) else data;
    Program(img, code, p + 4 + Get32(img, p))
  }

  /** The entry at `p` under its own common information entry (section 10.6 of LSB
      Core); none if that has no 32-bit length. */
  function OwnAt(img: Image, p: int): Option<Own> {
    var cie, aug := p + 4 - Get32(img, p + 4), p + 4 + 12;
    if IsSkippedLength(Get32(img, cie)) then None
    else
      var a := FactorsAt(img, cie);
      var code := if Augmented(img, cie) then LebEnd(img, aug) + ULeb(img, aug) else aug;
      Some(Own(ULeb(img, a), SLeb(img, LebEnd(img, a)), InitialProgram(img, cie), Program(img, code, p + 4 + Get32(img, p))))
  }

  /** The entry whose length field is at `p`. */
  function FdeAt(img: Image, p: int, junk: int -> Rules): Option<Fde> {
    var len := Get32(img, p);
    if IsSkippedLength(len) then None
    else
      var body := p + 4;
      var start := U32(body + 4 + I32(Get32(img, body + 4)));
      var end := U32(start + Get32(img, body + 8));
      var aug := body + 12;
      var code := LebEnd(img, aug) + U32(ULeb(img, aug));
      Some(Fde(start, end, Program(img, code, body + len), junk(p), OwnAt(img, p)))
  }

  /** All rows of an entry: those of its program and the one that ends it. */
  function FdeRows(img: Image, f: Fde, codeAlign: u32, dataAlign: i32): seq<FrameDesc> {
    Emissions(img, f.prog, Machine(f.start, INITIAL_RULES, f.junk), f.end, codeAlign, dataAlign)
      + [Terminator(f)]
  }

  function Terminator(f: Fde): FrameDesc {
    FrameDesc(f.end, f.end, EntryRule().0, EntryRule().1)
  }

  /** Alignment factors in force for the entry at `p`: read from its CIE only
      while the table is still empty. */
  function Alignment(img: Image, p: int, c: Compiled): (u32, i32) {
    if c.recs != [] then (c.codeAlign, c.dataAlign)
    else
      match CieAlignment(img, p + 4 - Get32(img, p + 4))
      case Some(a) => a
      case None => (c.codeAlign, c.dataAlign)
  }

  function CompileFde(img: Image, p: int, c: Compiled, junk: int -> Rules): Compiled {
    match FdeAt(img, p, junk)
    case None => c
    case Some(f) =>
      var (ca, da) := Alignment(img, p, c);
      Compiled(AddAll(c.recs, FdeRows(img, f, ca, da)), ca, da)
  }

  function CompileAll(img: Image, ptrs: seq<int>, c: Compiled, junk: int -> Rules): Compiled
    decreases |ptrs|
  {
    if ptrs == [] then c
    else CompileAll(img, ptrs[1..], CompileFde(img, ptrs[0], c, junk), junk)
  }

  /** Version 1, 4-byte pc-relative encodings, and a sorted search table of
      4-byte offsets from the header. */
  predicate SupportedHeader(img: Image, hdr: int) {
    && Byte(img, hdr) == 1
    && Byte(img, hdr + 1) % 8 == 3
    && Byte(img, hdr + 2) % 8 == 3
    && (Byte(img, hdr + 3) == 0x33 || Byte(img, hdr + 3) == 0x3b)
  }

  function FdePointers(img: Image, hdr: int): seq<int> {
    var n := I32(Get32(img, hdr + 8));
    if !SupportedHeader(img, hdr) || n < 0 then []
    else seq(n, i => FdePointer(img, hdr, i))
  }

  function FdePointer(img: Image, hdr: int, i: int): int {
    hdr + I32(Get32(img, hdr + 16 + 8 * i))
  }

  /** The result of parsing the image whose `.eh_frame_hdr` is at `hdr`. */
  function CompileImage(img: Image, hdr: int, junk: int -> Rules): Compiled {
    CompileAll(img, FdePointers(img, hdr), FRESH, junk)
  }

  // ----- the same result, as one stream of rows -----

  function Fdes(img: Image, ptrs: seq<int>, junk: int -> Rules): seq<Fde>
    decreases |ptrs|
  {
    if ptrs == [] then []
    else
      match FdeAt(img, ptrs[0], junk)
      case None => Fdes(img, ptrs[1..], junk)
      case Some(f) => [f] + Fdes(img, ptrs[1..], junk)
  }

  function Rows(img: Image, fdes: seq<Fde>, codeAlign: u32, dataAlign: i32): seq<FrameDesc> {
    if fdes == [] then []
    else FdeRows(img, fdes[0], codeAlign, dataAlign) + Rows(img, fdes[1..], codeAlign, dataAlign)
  }

  /** The alignment factors the whole image is compiled with: those of the
      first entry's CIE. */
  function ImageAlignment(img: Image, ptrs: seq<int>, junk: int -> Rules): (u32, i32)
    decreases |ptrs|
  {
    if ptrs == [] then (FRESH.codeAlign, FRESH.dataAlign)
    else if FdeAt(img, ptrs[0], junk).None? then ImageAlignment(img, ptrs[1..], junk)
    else Alignment(img, ptrs[0], FRESH)
  }

  lemma {:induction false} CompileIsStream(img: Image, ptrs: seq<int>, c: Compiled, junk: int -> Rules)
    requires c.recs != []
    ensures CompileAll(img, ptrs, c, junk)
      == c.(recs := AddAll(c.recs, Rows(img, Fdes(img, ptrs, junk), c.codeAlign, c.dataAlign)))
    decreases |ptrs|
  {
    if ptrs != [] {
      match FdeAt(img, ptrs[0], junk)
      case None =>
        CompileIsStream(img, ptrs[1..], c, junk);
      case Some(f) =>
        var rows := FdeRows(img, f, c.codeAlign, c.dataAlign);
        var rest := Fdes(img, ptrs[1..], junk);
        AddAllGrowth(c.recs, rows);
        CompileIsStream(img, ptrs[1..], CompileFde(img, ptrs[0], c, junk), junk);
        RowsCons(img, f, rest, c.codeAlign, c.dataAlign);
        AddAllConcat(c.recs, rows, Rows(img, rest, c.codeAlign, c.dataAlign));
    }
  }

  lemma RowsCons(img: Image, f: Fde, rest: seq<Fde>, codeAlign: u32, dataAlign: i32)
    ensures Rows(img, [f] + rest, codeAlign, dataAlign)
      == FdeRows(img, f, codeAlign, dataAlign) + Rows(img, rest, codeAlign, dataAlign)
  {
    assert ([f] + rest)[1..] == rest;
  }

  lemma {:induction false} RowsConcat(img: Image, a: seq<Fde>, b: seq<Fde>, codeAlign: u32, dataAlign: i32)
    ensures Rows(img, a + b, codeAlign, dataAlign)
      == Rows(img, a, codeAlign, dataAlign) + Rows(img, b, codeAlign, dataAlign)
    decreases |a|
  {
    if a == [] {
      assert a + b == b;
    } else {
      hide FdeRows, Rows;
      var f, rest := a[0], a[1..];
      assert a + b == [f] + (rest + b) && a == [f] + rest;
      RowsCons(img, f, rest + b, codeAlign, dataAlign);
      RowsCons(img, f, rest, codeAlign, dataAlign);
      RowsConcat(img, rest, b, codeAlign, dataAlign);
    }
  }

  /** An image compiles to the compressed stream of the rows of its entries, all
      under the alignment factors of the first one. */
  lemma {:induction false} ImageIsStream(img: Image, ptrs: seq<int>, junk: int -> Rules)
    ensures
      var (ca, da) := ImageAlignment(img, ptrs, junk);
      CompileAll(img, ptrs, FRESH, junk)
      == Compiled(AddAll([], Rows(img, Fdes(img, ptrs, junk), ca, da)), ca, da)
    decreases |ptrs|
  {
    if ptrs != [] {
      match FdeAt(img, ptrs[0], junk)
      case None =>
        ImageIsStream(img, ptrs[1..], junk);
      case Some(f) =>
        var (ca, da) := Alignment(img, ptrs[0], FRESH);
        var rows := FdeRows(img, f, ca, da);
        var rest := Fdes(img, ptrs[1..], junk);
        assert rows != [];
        FirstRowStays([], rows);
        CompileIsStream(img, ptrs[1..], CompileFde(img, ptrs[0], FRESH, junk), junk);
        RowsCons(img, f, rest, ca, da);
        AddAllConcat([], rows, Rows(img, rest, ca, da));
    }
  }

  lemma FirstRowStays(t: seq<FrameDesc>, es: seq<FrameDesc>)
    requires es != []
    ensures AddAll(t, es) != []
  {
    AddAllGrowth(AddRecord(t, es[0]), es[1..]);
  }

  /** An entry adds at most one record per advance and two more. */
  lemma FdeGrowth(img: Image, p: int, c: Compiled, junk: int -> Rules)
    ensures match FdeAt(img, p, junk)
      case Some(f) => |CompileFde(img, p, c, junk).recs| <= |c.recs| + Advances(f.prog) + 2
      case None => CompileFde(img, p, c, junk) == c
  {
    match FdeAt(img, p, junk)
    case None =>
    case Some(f) =>
      var (ca, da) := Alignment(img, p, c);
      EmissionCount(img, f.prog, Machine(f.start, INITIAL_RULES, f.junk), f.end, ca, da);
      AddAllGrowth(c.recs, FdeRows(img, f, ca, da));
  }
}
