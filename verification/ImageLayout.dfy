/** How the unwind sections are written (section 10.6 of LSB Core): a search header, common
    information entries and entries; and that reading them gives back what was written. */
module ImageLayout {
  import opened Words
  import opened Options
  import opened Leb128
  import opened CallFrame
  import opened EhFrame
  import F = InstructionFormat

  // ----- the search header -----

  /** A start address and the entry's offset from the header, for each entry. */
  function PairsBytes(table: seq<(u32, i32)>): (s: seq<u8>)
    ensures |s| == 8 * |table|
  {
    if table == [] then [] else Bytes4(table[0].0) + Bytes4(U32(table[0].1)) + PairsBytes(table[1..])
  }

  function HeaderBytes(version: u8, encodings: (u8, u8, u8), frames: u32, count: u32, table: seq<(u32, i32)>): seq<u8> {
    [version, encodings.0, encodings.1, encodings.2] + Bytes4(frames) + Bytes4(count) + PairsBytes(table)
  }

  /** Wherever a header lies, and before or behind it, its entries are found at its own
      position plus their offsets. */
  lemma HeaderReads(img: Image, hdr: int, encodings: (u8, u8, u8), frames: u32, table: seq<(u32, i32)>)
    requires |table| < 0x8000_0000 && Holds(img, hdr, HeaderBytes(1, encodings, frames, |table|, table))
    requires encodings.0 % 8 == 3 && encodings.1 % 8 == 3 && (encodings.2 == 0x33 || encodings.2 == 0x3b)
    ensures |FdePointers(img, hdr)| == |table|
    ensures forall i :: 0 <= i < |table| ==> FdePointers(img, hdr)[i] == hdr + table[i].1
  {
    HeaderFields(img, hdr, 1, encodings, frames, |table|, table);
    CountExact(|table|);
    hide Byte, Get32, I32, Holds, PairsBytes;
    forall i | 0 <= i < |table| ensures FdePointer(img, hdr, i) == hdr + table[i].1 {
      PairReads(img, hdr + 12, table, i);
      OffsetExact(table[i].1);
    }
  }

  /** Any other version or encoding, and any count that is no positive `int`, is no entry at all. */
  lemma OtherHeaderEmpty(img: Image, hdr: int, version: u8, encodings: (u8, u8, u8), frames: u32, count: u32, table: seq<(u32, i32)>)
    requires Holds(img, hdr, HeaderBytes(version, encodings, frames, count, table))
    requires
      || version != 1 || encodings.0 % 8 != 3 || encodings.1 % 8 != 3 || (encodings.2 != 0x33 && encodings.2 != 0x3b)
      || count == 0 || count >= 0x8000_0000
    ensures FdePointers(img, hdr) == []
  {
    assert count == 0 || count >= 0x8000_0000 ==> I32(count) <= 0;
    hide Byte, Get32, Holds, HeaderBytes, PairsBytes, I32, FdePointer;
    HeaderFields(img, hdr, version, encodings, frames, count, table);
  }

  lemma HeaderFields(img: Image, hdr: int, version: u8, encodings: (u8, u8, u8), frames: u32, count: u32, table: seq<(u32, i32)>)
    requires Holds(img, hdr, HeaderBytes(version, encodings, frames, count, table))
    ensures Byte(img, hdr) == version && Byte(img, hdr + 1) == encodings.0
    ensures Byte(img, hdr + 2) == encodings.1 && Byte(img, hdr + 3) == encodings.2
    ensures Get32(img, hdr + 8) == count && Holds(img, hdr + 12, PairsBytes(table))
  {
    var flags := [version, encodings.0, encodings.1, encodings.2];
    hide Byte, Get32, Holds, Bytes4, PairsBytes;
    HoldsParts(img, hdr, flags + Bytes4(frames) + Bytes4(count), PairsBytes(table));
    HoldsParts(img, hdr, flags + Bytes4(frames), Bytes4(count));
    HoldsParts(img, hdr, flags, Bytes4(frames));
    Read4(img, hdr + 8, count);
    HoldsByte(img, hdr, flags, 0);
    HoldsByte(img, hdr, flags, 1);
    HoldsByte(img, hdr, flags, 2);
    HoldsByte(img, hdr, flags, 3);
  }

  lemma {:induction false} PairReads(img: Image, p: int, table: seq<(u32, i32)>, i: nat)
    requires i < |table| && Holds(img, p, PairsBytes(table))
    ensures Get32(img, p + 8 * i + 4) == U32(table[i].1)
    decreases i
  {
    var loc, off := Bytes4(table[0].0), Bytes4(U32(table[0].1));
    hide Byte, Get32, Holds, Bytes4, U32;
    HoldsParts(img, p, loc + off, PairsBytes(table[1..]));
    HoldsParts(img, p, loc, off);
    hide PairsBytes;
    if i == 0 {
      Read4(img, p + 4, U32(table[0].1));
    } else {
      PairReads(img, p + 8, table[1..], i - 1);
    }
  }

  lemma OffsetExact(x: i32)
    ensures I32(U32(x)) == x
  {
  }

  lemma CountExact(n: nat)
    requires n < 0x8000_0000
    ensures I32(n) == n
  {
  }

  // ----- common information entries -----

  /** A common information entry as it is written: the augmentation string has no zero in
      it, and says with a leading `z` that augmentation data follow. */
  datatype CieFields = CieFields(
    version: u8, aug: seq<u8>, codeAlign: nat, dataAlign: int, reg: nat, data: seq<u8>, code: seq<F.Code>) {
    predicate Augmented() { aug != [] && aug[0] == 0x7a }

    function Front(): (s: seq<u8>)
      ensures |s| > 5
    {
      [0, 0, 0, 0, version] + aug + [0]
    }

    /** The return address register is one byte in version 1. */
    function Numbers(): seq<u8> {
      EncodeU(codeAlign) + EncodeS(dataAlign) + (if version == 1 && reg < 0x100 then [reg] else EncodeU(reg))
    }

    function Body(): (s: seq<u8>)
      ensures |s| > 5
    {
      Front() + Numbers() + AugmentationBytes(Augmented(), data) + F.ProgramBytes(code)
    }

    function NumbersStart(p: int): int { p + 4 + |Front()| }

    function DataStart(p: int): int { NumbersStart(p) + |Numbers()| }

    /** Where its instructions lie, when it is written at `p`. */
    function CodeStart(p: int): int { DataStart(p) + |AugmentationBytes(Augmented(), data)| }
  }

  type Cie = t: CieFields | (forall k :: 0 <= k < |t.aug| ==> t.aug[k] != 0) && (t.version == 1 ==> t.reg < 0x100) && |t.Body()| < 0xffff_ffff
    witness CieFields(1, [], 1, -8, 16, [], [])

  function CieBytes(t: Cie): seq<u8> { Bytes4(|t.Body()|) + t.Body() }

  function AugmentationBytes(augmented: bool, data: seq<u8>): seq<u8> {
    if augmented then EncodeU(|data|) + data else []
  }

  ghost predicate CieAt(img: Image, p: int, t: Cie) { Holds(img, p, CieBytes(t)) }

  /** Reading a common information entry: its factors, and its instructions. */
  lemma CieReads(img: Image, p: int, t: Cie)
    requires CieAt(img, p, t)
    ensures CieAlignment(img, p) == Some((U32(t.codeAlign), I32(t.dataAlign)))
    ensures Augmented(img, p) == t.Augmented() && !IsSkippedLength(Get32(img, p))
    ensures ULeb(img, FactorsAt(img, p)) == t.codeAlign && SLeb(img, LebEnd(img, FactorsAt(img, p))) == t.dataAlign
  {
    CieLength(img, p, t);
    CieFront(img, p, t);
    CieNumbers(img, p, t);
    hide CieAt, Get32, Byte, ULeb, SLeb, LebEnd, FactorsAt, Augmented, U32, I32, CieFields.Body;
  }

  lemma InitialReads(img: Image, p: int, t: Cie)
    requires CieAt(img, p, t)
    ensures InitialProgram(img, p) == F.ProgramMeaning(t.code, t.CodeStart(p))
  {
    hide *;
    CieLength(img, p, t);
    CieFront(img, p, t);
    CieNumbers(img, p, t);
    CieData(img, p, t);
    CieCode(img, p, t);
    InitialShape(img, p, t.DataStart(p), t.CodeStart(p));
  }

  lemma InitialShape(img: Image, p: int, data: int, code: int)
    requires
      var reg := LebEnd(img, LebEnd(img, FactorsAt(img, p)));
      data == if Byte(img, p + 8) == 1 then reg + 1 else LebEnd(img, reg)
    requires code == if Augmented(img, p) then LebEnd(img, data) + ULeb(img, data) else data
    ensures InitialProgram(img, p) == Program(img, code, p + 4 + Get32(img, p))
  {
    hide FactorsAt, Augmented, LebEnd, ULeb, Byte, Get32, Program;
    assert p + 4 + 4 == p + 8;
  }

  lemma CieHolds(img: Image, p: int, t: Cie)
    requires CieAt(img, p, t)
    ensures Holds(img, p, Bytes4(|t.Body()|)) && Holds(img, p + 4, t.Body())
  {
    HoldsParts(img, p, Bytes4(|t.Body()|), t.Body());
  }

  lemma CieLength(img: Image, p: int, t: Cie)
    requires CieAt(img, p, t)
    ensures Get32(img, p) == |t.Body()|
  {
    CieHolds(img, p, t);
    Read4(img, p, |t.Body()|);
  }

  lemma CieFront(img: Image, p: int, t: Cie)
    requires CieAt(img, p, t)
    ensures Byte(img, p + 8) == t.version && Augmented(img, p) == t.Augmented() && FactorsAt(img, p) == t.NumbersStart(p)
  {
    CieHolds(img, p, t);
    HoldsFour(img, p + 4, t.Front(), t.Numbers(), AugmentationBytes(t.Augmented(), t.data), F.ProgramBytes(t.code));
    FrontReads(img, p, t);
  }

  lemma FrontReads(img: Image, p: int, t: Cie)
    requires Holds(img, p + 4, t.Front())
    ensures Byte(img, p + 8) == t.version && Augmented(img, p) == t.Augmented() && FactorsAt(img, p) == t.NumbersStart(p)
  {
    HoldsByte(img, p + 4, t.Front(), 4);
    HoldsByte(img, p + 4, t.Front(), 5);
    HoldsParts(img, p + 4, [0, 0, 0, 0, t.version] + t.aug, [0]);
    HoldsParts(img, p + 4, [0, 0, 0, 0, t.version], t.aug);
    HoldsByte(img, p + 9 + |t.aug|, [0], 0);
    hide Byte, Holds;
    StringReads(img, p + 9, t.aug);
  }

  lemma {:induction false} StringReads(img: Image, p: int, s: seq<u8>)
    requires Holds(img, p, s) && Byte(img, p + |s|) == 0 && forall k :: 0 <= k < |s| ==> s[k] != 0
    ensures StringEnd(img, p) == p + |s| + 1
    decreases |s|
  {
    if s != [] {
      assert s == [s[0]] + s[1..];
      HoldsTail(img, p, s[0], s[1..]);
      hide Byte, Holds;
      StringReads(img, p + 1, s[1..]);
    }
  }

  lemma CieNumbers(img: Image, p: int, t: Cie)
    requires CieAt(img, p, t)
    ensures
      var a := t.NumbersStart(p);
      var b := LebEnd(img, a);
      var reg := LebEnd(img, b);
      && ULeb(img, a) == t.codeAlign && SLeb(img, b) == t.dataAlign
      && (if t.version == 1 then reg + 1 else LebEnd(img, reg)) == t.DataStart(p)
  {
    CieHolds(img, p, t);
    HoldsFour(img, p + 4, t.Front(), t.Numbers(), AugmentationBytes(t.Augmented(), t.data), F.ProgramBytes(t.code));
    NumbersRead(img, t.NumbersStart(p), t);
  }

  lemma NumbersRead(img: Image, a: int, t: Cie)
    requires Holds(img, a, t.Numbers())
    ensures
      var b := LebEnd(img, a);
      var reg := LebEnd(img, b);
      && ULeb(img, a) == t.codeAlign && SLeb(img, b) == t.dataAlign
      && (if t.version == 1 then reg + 1 else LebEnd(img, reg)) == a + |t.Numbers()|
  {
    var ca, da, reg := EncodeU(t.codeAlign), EncodeS(t.dataAlign), if t.version == 1 then [t.reg] else EncodeU(t.reg);
    hide Byte, Holds, EncodeU, EncodeS, LebEnd, ULeb, SLeb;
    HoldsParts(img, a, ca + da, reg);
    HoldsParts(img, a, ca, da);
    UnsignedRoundTrip(img, a, t.codeAlign);
    SignedRoundTrip(img, a + |ca|, t.dataAlign);
    if t.version != 1 {
      UnsignedRoundTrip(img, a + |ca| + |da|, t.reg);
    }
  }

  lemma CieData(img: Image, p: int, t: Cie)
    requires CieAt(img, p, t)
    ensures var data := t.DataStart(p);
      (if t.Augmented() then LebEnd(img, data) + ULeb(img, data) else data) == t.CodeStart(p)
  {
    CieHolds(img, p, t);
    HoldsFour(img, p + 4, t.Front(), t.Numbers(), AugmentationBytes(t.Augmented(), t.data), F.ProgramBytes(t.code));
    AugmentationReads(img, t.DataStart(p), t.Augmented(), t.data);
  }

  lemma AugmentationReads(img: Image, a: int, augmented: bool, data: seq<u8>)
    requires Holds(img, a, AugmentationBytes(augmented, data))
    ensures augmented ==> ULeb(img, a) == |data|
    ensures (if augmented then LebEnd(img, a) + ULeb(img, a) else a) == a + |AugmentationBytes(augmented, data)|
  {
    if augmented {
      hide Holds, LebEnd, ULeb;
      HoldsParts(img, a, EncodeU(|data|), data);
      UnsignedRoundTrip(img, a, |data|);
    }
  }

  lemma CieCode(img: Image, p: int, t: Cie)
    requires CieAt(img, p, t)
    ensures Program(img, t.CodeStart(p), p + 4 + |t.Body()|) == F.ProgramMeaning(t.code, t.CodeStart(p))
  {
    CieEnd(p, t);
    hide *;
    CieCodeHolds(img, p, t);
    F.ProgramReads(img, t.CodeStart(p), p + 4 + |t.Body()|, t.code);
  }

  lemma CieEnd(p: int, t: Cie)
    ensures p + 4 + |t.Body()| == t.CodeStart(p) + |F.ProgramBytes(t.code)|
  {
    hide AugmentationBytes, F.ProgramBytes, CieFields.Front, CieFields.Numbers;
  }

  lemma CieCodeHolds(img: Image, p: int, t: Cie)
    requires CieAt(img, p, t)
    ensures Holds(img, t.CodeStart(p), F.ProgramBytes(t.code))
  {
    CieHolds(img, p, t);
    hide Holds, CieAt, AugmentationBytes, F.ProgramBytes, CieFields.Front, CieFields.Numbers;
    HoldsFour(img, p + 4, t.Front(), t.Numbers(), AugmentationBytes(t.Augmented(), t.data), F.ProgramBytes(t.code));
  }

  lemma HoldsFour(img: Image, p: int, a: seq<u8>, b: seq<u8>, c: seq<u8>, d: seq<u8>)
    requires Holds(img, p, a + b + c + d)
    ensures Holds(img, p, a) && Holds(img, p + |a|, b)
    ensures Holds(img, p + |a| + |b|, c) && Holds(img, p + |a| + |b| + |c|, d)
  {
    hide Holds;
    HoldsParts(img, p, a + b + c, d);
    HoldsParts(img, p, a + b, c);
    HoldsParts(img, p, a, b);
  }

  // ----- entries -----

  /** An entry as it is written, for the code from `start` to `end`, with augmentation data
      if its common information entry announces any. */
  datatype FdeFields = FdeFields(start: u32, end: u32, augmented: bool, data: seq<u8>, code: seq<F.Code>) {
    /** Lying at `p`, with its common information entry at `c`. */
    function Head(p: int, c: int): (s: seq<u8>)
      ensures |s| == 12
    {
      Bytes4(U32(p + 4 - c)) + Bytes4(U32(start - (p + 8))) + Bytes4(U32(end - start))
    }

    function Tail(): seq<u8> { AugmentationBytes(augmented, data) + F.ProgramBytes(code) }

    function CodeStart(p: int): int { p + 16 + |AugmentationBytes(augmented, data)| }
  }

  type Entry = t: FdeFields | |t.data| < 0x1_0000_0000 && |t.Tail()| < 0xffff_fff0 witness FdeFields(0, 0, false, [], [])

  function EntryBytes(t: Entry, p: int, c: int): seq<u8> { Bytes4(12 + |t.Tail()|) + (t.Head(p, c) + t.Tail()) }

  /** An entry behind its common information entry. */
  ghost predicate EntryAt(img: Image, p: int, t: Entry, c: int, cie: Cie) {
    && c <= p && p + 4 - c < 0x1_0000_0000 && t.augmented == cie.Augmented()
    && CieAt(img, c, cie) && Holds(img, p, EntryBytes(t, p, c))
  }

  lemma EntryHolds(img: Image, p: int, t: Entry, c: int, cie: Cie)
    requires EntryAt(img, p, t, c, cie)
    ensures Get32(img, p) == 12 + |t.Tail()| && Holds(img, p + 4, t.Head(p, c)) && Holds(img, p + 16, t.Tail())
  {
    hide FdeFields.Head, FdeFields.Tail, Holds, CieAt;
    HoldsParts(img, p, Bytes4(12 + |t.Tail()|), t.Head(p, c) + t.Tail());
    HoldsParts(img, p + 4, t.Head(p, c), t.Tail());
    Read4(img, p, 12 + |t.Tail()|);
  }

  lemma HeadReads(img: Image, p: int, t: Entry, c: int)
    requires Holds(img, p + 4, t.Head(p, c)) && c <= p && p + 4 - c < 0x1_0000_0000
    ensures Get32(img, p + 4) == p + 4 - c
    ensures Get32(img, p + 8) == U32(t.start - (p + 8)) && Get32(img, p + 12) == U32(t.end - t.start)
  {
    var back, rel, range := Bytes4(U32(p + 4 - c)), Bytes4(U32(t.start - (p + 8))), Bytes4(U32(t.end - t.start));
    assert U32(p + 4 - c) == p + 4 - c;
    hide Get32, Holds, Bytes4, U32;
    HoldsParts(img, p + 4, back + rel, range);
    HoldsParts(img, p + 4, back, rel);
    Read4(img, p + 4, U32(p + 4 - c));
    Read4(img, p + 8, U32(t.start - (p + 8)));
    Read4(img, p + 12, U32(t.end - t.start));
  }

  lemma TailReads(img: Image, p: int, t: Entry)
    requires Holds(img, p + 16, t.Tail())
    ensures t.augmented ==> ULeb(img, p + 16) < 0x1_0000_0000
    ensures (if t.augmented then LebEnd(img, p + 16) + ULeb(img, p + 16) else p + 16) == t.CodeStart(p)
    ensures Program(img, t.CodeStart(p), p + 16 + |t.Tail()|) == F.ProgramMeaning(t.code, t.CodeStart(p))
  {
    hide Holds, Program, F.ProgramMeaning, F.ProgramBytes, AugmentationBytes, ULeb, LebEnd;
    HoldsParts(img, p + 16, AugmentationBytes(t.augmented, t.data), F.ProgramBytes(t.code));
    AugmentationReads(img, p + 16, t.augmented, t.data);
    F.ProgramReads(img, t.CodeStart(p), p + 16 + |t.Tail()|, t.code);
  }

  /** Reading an entry that was written behind its common information entry: the range it
      covers, wherever it lies, and under that entry its factors and its instructions,
      behind any augmentation data. Where data are announced, the parser reads the same
      instructions; the table's factors are this entry's when it is the first. */
  lemma FdeReads(img: Image, p: int, t: Entry, c: int, cie: Cie, junk: int -> Rules)
    requires EntryAt(img, p, t, c, cie)
    ensures FdeAt(img, p, junk).Some?
    ensures
      var f := FdeAt(img, p, junk).value;
      var code := F.ProgramMeaning(t.code, t.CodeStart(p));
      && f.start == t.start && f.end == t.end && f.junk == junk(p)
      && f.own == Some(Own(cie.codeAlign, cie.dataAlign, F.ProgramMeaning(cie.code, cie.CodeStart(c)), code))
      && (t.augmented ==> f.prog == code)
  {
    hide *;
    EntryFacts(img, p, t, c, cie);
    EntryHolds(img, p, t, c, cie);
    HeadReads(img, p, t, c);
    TailReads(img, p, t);
    OwnReads(img, p, t, c, cie);
    RangeReads(img, p, t.start, t.end);
    FdeShape(img, p, junk, t.start, t.end);
    if t.augmented {
      AugmentedProgram(img, p, junk);
    }
  }

  lemma EntryFacts(img: Image, p: int, t: Entry, c: int, cie: Cie)
    requires EntryAt(img, p, t, c, cie)
    ensures c <= p && p + 4 - c < 0x1_0000_0000 && t.augmented == cie.Augmented() && CieAt(img, c, cie)
    ensures Get32(img, p) == 12 + |t.Tail()| && !IsSkippedLength(Get32(img, p))
    ensures p + 4 - Get32(img, p + 4) == c && Augmented(img, c) == t.augmented
  {
    EntryHolds(img, p, t, c, cie);
    HeadReads(img, p, t, c);
    CieReads(img, c, cie);
    hide Get32, FdeFields.Tail, Augmented, CieAt;
  }

  lemma FactorsRead(img: Image, p: int, t: Entry, c: int, cie: Cie)
    requires EntryAt(img, p, t, c, cie)
    ensures Alignment(img, p, FRESH) == (U32(cie.codeAlign), I32(cie.dataAlign))
  {
    EntryHolds(img, p, t, c, cie);
    HeadReads(img, p, t, c);
    CieReads(img, c, cie);
    hide Get32, Holds, FdeFields.Head, CieAlignment, CieAt, U32, I32;
  }

  lemma OwnReads(img: Image, p: int, t: Entry, c: int, cie: Cie)
    requires EntryAt(img, p, t, c, cie)
    ensures OwnAt(img, p)
      == Some(Own(cie.codeAlign, cie.dataAlign, F.ProgramMeaning(cie.code, cie.CodeStart(c)),
                  F.ProgramMeaning(t.code, t.CodeStart(p))))
  {
    hide *;
    EntryFacts(img, p, t, c, cie);
    EntryHolds(img, p, t, c, cie);
    TailReads(img, p, t);
    CieReads(img, c, cie);
    InitialReads(img, c, cie);
    OwnShape(img, p, c, t.CodeStart(p));
  }

  lemma OwnShape(img: Image, p: int, c: int, code: int)
    requires p + 4 - Get32(img, p + 4) == c && !IsSkippedLength(Get32(img, c))
    requires code == if Augmented(img, c) then LebEnd(img, p + 16) + ULeb(img, p + 16) else p + 16
    ensures OwnAt(img, p)
      == Some(Own(ULeb(img, FactorsAt(img, c)), SLeb(img, LebEnd(img, FactorsAt(img, c))), InitialProgram(img, c),
                  Program(img, code, p + 4 + Get32(img, p))))
  {
    hide FactorsAt, Augmented, LebEnd, ULeb, SLeb, Byte, Get32, Program, InitialProgram, IsSkippedLength;
    assert p + 4 + 12 == p + 16;
  }

  lemma FdeShape(img: Image, p: int, junk: int -> Rules, start: u32, end: u32)
    requires !IsSkippedLength(Get32(img, p))
    requires U32(p + 8 + I32(Get32(img, p + 8))) == start && U32(start + Get32(img, p + 12)) == end
    ensures FdeAt(img, p, junk).Some?
    ensures var f := FdeAt(img, p, junk).value;
      f.start == start && f.end == end && f.junk == junk(p) && f.own == OwnAt(img, p)
  {
    hide Get32, OwnAt, Program, ULeb, LebEnd, U32, I32, IsSkippedLength;
    assert p + 4 + 4 == p + 8 && p + 4 + 8 == p + 12;
  }

  /** The covered range, as the parser computes it modulo 2^32. */
  lemma RangeReads(img: Image, p: int, start: u32, end: u32)
    requires Get32(img, p + 8) == U32(start - (p + 8)) && Get32(img, p + 12) == U32(end - start)
    ensures U32(p + 8 + I32(Get32(img, p + 8))) == start && U32(start + Get32(img, p + 12)) == end
  {
    Rejoins(start, p + 8);
    Rejoins(end, start);
    hide Get32, U32, I32;
  }

  lemma Rejoins(x: u32, y: int)
    ensures U32(y + U32(x - y)) == x && U32(y + I32(U32(x - y))) == x
  {
  }

  /** In any image: where the common information entry announces augmentation data, and
      their length fits a word, the parser reads the instructions that are meant. */
  lemma AugmentedProgram(img: Image, p: int, junk: int -> Rules)
    requires FdeAt(img, p, junk).Some? && FdeAt(img, p, junk).value.own.Some?
    requires Augmented(img, p + 4 - Get32(img, p + 4)) && ULeb(img, p + 16) < 0x1_0000_0000
    ensures FdeAt(img, p, junk).value.prog == FdeAt(img, p, junk).value.own.value.prog
  {
    hide Byte, Get32, ULeb, SLeb, LebEnd, Program, FactorsAt, Augmented, InitialProgram;
    assert U32(ULeb(img, p + 16)) == ULeb(img, p + 16);
    assert p + 4 + 12 == p + 16;
  }

  /** A record is skipped for two lengths only: the terminator's and that of the 64-bit format. */
  lemma SkippedLengths(img: Image, p: int, junk: int -> Rules)
    ensures FdeAt(img, p, junk).None? <==> Get32(img, p) == 0 || Get32(img, p) == 0xffff_ffff
    ensures CieAlignment(img, p).None? <==> Get32(img, p) == 0 || Get32(img, p) == 0xffff_ffff
  {
    hide Get32;
  }

  // ----- whole images -----

  /** The entries of an image are those at its header's pointers, in order. */
  lemma {:induction false} FdesInOrder(img: Image, ptrs: seq<int>, junk: int -> Rules, fs: seq<Fde>)
    requires |ptrs| == |fs| && forall i :: 0 <= i < |ptrs| ==> FdeAt(img, ptrs[i], junk) == Some(fs[i])
    ensures Fdes(img, ptrs, junk) == fs
    ensures ptrs != [] ==> ImageAlignment(img, ptrs, junk) == Alignment(img, ptrs[0], FRESH)
    decreases |ptrs|
  {
    hide FdeAt, Alignment;
    if ptrs != [] {
      FdesInOrder(img, ptrs[1..], junk, fs[1..]);
      assert fs == [fs[0]] + fs[1..];
    }
  }

  /** An entry of an image, and where it and its common information entry lie. */
  datatype Placed = Placed(at: int, entry: Entry, c: int, cie: Cie)

  /** Reading a whole image, wherever its parts lie: the entries are those that the header
      points to, in its order, each as it was written, and the table's alignment factors
      are those of the first one's common information entry. */
  lemma ImageReads(img: Image, hdr: int, encodings: (u8, u8, u8), frames: u32, table: seq<(u32, i32)>, es: seq<Placed>, junk: int -> Rules)
    requires |table| < 0x8000_0000 && Holds(img, hdr, HeaderBytes(1, encodings, frames, |table|, table))
    requires encodings.0 % 8 == 3 && encodings.1 % 8 == 3 && (encodings.2 == 0x33 || encodings.2 == 0x3b)
    requires |es| == |table|
    requires forall i :: 0 <= i < |es| ==>
      es[i].at == hdr + table[i].1 && EntryAt(img, es[i].at, es[i].entry, es[i].c, es[i].cie)
    ensures
      var fs := Fdes(img, FdePointers(img, hdr), junk);
      && |fs| == |es|
      && forall i :: 0 <= i < |es| ==> Reads(fs[i], es[i], junk)
    ensures es != [] ==>
      ImageAlignment(img, FdePointers(img, hdr), junk) == (U32(es[0].cie.codeAlign), I32(es[0].cie.dataAlign))
  {
    hide EntryAt, Holds, HeaderBytes, FdePointers, FdeAt, Alignment, U32, I32, Reads;
    HeaderReads(img, hdr, encodings, frames, table);
    var ptrs := FdePointers(img, hdr);
    forall i | 0 <= i < |es| ensures FdeAt(img, ptrs[i], junk).Some? && Reads(FdeAt(img, ptrs[i], junk).value, es[i], junk) {
      EntryReads(img, es[i], junk);
    }
    FdesInOrder(img, ptrs, junk, seq(|ptrs|, i requires 0 <= i < |ptrs| => FdeAt(img, ptrs[i], junk).value));
    if es != [] {
      FactorsRead(img, es[0].at, es[0].entry, es[0].c, es[0].cie);
    }
  }

  /** The decoded entry is the one that was written. */
  ghost predicate Reads(f: Fde, e: Placed, junk: int -> Rules) {
    var code := F.ProgramMeaning(e.entry.code, e.entry.CodeStart(e.at));
    && f.start == e.entry.start && f.end == e.entry.end && f.junk == junk(e.at)
    && f.own == Some(Own(e.cie.codeAlign, e.cie.dataAlign, F.ProgramMeaning(e.cie.code, e.cie.CodeStart(e.c)), code))
    && (e.entry.augmented ==> f.prog == code)
  }

  lemma EntryReads(img: Image, e: Placed, junk: int -> Rules)
    requires EntryAt(img, e.at, e.entry, e.c, e.cie)
    ensures FdeAt(img, e.at, junk).Some? && Reads(FdeAt(img, e.at, junk).value, e, junk)
  {
    hide EntryAt, FdeAt, F.ProgramMeaning, FdeFields.CodeStart, CieFields.CodeStart;
    FdeReads(img, e.at, e.entry, e.c, e.cie, junk);
  }
}
