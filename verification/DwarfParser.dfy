/** The parser that compiles `.eh_frame` into the unwind table, in place. */
module DwarfParsing {
  import opened Words
  import opened Leb128
  import opened FrameTable
  import opened CallFrame
  import opened EhFrame

  /** The rows still to come from position `p` in state `m`. */
  function Remaining(img: Image, p: int, end: int, m: Machine, locEnd: u32, ca: u32, da: i32): seq<FrameDesc> {
    Emissions(img, Program(img, p, end), m, locEnd, ca, da)
  }

  /** An instruction that only changes the machine. */
  predicate IsSilent(i: Instr) {
    !i.Nop? && !i.SetLoc? && !i.Unknown? && !i.AdvanceLoc?
  }

  lemma RemainingSilent(img: Image, p: int, end: int, i: Instr, q: int, m: Machine, locEnd: u32, ca: u32, da: i32)
    requires p < end && Decode(img, p) == (i, q) && IsSilent(i)
    ensures Remaining(img, p, end, m, locEnd, ca, da) == Remaining(img, q, end, Exec(img, da, m, i), locEnd, ca, da)
  {
    hide Decode;
    ProgramHead(img, p, end, i, q);
    EmissionsHead(img, i, Program(img, q, end), m, locEnd, ca, da);
  }

  lemma RemainingAdvance(img: Image, p: int, end: int, delta: u32, q: int, m: Machine, locEnd: u32, ca: u32, da: i32)
    requires p < end && Decode(img, p) == (AdvanceLoc(delta), q)
    ensures Remaining(img, p, end, m, locEnd, ca, da)
      == [Row(m, locEnd)] + Remaining(img, q, end, m.(loc := U32(m.loc + delta * ca)), locEnd, ca, da)
  {
    hide Decode;
    ProgramHead(img, p, end, AdvanceLoc(delta), q);
    EmissionsHead(img, AdvanceLoc(delta), Program(img, q, end), m, locEnd, ca, da);
  }

  lemma RemainingEnd(img: Image, p: int, end: int, m: Machine, locEnd: u32, ca: u32, da: i32)
    requires p >= end
    ensures Remaining(img, p, end, m, locEnd, ca, da) == [Row(m, locEnd)]
  {
  }

  /** A no-op and a set-location end the program; an unknown instruction abandons it. */
  lemma RemainingStop(img: Image, p: int, end: int, m: Machine, locEnd: u32, ca: u32, da: i32)
    requires p < end && (Byte(img, p) <= 0x01 || Decode(img, p).0.Unknown?)
    ensures Remaining(img, p, end, m, locEnd, ca, da) == if Byte(img, p) <= 0x01 then [Row(m, locEnd)] else []
  {
    var (i, q) := Decode(img, p);
    ProgramHead(img, p, end, i, q);
    EmissionsHead(img, i, if i.Nop? then Program(img, q, end) else [], m, locEnd, ca, da);
  }

  /** An entry compiles to its program's rows followed by its terminator. */
  lemma FdeCompiled(img: Image, p: int, c: Compiled, junk: int -> Rules, recs: seq<FrameDesc>)
    requires FdeAt(img, p, junk).Some?
    requires var f, a := FdeAt(img, p, junk).value, Alignment(img, p, c);
      recs == AddAll(c.recs, Emissions(img, f.prog, Machine(f.start, INITIAL_RULES, f.junk), f.end, a.0, a.1))
    ensures var f, a := FdeAt(img, p, junk).value, Alignment(img, p, c);
      CompileFde(img, p, c, junk) == Compiled(FrameTable.AddRecord(recs, Terminator(f)), a.0, a.1)
  {
    var f, a := FdeAt(img, p, junk).value, Alignment(img, p, c);
    var rows := Emissions(img, f.prog, Machine(f.start, INITIAL_RULES, f.junk), f.end, a.0, a.1);
    AddAllConcat(c.recs, rows, [Terminator(f)]);
  }

  class DwarfParser {
    const image: Image
    /** What the remembered-state slot holds before anything is remembered,
        by the position of the entry being parsed. */
    const junk: int -> Rules

    var ptr: int

    var capacity: nat
    var count: int
    var table: array<FrameDesc>
    /** The pointer to the last record: an array and an index into it. */
    var prevTable: array?<FrameDesc>
    var prevIndex: int

    var codeAlign: u32
    var dataAlign: i32

    /** The last-record pointer is null exactly while the table is empty, and
        otherwise points to the last record of the current table, also after a
        reallocation. */
    ghost predicate Valid()
      reads this
    {
      && 0 < capacity == table.Length
      && 0 <= count <= capacity
      && (prevTable == null <==> count == 0)
      && (count > 0 ==> prevTable == table && prevIndex == count - 1)
    }

    ghost function Recs(): seq<FrameDesc>
      requires Valid()
      reads this, table
    {
      table[..count]
    }

    ghost function State(): Compiled
      requires Valid()
      reads this, table
    {
      Compiled(Recs(), codeAlign, dataAlign)
    }

    constructor (image: Image, hdr: int, junk: int -> Rules)
      ensures Valid() && fresh(table)
      ensures this.image == image && this.junk == junk
      ensures State() == CompileImage(image, hdr, junk)
    {
      this.image, this.junk := image, junk;
      ptr := hdr;
      capacity, count := 128, 0;
      table := new FrameDesc[128];
      prevTable, prevIndex := null, 0;
      codeAlign, dataAlign := 1, -8;
      new;
      assert State() == FRESH;
      Parse(hdr);
    }

    method Parse(hdr: int)
      requires Valid() && State() == FRESH
      modifies this, table
      ensures Valid() && (table == old(table) || fresh(table))
      ensures State() == CompileImage(image, hdr, junk)
    {
      hide CompileFde, Get32, Byte;
      var version, ptrEnc := Byte(image, hdr), Byte(image, hdr + 1);
      var countEnc, tableEnc := Byte(image, hdr + 2), Byte(image, hdr + 3);
      if version != 1 || ptrEnc % 8 != 3 || countEnc % 8 != 3 || (tableEnc != 0x33 && tableEnc != 0x3b) {
        return;
      }
      var fdeCount: int := I32(Get32(image, hdr + 8));
      ghost var ptrs := FdePointers(image, hdr);
      var i := 0;
      while i < fdeCount
        invariant 0 <= i <= |ptrs| && |ptrs| == if fdeCount < 0 then 0 else fdeCount
        invariant Valid() && (table == old(table) || fresh(table))
        invariant CompileAll(image, ptrs[i..], State(), junk) == CompileImage(image, hdr, junk)
      {
        var offset := I32(Get32(image, hdr + 16 + 8 * i));
        ptr := hdr + offset;
        assert ptrs[i..][0] == ptr && ptrs[i..][1..] == ptrs[i + 1..];
        ParseFde();
        i := i + 1;
      }
    }

    method ParseCie()
      modifies `ptr, `codeAlign, `dataAlign
      ensures match CieAlignment(image, old(ptr))
        case Some(a) => (codeAlign, dataAlign) == a
        case None => codeAlign == old(codeAlign) && dataAlign == old(dataAlign)
    {
      var cieLen := Get32At();
      if IsSkippedLength(cieLen) {
        return;
      }
      var cieStart := ptr;
      ptr := ptr + 5;
      while Byte(image, ptr) != 0
        invariant StringEnd(image, ptr) == StringEnd(image, cieStart + 5)
        decreases |image| - ptr
      {
        ptr := ptr + 1;
      }
      ptr := ptr + 1;
      codeAlign := GetLeb();
      dataAlign := GetSLeb();
      ptr := cieStart + cieLen;
    }

    method ParseFde()
      requires Valid()
      modifies this, table
      ensures Valid() && (table == old(table) || fresh(table))
      ensures State() == CompileFde(image, old(ptr), old(State()), junk)
    {
      hide OwnAt, Program, AddAll, ULeb, SLeb, LebEnd, FdeRows;
      ghost var p := ptr;
      ghost var before := State();
      var fdeLen := Get32At();
      if IsSkippedLength(fdeLen) {
        return;
      }
      var fdeStart := ptr;
      var cieOffset := Get32At();
      if count == 0 {
        ptr := fdeStart - cieOffset;
        ParseCie();
        ptr := fdeStart + 4;
      }
      assert (codeAlign, dataAlign) == Alignment(image, p, before);
      assert Recs() == before.recs;
      CompileRange(fdeStart - 4, fdeStart + fdeLen, before);
    }

    /** The covered range of the entry at `p`, its program, and the row that ends it. */
    method CompileRange(p: int, end: int, ghost before: Compiled)
      requires Valid() && ptr == p + 8 && end == p + 4 + Get32(image, p)
      requires !IsSkippedLength(Get32(image, p))
      requires Recs() == before.recs && (codeAlign, dataAlign) == Alignment(image, p, before)
      modifies `ptr, `capacity, `count, `table, `prevTable, `prevIndex, table
      ensures Valid() && (table == old(table) || fresh(table))
      ensures State() == CompileFde(image, p, before, junk)
    {
      hide Emissions, Program, AddAll, ULeb, LebEnd, OwnAt, CieAlignment, FrameTable.AddRecord;
      ghost var f := FdeAt(image, p, junk).value;
      var codeStart := GetPtr();
      var rangeStart: int := U32(codeStart);
      var rangeLen := Get32At();
      var rangeEnd: int := U32(rangeStart + rangeLen);
      var skip := GetLeb();
      ptr := ptr + skip;
      assert f == Fde(rangeStart, rangeEnd, Program(image, ptr, end), junk(p), OwnAt(image, p));
      ParseInstructions(rangeStart, rangeEnd, end, junk(p));
      ghost var recs := Recs();
      AddRecord(rangeEnd, rangeEnd, REG_SP, STACK_SLOT, SAME_FP);
      FdeCompiled(image, p, before, junk, recs);
    }

    method ParseInstructions(loc0: u32, locEnd: u32, end: int, uninitialised: Rules)
      requires Valid()
      modifies `ptr, `capacity, `count, `table, `prevTable, `prevIndex, table
      ensures Valid() && (table == old(table) || fresh(table))
      ensures Recs() == AddAll(old(Recs()),
        Emissions(image, Program(image, old(ptr), end), Machine(loc0, INITIAL_RULES, uninitialised), locEnd, codeAlign, dataAlign))
    {
      ghost var es := Remaining(image, ptr, end, Machine(loc0, INITIAL_RULES, uninitialised), locEnd, codeAlign, dataAlign);
      var m := Machine(loc0, INITIAL_RULES, uninitialised);
      hide Decode, Exec, AddAll, FrameTable.AddRecord, Row, Emissions, Program;
      while ptr < end
        invariant Valid() && (table == old(table) || fresh(table))
        invariant AddAll(Recs(), Remaining(image, ptr, end, m, locEnd, codeAlign, dataAlign)) == AddAll(old(Recs()), es)
        decreases end - ptr
      {
        ghost var p := ptr;
        var op := Byte(image, ptr);
        if op <= 0x01 {
          RemainingStop(image, p, end, m, locEnd, codeAlign, dataAlign);
          RemainingEnd(image, end, end, m, locEnd, codeAlign, dataAlign);
          ptr := end;
        } else if 0x02 <= op <= 0x04 || 0x40 <= op < 0x80 {
          ghost var recs := Recs();
          AddRow(m, locEnd);
          var delta := ReadAdvance();
          ghost var m' := m.(loc := U32(m.loc + delta * codeAlign));
          AddAllCons(recs, Row(m, locEnd), Remaining(image, ptr, end, m', locEnd, codeAlign, dataAlign));
          RemainingAdvance(image, p, end, delta, ptr, m, locEnd, codeAlign, dataAlign);
          m := m.(loc := U32(m.loc + delta * codeAlign));
        } else {
          var known, cur, saved := ExecuteInstruction(m.cur, m.saved, m.loc);
          if !known {
            RemainingStop(image, p, end, m, locEnd, codeAlign, dataAlign);
            AddAllCons(Recs(), Row(m, locEnd), []);
            return;
          }
          ghost var (i, q) := Decode(image, p);
          RemainingSilent(image, p, end, i, q, m, locEnd, codeAlign, dataAlign);
          m := m.(cur := cur, saved := saved);
        }
      }
      RemainingEnd(image, ptr, end, m, locEnd, codeAlign, dataAlign);
      AddAllCons(Recs(), Row(m, locEnd), []);
      AddRow(m, locEnd);
    }

    method AddRow(m: Machine, locEnd: u32)
      requires Valid()
      modifies `capacity, `count, `table, `prevTable, `prevIndex, table
      ensures Valid() && (table == old(table) || fresh(table))
      ensures Recs() == FrameTable.AddRecord(old(Recs()), Row(m, locEnd))
    {
      AddRecord(m.loc, locEnd, m.cur.cfaReg, m.cur.cfaOff, m.cur.fpOff);
    }

    /** The operand of an advance instruction. */
    method ReadAdvance() returns (delta: u32)
      requires var op := Byte(image, ptr); 0x02 <= op <= 0x04 || 0x40 <= op < 0x80
      modifies `ptr
      ensures Decode(image, old(ptr)) == (AdvanceLoc(delta), ptr)
    {
      var op := Get8();
      match op
      case 0x02 => delta := Get8();
      case 0x03 => delta := Get16At();
      case 0x04 => delta := Get32At();
      case _ => delta := op % 0x40;
    }

    /** Decodes and runs one instruction that is neither an advance nor an end. */
    method ExecuteInstruction(cur: Rules, saved: Rules, ghost loc: u32) returns (known: bool, cur': Rules, saved': Rules)
      requires var op := Byte(image, ptr); 0x04 < op && (op < 0x40 || 0x80 <= op)
      modifies `ptr
      ensures Executed(Decode(image, old(ptr)), loc, cur, saved, known, cur', saved')
    {
      known, cur', saved' := true, cur, saved;
      var op := Get8();
      if op >= 0xc0 {
        // a restore has no operand and no effect
      } else if op >= 0x80 {
        cur' := StoreOffset(op % 0x40, cur);
      } else if op == 0x0a {
        saved' := cur;
      } else if op == 0x0b {
        cur' := saved;
      } else if 0x0c <= op <= 0x0f || op == 0x12 || op == 0x13 {
        cur' := DefineCfa(op, cur, saved, loc);
      } else if op == 0x05 || op == 0x11 || op == 0x16 {
        cur' := DefineRegister(op, cur, saved, loc);
      } else {
        known := SkipOperands(op, cur, saved, loc);
      }
    }

    /** What running the decoded instruction `d` must leave behind. */
    ghost predicate Executed(d: (Instr, int), loc: u32, cur: Rules, saved: Rules, known: bool, cur': Rules, saved': Rules)
      reads this
    {
      if known then
        && IsSilent(d.0)
        && Machine(loc, cur', saved') == Exec(image, dataAlign, Machine(loc, cur, saved), d.0)
        && ptr == d.1
      else
        d.0.Unknown?
    }

    method DefineCfa(op: u8, cur: Rules, ghost saved: Rules, ghost loc: u32) returns (cur': Rules)
      requires 0x0c <= op <= 0x0f || op == 0x12 || op == 0x13
      modifies `ptr
      ensures Executed(DecodeExtended(image, op, old(ptr)), loc, cur, saved, true, cur', saved)
    {
      hide ULeb, SLeb, LebEnd, U32, I32;
      match op
      case 0x0c =>
        var reg := GetLeb();
        var off := GetLeb();
        cur' := cur.(cfaReg := reg, cfaOff := I32(off));
      case 0x0d =>
        var reg := GetLeb();
        cur' := cur.(cfaReg := reg);
      case 0x0e =>
        var off := GetLeb();
        cur' := cur.(cfaOff := I32(off));
      case 0x0f =>
        var len := GetLeb();
        cur' := cur.(cfaReg := if len == 11 then REG_PLT else REG_INVALID, cfaOff := STACK_SLOT);
        ptr := ptr + len;
      case 0x12 =>
        var reg := GetLeb();
        var off := GetSLeb();
        cur' := cur.(cfaReg := reg, cfaOff := I32(off * dataAlign));
      case _ =>
        var off := GetSLeb();
        cur' := cur.(cfaOff := I32(off * dataAlign));
    }

    method DefineRegister(op: u8, cur: Rules, ghost saved: Rules, ghost loc: u32) returns (cur': Rules)
      requires op == 0x05 || op == 0x11 || op == 0x16
      modifies `ptr
      ensures Executed(DecodeExtended(image, op, old(ptr)), loc, cur, saved, true, cur', saved)
    {
      hide ULeb, SLeb, LebEnd, I32, RelativePc;
      cur' := cur;
      var reg := GetLeb();
      match op
      case 0x05 => cur' := StoreOffset(reg, cur);
      case 0x11 => cur' := StoreSignedOffset(reg, cur);
      case _ =>
        if reg == REG_PC {
          var pcOff := ParseExpression();
          if pcOff != 0 {
            cur' := cur.(fpOff := PackPcOffset(pcOff));
          }
        } else {
          SkipBlock();
        }
    }

    method SkipOperands(op: u8, ghost cur: Rules, ghost saved: Rules, ghost loc: u32) returns (known: bool)
      requires 0x05 < op < 0x40 && !(0x0a <= op <= 0x0f) && op != 0x11 && op != 0x12 && op != 0x13 && op != 0x16
      modifies `ptr
      ensures Executed(DecodeExtended(image, op, old(ptr)), loc, cur, saved, known, cur, saved)
    {
      hide ULeb, SLeb, LebEnd, U32, I32, RelativePc;
      known := true;
      match op
      case 0x06 => SkipLeb();
      case 0x07 => SkipLeb();
      case 0x08 => SkipLeb();
      case 0x09 => SkipLeb(); SkipLeb();
      case 0x10 => SkipLeb(); SkipBlock();
      case 0x14 => SkipLeb(); SkipLeb();
      case 0x15 => SkipLeb(); SkipLeb();
      case 0x2e => SkipLeb();
      case _ => known := false;
    }

    method StoreOffset(reg: u32, cur: Rules) returns (cur': Rules)
      modifies `ptr
      ensures ptr == LebEnd(image, old(ptr))
      ensures forall r: nat :: U32(r) == reg ==> cur' == SetOffset(cur, r, U32(ULeb(image, old(ptr))) * dataAlign)
    {
      cur' := cur;
      if reg == REG_FP {
        var n := GetLeb();
        cur' := cur.(fpOff := I32(n * dataAlign));
      } else if reg == REG_PC {
        var n := GetLeb();
        cur' := cur.(pcOff := I32(n * dataAlign));
      } else {
        SkipLeb();
      }
    }

    method StoreSignedOffset(reg: u32, cur: Rules) returns (cur': Rules)
      modifies `ptr
      ensures ptr == LebEnd(image, old(ptr))
      ensures forall r: nat :: U32(r) == reg ==> cur' == SetOffset(cur, r, I32(SLeb(image, old(ptr))) * dataAlign)
    {
      cur' := cur;
      if reg == REG_FP {
        var n := GetSLeb();
        cur' := cur.(fpOff := I32(n * dataAlign));
      } else if reg == REG_PC {
        var n := GetSLeb();
        cur' := cur.(pcOff := I32(n * dataAlign));
      } else {
        SkipLeb();
      }
    }

    method SkipBlock()
      modifies `ptr
      ensures ptr == BlockEnd(image, old(ptr))
    {
      var len := GetLeb();
      ptr := ptr + len;
    }

    /** The offset of the previous pc from the current one. */
    method ParseExpression() returns (r: i32)
      modifies `ptr
      ensures (r, ptr) == RelativePc(image, LebEnd(image, old(ptr)), BlockEnd(image, old(ptr)), 0, 0)
    {
      var pcOff: i32, tos: i32 := 0, 0;
      var len := GetLeb();
      var end := ptr + len;
      while ptr < end
        invariant RelativePc(image, ptr, end, pcOff, tos)
          == RelativePc(image, LebEnd(image, old(ptr)), BlockEnd(image, old(ptr)), 0, 0)
        decreases end - ptr
      {
        ghost var d := DecodeOp(image, ptr);
        var op := Byte(image, ptr);
        if op == 0x80 {
          ptr := ptr + 1;
          pcOff := GetSLeb();
        } else if 0x08 <= op <= 0x0d || op == 0x10 || op == 0x11 {
          tos := ReadConst();
        } else if op == 0x1c {
          ptr := ptr + 1;
          pcOff := I32(pcOff - tos);
        } else if op == 0x22 {
          ptr := ptr + 1;
          pcOff := I32(pcOff + tos);
        } else {
          ptr := end;
          return 0;
        }
      }
      return pcOff;
    }

    /** A constant operation: its operand as an `int`. */
    method ReadConst() returns (c: i32)
      requires var op := Byte(image, ptr); 0x08 <= op <= 0x0d || op == 0x10 || op == 0x11
      modifies `ptr
      ensures var (op, q) := DecodeOp(image, old(ptr)); op.Const? && c == I32(op.c) && ptr == q
    {
      var op := Get8();
      match op
      case 0x08 => c := Get8();
      case 0x09 => var b := Get8(); c := I8(b);
      case 0x0a => c := Get16At();
      case 0x0b => var h := Get16At(); c := I16(h);
      case 0x0c => var w := Get32At(); c := I32(w);
      case 0x0d => var w := Get32At(); c := I32(w);
      case 0x10 => var x := GetLeb(); c := I32(x);
      case _ => c := GetSLeb();
    }

    method AddRecord(loc: u32, locEnd: u32, cfaReg: u32, cfaOff: i32, fpOff: i32)
      requires Valid()
      modifies `capacity, `count, `table, `prevTable, `prevIndex, table
      ensures Valid() && (table == old(table) || fresh(table))
      ensures Recs() == FrameTable.AddRecord(old(Recs()), FrameDesc(loc, locEnd, PackCfa(cfaReg, cfaOff), fpOff))
    {
      hide PackCfa;
      var cfa := PackCfa(cfaReg, cfaOff);
      ghost var recs := Recs();
      assert count > 0 ==> prevTable[prevIndex] == recs[|recs| - 1];
      var write := prevTable == null;
      if !write && prevTable[prevIndex].loc == loc {
        count := count - 1;
        write := count >= 0;
      }
      if write || prevTable[prevIndex].cfa != cfa || prevTable[prevIndex].fpOff != fpOff {
        prevTable, prevIndex := AddRecordRaw(loc, locEnd, cfa, fpOff);
      }
    }

    method AddRecordRaw(loc: u32, locEnd: u32, cfa: i32, fpOff: i32) returns (t: array<FrameDesc>, index: int)
      requires 0 < capacity == table.Length && 0 <= count <= capacity
      modifies `capacity, `count, `table, table
      ensures 0 < capacity == table.Length && (table == old(table) || fresh(table))
      ensures count == old(count) + 1 <= capacity && t == table && index == old(count)
      ensures table[..count] == old(table[..count]) + [FrameDesc(loc, locEnd, cfa, fpOff)]
    {
      if count >= capacity {
        capacity := capacity * 2;
        var bigger := new FrameDesc[capacity];
        forall i | 0 <= i < count {
          bigger[i] := table[i];
        }
        table := bigger;
      }
      assert table[..count] == old(table[..count]);
      table[count] := FrameDesc(loc, locEnd, cfa, fpOff);
      count := count + 1;
      return table, count - 1;
    }

    // ----- readers -----

    method Get8() returns (b: u8)
      modifies `ptr
      ensures b == Byte(image, old(ptr)) && ptr == old(ptr) + 1
    {
      b := Byte(image, ptr);
      ptr := ptr + 1;
    }

    method Get16At() returns (h: u16)
      modifies `ptr
      ensures h == Get16(image, old(ptr)) && ptr == old(ptr) + 2
    {
      h := Get16(image, ptr);
      ptr := ptr + 2;
    }

    method Get32At() returns (w: u32)
      modifies `ptr
      ensures w == Get32(image, old(ptr)) && ptr == old(ptr) + 4
    {
      w := Get32(image, ptr);
      ptr := ptr + 4;
    }

    /** A pc-relative pointer, as a position in the image. */
    method GetPtr() returns (q: int)
      modifies `ptr
      ensures q == old(ptr) + I32(Get32(image, old(ptr))) && ptr == old(ptr) + 4
    {
      var here := ptr;
      var off := Get32At();
      q := here + I32(off);
    }

    /** The encoded number modulo 2^32, for an encoding of any length. */
    method GetLeb() returns (result: u32)
      modifies `ptr
      ensures result == U32(ULeb(image, old(ptr))) && ptr == LebEnd(image, old(ptr))
      ensures I32(result) == I32(ULeb(image, old(ptr)))
    {
      result := 0;
      var shift := 0;
      ghost var acc: nat := 0;
      I32OfU32(ULeb(image, ptr));
      LebStart(image, ptr);
      hide Pow2, Or, U32, I32, LebEnd, ULeb, Byte, LebSoFar;
      while true
        invariant LebSoFar(image, old(ptr), ptr, acc, shift) && result == U32(acc)
        invariant LebEnd(image, ptr) == LebEnd(image, old(ptr))
        decreases |image| - ptr
      {
        var b := Byte(image, ptr);
        acc := LebRound(image, old(ptr), ptr, acc, shift);
        ptr := ptr + 1;
        result := Or(result, U32(b % 0x80 * Pow2(shift)));
        if b < 0x80 {
          return;
        }
        shift := shift + 7;
      }
    }

    /** The encoded signed number, truncated to 32 bits. */
    method GetSLeb() returns (r: i32)
      modifies `ptr
      ensures r == I32(SLeb(image, old(ptr))) && ptr == LebEnd(image, old(ptr))
    {
      var result: u32 := 0;
      var shift := 0;
      ghost var acc: nat := 0;
      LebStart(image, ptr);
      hide ULeb, SLeb, LebEnd, Byte, Pow2, Or, U32, I32, LebSoFar;
      while true
        invariant LebSoFar(image, old(ptr), ptr, acc, shift) && result == U32(acc)
        invariant LebEnd(image, ptr) == LebEnd(image, old(ptr))
        invariant shift == 7 * (ptr - old(ptr))
        decreases |image| - ptr
      {
        var b := Byte(image, ptr);
        acc := LebRound(image, old(ptr), ptr, acc, shift);
        ptr := ptr + 1;
        result := Or(result, U32(b % 0x80 * Pow2(shift)));
        shift := shift + 7;
        if b < 0x80 {
          SignedResult(image, old(ptr), ptr, acc, shift);
          if b % 0x80 >= 0x40 && shift < 32 {
            result := Or(result, U32(0 - Pow2(shift) as int));
          }
          return I32(result);
        }
      }
    }

    method SkipLeb()
      modifies `ptr
      ensures ptr == LebEnd(image, old(ptr))
    {
      var b := Get8();
      while b >= 0x80
        invariant LebEnd(image, old(ptr)) == if b >= 0x80 then LebEnd(image, ptr) else ptr
        invariant b >= 0x80 ==> b == Byte(image, ptr - 1)
        decreases if b >= 0x80 then |image| - ptr + 1 else 0
      {
        b := Get8();
      }
    }
  }

  /** After some rounds of the LEB128 loop: `acc` is what has been read, and the
      rest of the number at `p` weighs 2^shift. */
  ghost predicate LebSoFar(img: Image, p0: int, p: int, acc: nat, shift: nat) {
    && p0 <= p
    && acc < Pow2(shift)
    && ULeb(img, p0) == acc + ULeb(img, p) * Pow2(shift)
  }

  lemma LebStart(img: Image, p: int)
    ensures LebSoFar(img, p, p, 0, 0) && U32(0) == 0
  {
    Pow2Small();
  }

  lemma LebRound(img: Image, p0: int, p: int, acc: nat, shift: nat) returns (acc': nat)
    requires LebSoFar(img, p0, p, acc, shift)
    ensures var b := Byte(img, p);
      && acc' < Pow2(shift + 7)
      && U32(acc') == Or(U32(acc), U32(b % 0x80 * Pow2(shift)))
      && (if b < 0x80 then ULeb(img, p0) == acc' else LebSoFar(img, p0, p + 1, acc', shift + 7))
      && LebEnd(img, p) == (if b < 0x80 then p + 1 else LebEnd(img, p + 1))
      && (b >= 0x80 ==> p < |img|)
  {
    hide Or, Pow2, U32;
    var d := Byte(img, p) % 0x80;
    OrShifted(acc, d, shift);
    Pow2Seven(shift);
    acc' := acc + d * Pow2(shift);
    LebDigit(d, acc, Pow2(shift), if Byte(img, p) < 0x80 then 0 else ULeb(img, p + 1));
  }

  lemma LebDigit(d: nat, acc: nat, p: nat, rest: nat)
    requires d < 0x80 && acc < p
    ensures acc + d * p < 0x80 * p && 0 <= d * p
    ensures (d + 0x80 * rest) * p == d * p + rest * (0x80 * p)
  {
    MulAtLeast(0x80 - d, p);
    assert (0x80 - d) * p == 0x80 * p - d * p;
    assert (d + 0x80 * rest) * p == d * p + 0x80 * rest * p;
  }

  /** The sign fill subtracts the weight of the sign bit; from 32 bits on
      that weight is already beyond the word. */
  lemma SignFill(acc: nat, shift: nat)
    requires acc < Pow2(shift)
    ensures shift < 32 ==> Or(U32(acc), U32(0 - Pow2(shift) as int)) == U32(acc as int - Pow2(shift))
    ensures shift >= 32 ==> U32(acc) == U32(acc as int - Pow2(shift))
  {
    if shift < 32 {
      Pow2Small();
      Pow2Add(shift, 32 - shift);
      FillBits(acc, Pow2(shift), Pow2(32 - shift));
      OrDisjoint(acc, Pow2(32 - shift) - 1, shift);
    } else {
      var t := ShiftedOut(1, shift);
      ShiftTruncate(-(t as int), acc);
    }
  }

  /** The last step of the signed reader. */
  lemma SignedResult(img: Image, p: int, end: int, acc: nat, shift: nat)
    requires ULeb(img, p) == acc < Pow2(shift) && end == LebEnd(img, p) && shift == 7 * (end - p)
    ensures var sign := Byte(img, end - 1) % 0x80 >= 0x40;
      I32(SLeb(img, p))
      == I32(if sign && shift < 32 then Or(U32(acc), U32(0 - Pow2(shift) as int)) else U32(acc))
    ensures shift < 32 ==> Or(U32(acc), U32(0 - Pow2(shift) as int)) < 0x1_0000_0000
  {
    SignWeight(img, p);
    SignFill(acc, shift);
    I32OfU32(acc);
    I32OfU32(acc as int - Pow2(shift));
  }

  lemma FillBits(acc: nat, p: nat, w: nat)
    requires acc < p && w > 0 && p * w == 0x1_0000_0000
    ensures (w - 1) * p == U32(0 - p as int)
    ensures U32(acc) == acc && acc + (w - 1) * p == U32(acc as int - p)
  {
    MulAtLeast(w, p);
    assert (w - 1) * p == 0x1_0000_0000 - p;
    FillWord(acc, p);
  }

  lemma FillWord(acc: int, p: int)
    requires 0 <= acc < p <= 0x1_0000_0000
    ensures U32(acc) == acc && U32(acc - p) == acc + 0x1_0000_0000 - p && U32(0 - p) == 0x1_0000_0000 - p
  {
  }
}
