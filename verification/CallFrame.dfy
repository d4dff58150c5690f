/** Call-frame instructions: their byte format (sections 6.4.2 and 7.24 of
    DWARF 5), the register machine that the parser runs them on, and the rows
    that machine emits. */
module CallFrame {
  import opened Words
  import opened Leb128
  import opened FrameTable

  /** A decoded instruction. Operands are the unbounded encoded numbers;
      an expression operand is the block of `len` bytes at `at`. */
  datatype Instr =
    | Nop
    | SetLoc
    | AdvanceLoc(delta: u32)
    | Offset(reg: nat, n: nat)
    | OffsetSf(reg: nat, sn: int)
    | Restore(reg: nat)
    | Undefined(reg: nat)
    | SameValue(reg: nat)
    | Register(reg: nat, other: nat)
    | RememberState
    | RestoreState
    | DefCfa(reg: nat, off: nat)
    | DefCfaRegister(reg: nat)
    | DefCfaOffset(off: nat)
    | DefCfaExpression(at: int, len: u32)
    | Expression(reg: nat, at: int, len: u32)
    | DefCfaSf(reg: nat, soff: int)
    | DefCfaOffsetSf(soff: int)
    | ValOffset(reg: nat, n: nat)
    | ValOffsetSf(reg: nat, sn: int)
    | ValExpression(reg: nat, at: int, len: u32)
    | ArgsSize(size: nat)
    | Unknown(op: u8)

  /** The instruction at `p` and the position after it. */
  function Decode(img: Image, p: int): (r: (Instr, int))
    ensures p < r.1
  {
    var op := Byte(img, p);
    var a := p + 1;
    if op >= 0xc0 then (Restore(op % 0x40), a)
    else if op >= 0x80 then (Offset(op % 0x40, ULeb(img, a)), LebEnd(img, a))
    else if op >= 0x40 then (AdvanceLoc(op % 0x40), a)
    else DecodeExtended(img, op, a)
  }

  function DecodeExtended(img: Image, op: u8, a: int): (r: (Instr, int))
    ensures a <= r.1
  {
    var b := LebEnd(img, a);
    var x := ULeb(img, a);
    match op
    case 0x00 => (Nop, a)
    case 0x01 => (SetLoc, a)
    case 0x02 => (AdvanceLoc(Byte(img, a)), a + 1)
    case 0x03 => (AdvanceLoc(Get16(img, a)), a + 2)
    case 0x04 => (AdvanceLoc(Get32(img, a)), a + 4)
    case 0x05 => (Offset(x, ULeb(img, b)), LebEnd(img, b))
    case 0x06 => (Restore(x), b)
    case 0x07 => (Undefined(x), b)
    case 0x08 => (SameValue(x), b)
    case 0x09 => (Register(x, ULeb(img, b)), LebEnd(img, b))
    case 0x0a => (RememberState, a)
    case 0x0b => (RestoreState, a)
    case 0x0c => (DefCfa(x, ULeb(img, b)), LebEnd(img, b))
    case 0x0d => (DefCfaRegister(x), b)
    case 0x0e => (DefCfaOffset(x), b)
    case 0x0f => (DefCfaExpression(b, U32(x)), b + U32(x))
    case 0x10 => (Expression(x, LebEnd(img, b), BlockLen(img, b)), BlockEnd(img, b))
    case 0x11 => (OffsetSf(x, SLeb(img, b)), LebEnd(img, b))
    case 0x12 => (DefCfaSf(x, SLeb(img, b)), LebEnd(img, b))
    case 0x13 => (DefCfaOffsetSf(SLeb(img, a)), b)
    case 0x14 => (ValOffset(x, ULeb(img, b)), LebEnd(img, b))
    case 0x15 => (ValOffsetSf(x, SLeb(img, b)), LebEnd(img, b))
    case 0x16 =>
      (ValExpression(x, LebEnd(img, b), BlockLen(img, b)),
       if U32(x) == REG_PC then RelativePc(img, LebEnd(img, b), BlockEnd(img, b), 0, 0).1 else BlockEnd(img, b))
    case 0x2e => (ArgsSize(x), b)
    case _ => (Unknown(op), a)
  }

  function BlockLen(img: Image, p: int): u32 { U32(ULeb(img, p)) }

  function BlockEnd(img: Image, p: int): int { LebEnd(img, p) + BlockLen(img, p) }

  /** The program in `[p, end)`. Nothing is decoded past an instruction whose
      operands have no known format. */
  function Program(img: Image, p: int, end: int): seq<Instr>
    decreases end - p
  {
    if p >= end then []
    else
      var (i, q) := Decode(img, p);
      if i.SetLoc? || i.Unknown? then [i] else [i] + Program(img, q, end)
  }

  lemma ProgramHead(img: Image, p: int, end: int, i: Instr, q: int)
    requires p < end && Decode(img, p) == (i, q)
    ensures Program(img, p, end) == if i.SetLoc? || i.Unknown? then [i] else [i] + Program(img, q, end)
  {
  }

  // ----- expression operations -----

  datatype Op =
    | Breg(reg: u8, k: int)
    | Const(c: int)
    | Lit(n: u8)
    | And
    | Minus
    | Plus
    | Shl
    | Ge
    | UnknownOp(code: u8)

  /** The operation at `p` and the position after it (section 7.7.1 of DWARF 5). */
  function DecodeOp(img: Image, p: int): (r: (Op, int))
    ensures p < r.1
  {
    var op := Byte(img, p);
    var a := p + 1;
    if 0x30 <= op < 0x50 then (Lit(op - 0x30), a)
    else if 0x70 <= op < 0x90 then (Breg(op - 0x70, SLeb(img, a)), LebEnd(img, a))
    else
      match op
      case 0x08 => (Const(Byte(img, a)), a + 1)
      case 0x09 => (Const(I8(Byte(img, a))), a + 1)
      case 0x0a => (Const(Get16(img, a)), a + 2)
      case 0x0b => (Const(I16(Get16(img, a))), a + 2)
      case 0x0c => (Const(Get32(img, a)), a + 4)
      case 0x0d => (Const(I32(Get32(img, a))), a + 4)
      case 0x10 => (Const(ULeb(img, a)), LebEnd(img, a))
      case 0x11 => (Const(SLeb(img, a)), LebEnd(img, a))
      case 0x1a => (And, a)
      case 0x1c => (Minus, a)
      case 0x22 => (Plus, a)
      case 0x24 => (Shl, a)
      case 0x2a => (Ge, a)
      case _ => (UnknownOp(op), a)
  }

  /** The parser's restricted evaluation: an offset from the current pc and one
      pending constant, in 32-bit arithmetic. Returns the offset and the final
      position. */
  function RelativePc(img: Image, p: int, end: int, pcOff: i32, tos: i32): (r: (i32, int))
    ensures p <= r.1
    decreases end - p
  {
    if p >= end then (pcOff, p)
    else
      var (op, q) := DecodeOp(img, p);
      match op
      case Breg(reg, k) =>
        if reg == REG_PC then RelativePc(img, q, end, I32(k), tos) else (0, end)
      case Const(c) => RelativePc(img, q, end, pcOff, I32(c))
      case Minus => RelativePc(img, q, end, I32(pcOff - tos), tos)
      case Plus => RelativePc(img, q, end, I32(pcOff + tos), tos)
      case _ => (0, end)
  }

  // ----- the parser's machine -----

  datatype Rules = Rules(cfaReg: u32, cfaOff: i32, fpOff: i32, pcOff: i32)

  const INITIAL_RULES := Rules(REG_SP, STACK_SLOT, SAME_FP, -STACK_SLOT)

  /** The current rules, and the single slot that remembers a state. */
  datatype Machine = Machine(loc: u32, cur: Rules, saved: Rules)

  function SetOffset(cur: Rules, reg: nat, value: int): Rules {
    if U32(reg) == REG_FP then cur.(fpOff := I32(value))
    else if U32(reg) == REG_PC then cur.(pcOff := I32(value))
    else cur
  }

  /** The effect of an instruction that neither advances nor ends the program. */
  function Exec(img: Image, dataAlign: i32, m: Machine, i: Instr): Machine {
    var cur := m.cur;
    match i
    case Offset(reg, n) => m.(cur := SetOffset(cur, reg, U32(n) * dataAlign))
    case OffsetSf(reg, sn) => m.(cur := SetOffset(cur, reg, I32(sn) * dataAlign))
    case RememberState => m.(saved := cur)
    case RestoreState => m.(cur := m.saved)
    case DefCfa(reg, off) => m.(cur := cur.(cfaReg := U32(reg), cfaOff := I32(off)))
    case DefCfaRegister(reg) => m.(cur := cur.(cfaReg := U32(reg)))
    case DefCfaOffset(off) => m.(cur := cur.(cfaOff := I32(off)))
    case DefCfaSf(reg, soff) => m.(cur := cur.(cfaReg := U32(reg), cfaOff := I32(I32(soff) * dataAlign)))
    case DefCfaOffsetSf(soff) => m.(cur := cur.(cfaOff := I32(I32(soff) * dataAlign)))
    case DefCfaExpression(_, len) =>
      m.(cur := cur.(cfaReg := if len == 11 then REG_PLT else REG_INVALID, cfaOff := STACK_SLOT))
    case ValExpression(reg, at, len) =>
      if U32(reg) != REG_PC then m
      else
        var off := RelativePc(img, at, at + len, 0, 0).0;
        if off == 0 then m else m.(cur := cur.(fpOff := PackPcOffset(off)))
    case _ => m
  }

  function Row(m: Machine, locEnd: u32): FrameDesc {
    FrameDesc(m.loc, locEnd, PackCfa(m.cur.cfaReg, m.cur.cfaOff), m.cur.fpOff)
  }

  /** The rows emitted by a program: one at every advance and one at its end.
      A program with an unknown instruction is abandoned before its last row. */
  function Emissions(img: Image, prog: seq<Instr>, m: Machine, locEnd: u32, codeAlign: u32, dataAlign: i32): seq<FrameDesc>
    decreases |prog|
  {
    if prog == [] then [Row(m, locEnd)]
    else
      var i, rest := prog[0], prog[1..];
      match i
      case Nop => [Row(m, locEnd)]
      case SetLoc => [Row(m, locEnd)]
      case Unknown(_) => []
      case AdvanceLoc(delta) =>
        [Row(m, locEnd)] + Emissions(img, rest, m.(loc := U32(m.loc + delta * codeAlign)), locEnd, codeAlign, dataAlign)
      case _ => Emissions(img, rest, Exec(img, dataAlign, m, i), locEnd, codeAlign, dataAlign)
  }

  /** The rows of a program that starts with `i`. */
  lemma EmissionsHead(img: Image, i: Instr, rest: seq<Instr>, m: Machine, locEnd: u32, codeAlign: u32, dataAlign: i32)
    ensures
      var es := Emissions(img, [i] + rest, m, locEnd, codeAlign, dataAlign);
      match i
      case Nop => es == [Row(m, locEnd)]
      case SetLoc => es == [Row(m, locEnd)]
      case Unknown(_) => es == []
      case AdvanceLoc(delta) =>
        es == [Row(m, locEnd)]
          + Emissions(img, rest, m.(loc := U32(m.loc + delta * codeAlign)), locEnd, codeAlign, dataAlign)
      case _ => es == Emissions(img, rest, Exec(img, dataAlign, m, i), locEnd, codeAlign, dataAlign)
  {
    assert ([i] + rest)[1..] == rest;
  }

  function Advances(prog: seq<Instr>): nat {
    if prog == [] then 0 else (if prog[0].AdvanceLoc? then 1 else 0) + Advances(prog[1..])
  }

  lemma {:induction false} EmissionCount(img: Image, prog: seq<Instr>, m: Machine, locEnd: u32, codeAlign: u32, dataAlign: i32)
    ensures |Emissions(img, prog, m, locEnd, codeAlign, dataAlign)| <= Advances(prog) + 1
    decreases |prog|
  {
    if prog != [] {
      var i, rest := prog[0], prog[1..];
      if i.AdvanceLoc? {
        EmissionCount(img, rest, m.(loc := U32(m.loc + i.delta * codeAlign)), locEnd, codeAlign, dataAlign);
      } else {
        EmissionCount(img, rest, Exec(img, dataAlign, m, i), locEnd, codeAlign, dataAlign);
      }
    }
  }
}
