/** The meaning of call-frame programs and location expressions as the
    standard gives it, independent of how the parser treats them. */
module DwarfReference {
  import opened Words
  import opened Options
  import opened Leb128
  import opened CallFrame
  import opened Process

  // ----- rows and instructions: sections 6.4.1 and 6.4.2 of DWARF 5 -----

  datatype RegRule =
    | UndefinedRule
    | SameValueRule
    | OffsetRule(n: int)
    | ValOffsetRule(n: int)
    | RegisterRule(other: nat)
    | ExpressionRule(at: int, len: u32)
    | ValExpressionRule(at: int, len: u32)

  datatype CfaRule = CfaUndefined | CfaRegister(reg: nat, off: int) | CfaExpression(at: int, len: u32)

  datatype DwRow = DwRow(cfa: CfaRule, regs: map<nat, RegRule>) {
    function RuleFor(reg: nat): RegRule {
      if reg in regs then regs[reg] else SameValueRule
    }

    function With(reg: nat, rule: RegRule): DwRow {
      this.(regs := regs[reg := rule])
    }

    function WithCfa(cfa: CfaRule): DwRow { this.(cfa := cfa) }
  }

  /** The current row, the remembered rows, and the row that the common information
      entry established, to which a register is restored; none while that entry's own
      instructions run. */
  datatype DwState = DwState(row: DwRow, stack: seq<DwRow>, initial: Option<DwRow>)

  /** No rule at all: before the common information entry's instructions. */
  const BLANK_ROW := DwRow(CfaUndefined, map[])

  /** The row that it usually establishes on x86-64. */
  const INITIAL_ROW := DwRow(CfaRegister(7, 8), map[16 := OffsetRule(-8)])

  const AT_START := DwState(INITIAL_ROW, [], Some(INITIAL_ROW))

  /** The effect of one instruction on the current row and the stack of
      remembered rows; none where the standard gives it no meaning. */
  function DwExec(s: DwState, i: Instr, dataAlign: int): Option<DwState> {
    var row := s.row;
    match i
    case Offset(reg, n) => Some(s.(row := row.With(reg, OffsetRule(n * dataAlign))))
    case OffsetSf(reg, sn) => Some(s.(row := row.With(reg, OffsetRule(sn * dataAlign))))
    case Restore(reg) =>
      if s.initial.Some? then Some(s.(row := row.With(reg, s.initial.value.RuleFor(reg)))) else None
    case Undefined(reg) => Some(s.(row := row.With(reg, UndefinedRule)))
    case SameValue(reg) => Some(s.(row := row.With(reg, SameValueRule)))
    case Register(reg, other) => Some(s.(row := row.With(reg, RegisterRule(other))))
    case Expression(reg, at, len) => Some(s.(row := row.With(reg, ExpressionRule(at, len))))
    case ValOffset(reg, n) => Some(s.(row := row.With(reg, ValOffsetRule(n * dataAlign))))
    case ValOffsetSf(reg, sn) => Some(s.(row := row.With(reg, ValOffsetRule(sn * dataAlign))))
    case ValExpression(reg, at, len) => Some(s.(row := row.With(reg, ValExpressionRule(at, len))))
    case RememberState => Some(s.(stack := s.stack + [row]))
    case RestoreState =>
      if s.stack == [] then None
      else Some(s.(row := s.stack[|s.stack| - 1], stack := s.stack[..|s.stack| - 1]))
    case DefCfa(reg, off) => Some(s.(row := row.WithCfa(CfaRegister(reg, off))))
    case DefCfaSf(reg, soff) => Some(s.(row := row.WithCfa(CfaRegister(reg, soff * dataAlign))))
    case DefCfaRegister(reg) =>
      if row.cfa.CfaRegister? then Some(s.(row := row.WithCfa(row.cfa.(reg := reg)))) else None
    case DefCfaOffset(off) =>
      if row.cfa.CfaRegister? then Some(s.(row := row.WithCfa(row.cfa.(off := off)))) else None
    case DefCfaOffsetSf(soff) =>
      if row.cfa.CfaRegister? then Some(s.(row := row.WithCfa(row.cfa.(off := soff * dataAlign)))) else None
    case DefCfaExpression(at, len) => Some(s.(row := row.WithCfa(CfaExpression(at, len))))
    case ArgsSize(_) => Some(s)
    case Nop => Some(s)
    case _ => None
  }

  /** The row for the location `pc`: instructions take effect until the location
      counter passes it (section 6.4.3). */
  function RowAt(prog: seq<Instr>, loc: int, pc: int, s: DwState, codeAlign: nat, dataAlign: int): Option<DwRow>
    decreases |prog|
  {
    if prog == [] then Some(s.row)
    else if prog[0].AdvanceLoc? then
      var next := loc + prog[0].delta * codeAlign;
      if next > pc then Some(s.row) else RowAt(prog[1..], next, pc, s, codeAlign, dataAlign)
    else
      match DwExec(s, prog[0], dataAlign)
      case None => None
      case Some(s') => RowAt(prog[1..], loc, pc, s', codeAlign, dataAlign)
  }

  /** The row that a common information entry's instructions establish. */
  function Established(prog: seq<Instr>, s: DwState, dataAlign: int): Option<DwRow>
    decreases |prog|
  {
    if prog == [] then Some(s.row)
    else
      match DwExec(s, prog[0], dataAlign)
      case None => None
      case Some(s') => Established(prog[1..], s', dataAlign)
  }

  // ----- location expressions: section 2.5.1 of DWARF 5 -----

  function And(a: nat, b: nat): nat {
    if a == 0 || b == 0 then 0
    else (if a % 2 == 1 && b % 2 == 1 then 1 else 0) + 2 * And(a / 2, b / 2)
  }

  function Signed64(x: u64): int {
    if x < 0x8000_0000_0000_0000 then x else x - 0x1_0000_0000_0000_0000
  }

  function RegisterValue(c: Ctx, reg: u8): Option<u64> {
    if reg == 6 then Some(c.fp)
    else if reg == 7 then Some(c.sp)
    else if reg == 16 then Some(c.pc)
    else None
  }

  /** One operation on the stack, whose top is its last element. */
  function EvalOp(op: Op, st: seq<u64>, c: Ctx): Option<seq<u64>> {
    var n := |st|;
    match op
    case Breg(reg, k) =>
      (match RegisterValue(c, reg)
       case Some(v) => Some(st + [U64(v + k)])
       case None => None)
    case Const(x) => Some(st + [U64(x)])
    case Lit(x) => Some(st + [x as u64])
    case UnknownOp(_) => None
    case _ =>
      if n < 2 then None
      else
        var a, b := st[n - 2], st[n - 1];
        Some(st[..n - 2] + [U64(Binary(op, a, b))])
  }

  function Binary(op: Op, a: u64, b: u64): int {
    match op
    case And => And(a, b)
    case Minus => a - b
    case Plus => a + b
    case Shl => a * Pow2(b)
    case _ => if Signed64(a) >= Signed64(b) then 1 else 0
  }

  /** The value on top of the stack when the block has been evaluated. */
  function Eval(img: Image, p: int, end: int, st: seq<u64>, c: Ctx): Option<u64>
    decreases end - p
  {
    if p >= end then if p == end && st != [] then Some(st[|st| - 1]) else None
    else
      var (op, q) := DecodeOp(img, p);
      match EvalOp(op, st, c)
      case None => None
      case Some(st') => Eval(img, q, end, st', c)
  }

  /** The caller's registers, from one frame's registers, memory and row. */
  function UnwindRow(img: Image, mem: Memory, c: Ctx, row: DwRow): Option<Ctx> {
    match CfaValue(img, c, row.cfa)
    case None => None
    case Some(cfa) =>
      match (RegisterBefore(img, mem, c, cfa, row.RuleFor(16), c.pc), RegisterBefore(img, mem, c, cfa, row.RuleFor(6), c.fp))
      case (Some(pc), Some(fp)) => Some(Ctx(pc, cfa, fp))
      case _ => None
  }

  function CfaValue(img: Image, c: Ctx, rule: CfaRule): Option<u64> {
    match rule
    case CfaUndefined => None
    case CfaRegister(reg, off) =>
      if reg == 6 then Some(U64(c.fp + off)) else if reg == 7 then Some(U64(c.sp + off)) else None
    case CfaExpression(at, len) => Eval(img, at, at + len, [], c)
  }

  /** A register's value in the caller; none for rules that need registers this
      model does not hold. */
  function RegisterBefore(img: Image, mem: Memory, c: Ctx, cfa: u64, rule: RegRule, current: u64): Option<u64> {
    match rule
    case SameValueRule => Some(current)
    case OffsetRule(n) => Some(Load(mem, cfa + n))
    case ValOffsetRule(n) => Some(U64(cfa + n))
    case ValExpressionRule(at, len) => Eval(img, at, at + len, [cfa], c)
    case ExpressionRule(at, len) =>
      (match Eval(img, at, at + len, [cfa], c)
       case Some(a) => Some(Load(mem, a))
       case None => None)
    case RegisterRule(other) =>
      if other < 0x100 then RegisterValue(c, other) else None
    case UndefinedRule => None
  }

  // ----- the two expression forms the parser recognises -----

  /** Offset of a pc-relative block: the pc plus `k`, followed by constants
      that are each added or subtracted. */
  function RelativeBlock(img: Image, at: int, len: u32): Option<int> {
    var (op, q) := DecodeOp(img, at);
    if len > 0 && op.Breg? && op.reg == 16 then RelativeTail(img, q, at + len, op.k) else None
  }

  function RelativeTail(img: Image, p: int, end: int, sum: int): Option<int>
    decreases end - p
  {
    if p >= end then if p == end then Some(sum) else None
    else
      var (op, q) := DecodeOp(img, p);
      var (op', q') := DecodeOp(img, q);
      if !op.Const? || q >= end then None
      else if op'.Plus? then RelativeTail(img, q', end, sum + op.c)
      else if op'.Minus? then RelativeTail(img, q', end, sum - op.c)
      else None
  }

  lemma {:induction false} RelativeTailValue(img: Image, p: int, end: int, sum: int, st: seq<u64>, c: Ctx, tos: i32)
    requires RelativeTail(img, p, end, sum).Some?
    ensures var total := RelativeTail(img, p, end, sum).value;
      && Eval(img, p, end, st + [U64(c.pc + sum)], c) == Some(U64(c.pc + total))
      && RelativePc(img, p, end, I32(sum), tos) == (I32(total), end)
    decreases end - p
  {
    if p < end {
      hide DecodeOp, RegisterValue;
      var (op, q) := DecodeOp(img, p);
      var (op', q') := DecodeOp(img, q);
      var k := op.c;
      var sum' := if op'.Plus? then sum + k else sum - k;
      RelativeTailValue(img, q', end, sum', st, c, I32(k));
      RelativePcPair(img, p, end, sum, tos);
      EvalPair(img, p, end, sum, st, c);
    }
  }

  /** The parser on one constant and the sum or difference after it. */
  lemma RelativePcPair(img: Image, p: int, end: int, sum: int, tos: i32)
    requires p < end && DecodeOp(img, p).0.Const?
    requires var q := DecodeOp(img, p).1; q < end && (DecodeOp(img, q).0.Plus? || DecodeOp(img, q).0.Minus?)
    ensures
      var (op, q) := DecodeOp(img, p);
      var (op', q') := DecodeOp(img, q);
      RelativePc(img, p, end, I32(sum), tos)
      == RelativePc(img, q', end, I32(if op'.Plus? then sum + op.c else sum - op.c), I32(op.c))
  {
    hide DecodeOp;
    var (op, q) := DecodeOp(img, p);
    Sum32(sum, op.c);
  }

  lemma Sum32(x: int, y: int)
    ensures I32(I32(x) + I32(y)) == I32(x + y) && I32(I32(x) - I32(y)) == I32(x - y)
  {
    var j := I32Wraps(x);
    var k := I32Wraps(y);
    var a: int, b: int := I32(x), I32(y);
    ShiftTruncate(j + k, a + b);
    ShiftTruncate(j - k, a - b);
  }

  lemma I32Wraps(x: int) returns (k: int)
    ensures x == I32(x) + k * 0x1_0000_0000
  {
    k := (x - I32(x)) / 0x1_0000_0000;
  }

  lemma Sum64(x: int, y: int)
    ensures U64(U64(x) + U64(y)) == U64(x + y) && U64(U64(x) - U64(y)) == U64(x - y)
    ensures U64(U64(x) + y) == U64(x + y)
  {
    var a, b := x / 0x1_0000_0000_0000_0000, y / 0x1_0000_0000_0000_0000;
    Wraps64(U64(x) + U64(y), a + b);
    Wraps64(U64(x) - U64(y), a - b);
    Wraps64(U64(x) + y, a);
  }

  lemma Wraps64(x: int, k: int)
    ensures U64(x + 0x1_0000_0000_0000_0000 * k) == U64(x)
  {
  }

  /** The standard's stack machine on the same pair. */
  lemma EvalPair(img: Image, p: int, end: int, sum: int, st: seq<u64>, c: Ctx)
    requires p < end && DecodeOp(img, p).0.Const?
    requires var q := DecodeOp(img, p).1; q < end && (DecodeOp(img, q).0.Plus? || DecodeOp(img, q).0.Minus?)
    ensures
      var (op, q) := DecodeOp(img, p);
      var (op', q') := DecodeOp(img, q);
      Eval(img, p, end, st + [U64(c.pc + sum)], c)
      == Eval(img, q', end, st + [U64(c.pc + if op'.Plus? then sum + op.c else sum - op.c)], c)
  {
    hide DecodeOp, RegisterValue, And, Pow2, Signed64;
    var (op, q) := DecodeOp(img, p);
    var (op', q') := DecodeOp(img, q);
    var v, k := U64(c.pc + sum), U64(op.c);
    var st1, st2 := st + [v], st + [v] + [k];
    Sum64(c.pc + sum, op.c);
    assert EvalOp(op, st1, c) == Some(st2);
    assert st2[|st2| - 2] == v && st2[|st2| - 1] == k && st2[..|st2| - 2] == st;
    assert EvalOp(op', st2, c) == Some(st + [U64(Binary(op', v, k))]);
  }

  /** The restricted evaluation agrees with the full stack machine: the machine
      yields the pc plus the block's offset, and the parser yields that offset
      in 32-bit arithmetic. Extra values below on the stack do not matter. */
  lemma RelativeBlockValue(img: Image, at: int, len: u32, st: seq<u64>, c: Ctx)
    requires RelativeBlock(img, at, len).Some?
    ensures var total := RelativeBlock(img, at, len).value;
      && Eval(img, at, at + len, st, c) == Some(U64(c.pc + total))
      && RelativePc(img, at, at + len, 0, 0) == (I32(total), at + len)
  {
    hide DecodeOp;
    var (op, q) := DecodeOp(img, at);
    RelativeTailValue(img, q, at + len, op.k, st, c, 0);
    assert EvalOp(op, st, c) == Some(st + [U64(c.pc + op.k)]);
  }

  /** The expression that linkers emit for procedure linkage table entries,
      eleven bytes long: sp + 8 + ((pc & 15) >= 11) * 8. */
  predicate IsPltBlock(img: Image, at: int) {
    && Byte(img, at) == 0x77 && Byte(img, at + 1) == 0x08       // breg7 8
    && Byte(img, at + 2) == 0x80 && Byte(img, at + 3) == 0x00   // breg16 0
    && Byte(img, at + 4) == 0x3f && Byte(img, at + 5) == 0x1a   // lit15, and
    && Byte(img, at + 6) == 0x3b && Byte(img, at + 7) == 0x2a   // lit11, ge
    && Byte(img, at + 8) == 0x33 && Byte(img, at + 9) == 0x24   // lit3, shl
    && Byte(img, at + 10) == 0x22                               // plus
  }

  /** One operation that leaves `rest` and pushes `v`. */
  lemma EvalNext(img: Image, p: int, end: int, st: seq<u64>, c: Ctx, op: Op, q: int, rest: seq<u64>, v: u64, st': seq<u64>)
    requires p < end && DecodeOp(img, p) == (op, q)
    requires EvalOp(op, st, c) == Some(rest + [v]) && st' == rest + [v]
    ensures Eval(img, p, end, st, c) == Eval(img, q, end, st', c)
  {
    hide DecodeOp, EvalOp;
  }

  lemma And15(a: nat)
    ensures And(a, 15) == a % 16
  {
    AndStep(a, 15);
    AndStep(a / 2, 7);
    AndStep(a / 2 / 2, 3);
    AndStep(a / 2 / 2 / 2, 1);
    assert And(a / 2 / 2 / 2 / 2, 0) == 0;
    Mod16(a);
  }

  lemma AndStep(a: nat, b: nat)
    requires b % 2 == 1
    ensures And(a, b) == a % 2 + 2 * And(a / 2, b / 2)
  {
  }

  lemma Mod16(a: nat)
    ensures a % 16 == a % 2 + 2 * (a / 2 % 2 + 2 * (a / 2 / 2 % 2 + 2 * (a / 2 / 2 / 2 % 2)))
  {
  }

  lemma PltDecode(img: Image, at: int)
    requires IsPltBlock(img, at)
    ensures DecodeOp(img, at) == (Breg(7, 8), at + 2) && DecodeOp(img, at + 2) == (Breg(16, 0), at + 4)
    ensures DecodeOp(img, at + 4) == (Lit(15), at + 5) && DecodeOp(img, at + 5) == (Op.And, at + 6)
    ensures DecodeOp(img, at + 6) == (Lit(11), at + 7) && DecodeOp(img, at + 7) == (Ge, at + 8)
    ensures DecodeOp(img, at + 8) == (Lit(3), at + 9) && DecodeOp(img, at + 9) == (Shl, at + 10)
    ensures DecodeOp(img, at + 10) == (Plus, at + 11)
  {
  }

  /** What the special PLT rule computes is what that expression means. */
  lemma PltBlockValue(img: Image, at: int, c: Ctx)
    requires IsPltBlock(img, at)
    ensures Eval(img, at, at + 11, [], c) == Some(U64(c.sp + if c.pc % 16 >= 11 then 16 else 8))
  {
    hide Eval;
    var b: u64 := if c.pc % 16 >= 11 then 1 else 0;
    PltFirstHalf(img, at, c, b);
    PltSecondHalf(img, at, c, b, U64(c.sp + 8));
    Sum64(c.sp + 8, b * 8);
  }

  lemma PltFirstHalf(img: Image, at: int, c: Ctx, b: u64)
    requires IsPltBlock(img, at) && b == if c.pc % 16 >= 11 then 1 else 0
    ensures Eval(img, at, at + 11, [], c) == Eval(img, at + 8, at + 11, [U64(c.sp + 8), b], c)
  {
    PltDecode(img, at);
    hide DecodeOp, And, Pow2, IsPltBlock, Binary, Eval;
    var end, a := at + 11, U64(c.sp + 8);
    var d: u64 := c.pc % 16;
    PltBinary(c.pc, a, d, b);
    PltLow(img, at, c);
    hide EvalOp;
    EvalNext(img, at + 6, end, [a, d], c, Lit(11), at + 7, [a, d], 11, [a, d, 11]);
    EvalBinary([a], d, 11, [a, d, 11], c, Ge);
    EvalNext(img, at + 7, end, [a, d, 11], c, Ge, at + 8, [a], b, [a, b]);
  }

  /** Its first six bytes leave the pc's low digit above the CFA's default. */
  lemma PltLow(img: Image, at: int, c: Ctx)
    requires IsPltBlock(img, at)
    ensures Eval(img, at, at + 11, [], c) == Eval(img, at + 6, at + 11, [U64(c.sp + 8), c.pc % 16], c)
  {
    PltDecode(img, at);
    hide DecodeOp, And, Pow2, IsPltBlock, Binary, Eval;
    var end, a := at + 11, U64(c.sp + 8);
    var d: u64 := c.pc % 16;
    PltBinary(c.pc, a, d, if d >= 11 then 1 else 0);
    assert U64(c.pc + 0) == c.pc;
    EvalNext(img, at, end, [], c, Breg(7, 8), at + 2, [], a, [a]);
    EvalNext(img, at + 2, end, [a], c, Breg(16, 0), at + 4, [a], c.pc, [a, c.pc]);
    EvalNext(img, at + 4, end, [a, c.pc], c, Lit(15), at + 5, [a, c.pc], 15, [a, c.pc, 15]);
    EvalBinary([a], c.pc, 15, [a, c.pc, 15], c, Op.And);
    EvalNext(img, at + 5, end, [a, c.pc, 15], c, Op.And, at + 6, [a], d, [a, d]);
  }

  lemma PltSecondHalf(img: Image, at: int, c: Ctx, b: u64, a: u64)
    requires IsPltBlock(img, at) && b <= 1
    ensures Eval(img, at + 8, at + 11, [a, b], c) == Some(U64(a + b * 8))
  {
    PltDecode(img, at);
    hide DecodeOp, And, Pow2, IsPltBlock, Binary;
    var end := at + 11;
    PltBinary(if b == 1 then 11 else 0, a, if b == 1 then 11 else 0, b);
    EvalNext(img, at + 8, end, [a, b], c, Lit(3), at + 9, [a, b], 3, [a, b, 3]);
    EvalBinary([a], b, 3, [a, b, 3], c, Shl);
    EvalNext(img, at + 9, end, [a, b, 3], c, Shl, at + 10, [a], b * 8, [a, b * 8]);
    EvalBinary([], a, b * 8, [a, b * 8], c, Plus);
    EvalNext(img, at + 10, end, [a, b * 8], c, Plus, at + 11, [], U64(a + b * 8), [U64(a + b * 8)]);
  }

  lemma PltBinary(pc: u64, a: u64, d: u64, b: u64)
    requires d == pc % 16 && b == if d >= 11 then 1 else 0
    ensures U64(Binary(Op.And, pc, 15)) == d && U64(Binary(Ge, d, 11)) == b
    ensures U64(Binary(Shl, b, 3)) == b * 8 && Binary(Plus, a, b * 8) == a + b * 8
  {
    hide And;
    And15(pc);
    Pow2Eight();
  }

  lemma Pow2Eight()
    ensures Pow2(3) == 8
  {
  }

  lemma EvalBinary(rest: seq<u64>, a: u64, b: u64, st: seq<u64>, c: Ctx, op: Op)
    requires op.And? || op.Minus? || op.Plus? || op.Shl? || op.Ge?
    requires st == rest + [a, b]
    ensures EvalOp(op, st, c) == Some(rest + [U64(Binary(op, a, b))])
  {
    hide Binary;
    assert st[..|st| - 2] == rest;
  }
}
