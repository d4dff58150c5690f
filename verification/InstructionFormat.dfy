/** How call-frame instructions and expression operations are written (sections 7.24 and
    7.7.1 of DWARF 5), and that decoding reads them back. */
module InstructionFormat {
  import opened Words
  import opened Options
  import opened Leb128
  import opened CallFrame

  // ----- operations of expressions -----

  /** An operation as it is written. `Other` is any that the parser has no name for,
      with its operands. */
  datatype OpText =
    | Const1u(b: u8)
    | Const1s(c: int)
    | Const2u(h: u16)
    | Const2s(c: int)
    | Const4u(w: u32)
    | Const4s(c: int)
    | Constu(n: nat)
    | Consts(c: int)
    | And
    | Minus
    | Plus
    | Shl
    | Ge
    | Lit(v: nat)
    | Breg(reg: nat, c: int)
    | Other(code: u8, operands: seq<u8>)

  predicate OpFits(o: OpText) {
    match o
    case Const1s(c) => -0x80 <= c < 0x80
    case Const2s(c) => -0x8000 <= c < 0x8000
    case Const4s(c) => -0x8000_0000 <= c < 0x8000_0000
    case Lit(v) => v < 32
    case Breg(reg, _) => reg < 32
    case Other(code, _) =>
      && !(0x08 <= code <= 0x0d) && code != 0x10 && code != 0x11 && code != 0x1a && code != 0x1c && code != 0x22
      && code != 0x24 && code != 0x2a && !(0x30 <= code <= 0x4f) && !(0x70 <= code <= 0x8f)
    case _ => true
  }

  type OpCode = o: OpText | OpFits(o) witness OpText.And

  function OpBytes(o: OpCode): seq<u8> {
    match o
    case Const1u(b) => [0x08, b]
    case Const1s(c) => [0x09, c % 0x100]
    case Const2u(h) => [0x0a] + Bytes2(h)
    case Const2s(c) => [0x0b] + Bytes2(c % 0x1_0000)
    case Const4u(w) => [0x0c] + Bytes4(w)
    case Const4s(c) => [0x0d] + Bytes4(c % 0x1_0000_0000)
    case Constu(n) => [0x10] + EncodeU(n)
    case Consts(c) => [0x11] + EncodeS(c)
    case And => [0x1a]
    case Minus => [0x1c]
    case Plus => [0x22]
    case Shl => [0x24]
    case Ge => [0x2a]
    case Lit(v) => [0x30 + v]
    case Breg(reg, c) => [0x70 + reg] + EncodeS(c)
    case Other(code, operands) => [code] + operands
  }

  function OpMeaning(o: OpCode): Op {
    match o
    case Const1u(b) => Op.Const(b)
    case Const1s(c) => Op.Const(c)
    case Const2u(h) => Op.Const(h)
    case Const2s(c) => Op.Const(c)
    case Const4u(w) => Op.Const(w)
    case Const4s(c) => Op.Const(c)
    case Constu(n) => Op.Const(n)
    case Consts(c) => Op.Const(c)
    case And => Op.And
    case Minus => Op.Minus
    case Plus => Op.Plus
    case Shl => Op.Shl
    case Ge => Op.Ge
    case Lit(v) => Op.Lit(v)
    case Breg(reg, c) => Op.Breg(reg, c)
    case Other(code, _) => Op.UnknownOp(code)
  }

  /** Decoding reads every operation back. */
  lemma OpDecodes(img: Image, p: int, o: OpCode)
    requires Holds(img, p, OpBytes(o))
    ensures DecodeOp(img, p).0 == OpMeaning(o)
    ensures !o.Other? ==> DecodeOp(img, p).1 == p + |OpBytes(o)|
  {
    hide *;
    if HasWord(o) {
      WordOpDecodes(img, p, o);
    } else if HasLeb(o) {
      LebOpDecodes(img, p, o);
    } else {
      ShortOpDecodes(img, p, o);
    }
  }

  predicate HasWord(o: OpCode) { o.Const2u? || o.Const2s? || o.Const4u? || o.Const4s? }

  predicate HasLeb(o: OpCode) { o.Constu? || o.Consts? || o.Breg? }

  lemma WordOpDecodes(img: Image, p: int, o: OpCode)
    requires Holds(img, p, OpBytes(o)) && HasWord(o)
    ensures DecodeOp(img, p) == (OpMeaning(o), p + |OpBytes(o)|)
  {
    hide Byte, Holds, ULeb, SLeb, LebEnd, Get16, Get32, Bytes2, Bytes4;
    match o
    case Const2u(h) =>
      HoldsTail(img, p, 0x0a, Bytes2(h));
      Read2(img, p + 1, h);
    case Const2s(c) =>
      HoldsTail(img, p, 0x0b, Bytes2(c % 0x1_0000));
      Read2(img, p + 1, c % 0x1_0000);
    case Const4u(w) =>
      HoldsTail(img, p, 0x0c, Bytes4(w));
      Read4(img, p + 1, w);
    case Const4s(c) =>
      HoldsTail(img, p, 0x0d, Bytes4(c % 0x1_0000_0000));
      Read4(img, p + 1, c % 0x1_0000_0000);
  }

  lemma LebOpDecodes(img: Image, p: int, o: OpCode)
    requires Holds(img, p, OpBytes(o)) && HasLeb(o)
    ensures DecodeOp(img, p) == (OpMeaning(o), p + |OpBytes(o)|)
  {
    hide Byte, Holds, ULeb, SLeb, LebEnd, Get16, Get32, EncodeU, EncodeS;
    match o
    case Constu(n) =>
      HoldsTail(img, p, 0x10, EncodeU(n));
      UnsignedRoundTrip(img, p + 1, n);
    case Consts(c) =>
      HoldsTail(img, p, 0x11, EncodeS(c));
      SignedRoundTrip(img, p + 1, c);
    case Breg(reg, c) =>
      HoldsTail(img, p, 0x70 + reg, EncodeS(c));
      SignedRoundTrip(img, p + 1, c);
  }

  lemma ShortOpDecodes(img: Image, p: int, o: OpCode)
    requires Holds(img, p, OpBytes(o)) && !HasWord(o) && !HasLeb(o)
    ensures DecodeOp(img, p).0 == OpMeaning(o)
    ensures !o.Other? ==> DecodeOp(img, p).1 == p + |OpBytes(o)|
  {
    var s := OpBytes(o);
    HoldsByte(img, p, s, 0);
    if |s| > 1 {
      HoldsByte(img, p, s, 1);
    }
    hide Byte, Holds, ULeb, SLeb, LebEnd, Get16, Get32;
  }

  // ----- blocks of operations -----

  function OpsBytes(os: seq<OpCode>): seq<u8> {
    if os == [] then [] else OpBytes(os[0]) + OpsBytes(os[1..])
  }

  /** What the parser makes of a block, in exact arithmetic: the offset from the pc, where
      every operation is one of those it knows. */
  function RelativeTotal(os: seq<OpCode>, off: int, tos: int): Option<int> {
    if os == [] then Some(off)
    else
      match ConstantOf(os[0])
      case Some(c) => RelativeTotal(os[1..], off, c)
      case None =>
        if os[0].Minus? then RelativeTotal(os[1..], off - tos, tos)
        else if os[0].Plus? then RelativeTotal(os[1..], off + tos, tos)
        else if os[0].Breg? && os[0].reg == 16 then RelativeTotal(os[1..], os[0].c, tos)
        else None
  }

  function ConstantOf(o: OpCode): Option<int> {
    match o
    case Const1u(b) => Some(b)
    case Const1s(c) => Some(c)
    case Const2u(h) => Some(h)
    case Const2s(c) => Some(c)
    case Const4u(w) => Some(w)
    case Const4s(c) => Some(c)
    case Constu(n) => Some(n)
    case Consts(c) => Some(c)
    case _ => None
  }

  /** A block is evaluated to its end: to the truncated total, or to zero where any
      operation is one that the parser does not know. */
  lemma {:induction false} BlockReads(img: Image, p: int, end: int, os: seq<OpCode>, off: int, tos: int)
    requires Holds(img, p, OpsBytes(os)) && end == p + |OpsBytes(os)|
    ensures RelativePc(img, p, end, I32(off), I32(tos)) == (Truncated(RelativeTotal(os, off, tos)), end)
    decreases |os|
  {
    hide *;
    if os == [] {
      EmptyBlock(img, p, off, tos);
    } else {
      var o, rest := os[0], os[1..];
      var q := p + |OpBytes(o)|;
      OpsCons(os);
      OpsHead(img, p, q, end, o, rest);
      SumsTruncate(off, tos);
      OpCases(o);
      RelativeStep(img, p, end, I32(off), I32(tos));
      TotalStep(os, off, tos);
      if ConstantOf(o).Some? {
        BlockReads(img, q, end, rest, off, ConstantOf(o).value);
      } else if o.Minus? {
        BlockReads(img, q, end, rest, off - tos, tos);
      } else if o.Plus? {
        BlockReads(img, q, end, rest, off + tos, tos);
      } else if o.Breg? && o.reg == 16 {
        BlockReads(img, q, end, rest, o.c, tos);
      } else {
        NoTotal();
      }
    }
  }

  lemma EmptyBlock(img: Image, p: int, off: int, tos: int)
    ensures OpsBytes([]) == [] && RelativePc(img, p, p, I32(off), I32(tos)) == (Truncated(RelativeTotal([], off, tos)), p)
  {
  }

  function Truncated(total: Option<int>): i32 {
    match total case Some(t) => I32(t) case None => 0
  }

  lemma NoTotal()
    ensures Truncated(None) == 0
  {
  }

  lemma TotalStep(os: seq<OpCode>, off: int, tos: int)
    requires os != []
    ensures
      var o, rest := os[0], os[1..];
      RelativeTotal(os, off, tos)
      == if ConstantOf(o).Some? then RelativeTotal(rest, off, ConstantOf(o).value)
         else if o.Minus? then RelativeTotal(rest, off - tos, tos)
         else if o.Plus? then RelativeTotal(rest, off + tos, tos)
         else if o.Breg? && o.reg == 16 then RelativeTotal(rest, o.c, tos)
         else None
  {
    hide ConstantOf;
  }

  lemma OpsHead(img: Image, p: int, q: int, end: int, o: OpCode, rest: seq<OpCode>)
    requires Holds(img, p, OpBytes(o) + OpsBytes(rest)) && q == p + |OpBytes(o)| && end == q + |OpsBytes(rest)|
    ensures p < end && Holds(img, q, OpsBytes(rest))
    ensures DecodeOp(img, p).0 == OpMeaning(o) && (!o.Other? ==> DecodeOp(img, p).1 == q)
  {
    hide *;
    OpCases(o);
    HoldsParts(img, p, OpBytes(o), OpsBytes(rest));
    OpDecodes(img, p, o);
  }

  lemma OpsCons(os: seq<OpCode>)
    requires os != []
    ensures OpsBytes(os) == OpBytes(os[0]) + OpsBytes(os[1..])
  {
  }

  lemma OpCases(o: OpCode)
    ensures OpBytes(o) != []
    ensures match ConstantOf(o)
      case Some(c) => OpMeaning(o) == Op.Const(c) && !o.Other?
      case None => !OpMeaning(o).Const?
    ensures (OpMeaning(o).Minus? <==> o.Minus?) && (OpMeaning(o).Plus? <==> o.Plus?) && (OpMeaning(o).Breg? <==> o.Breg?)
    ensures o.Breg? ==> OpMeaning(o) == Op.Breg(o.reg, o.c)
  {
  }

  /** One round of the restricted evaluation. */
  lemma RelativeStep(img: Image, p: int, end: int, off: i32, tos: i32)
    requires p < end
    ensures
      var (op, q) := DecodeOp(img, p);
      RelativePc(img, p, end, off, tos)
      == if op.Const? then RelativePc(img, q, end, off, I32(op.c))
         else if op.Minus? then RelativePc(img, q, end, I32(off - tos), tos)
         else if op.Plus? then RelativePc(img, q, end, I32(off + tos), tos)
         else if op.Breg? && op.reg == 16 then RelativePc(img, q, end, I32(op.k), tos)
         else (0, end)
  {
    hide DecodeOp;
  }

  lemma SumsTruncate(x: int, y: int)
    ensures I32(I32(x) - I32(y)) == I32(x - y) && I32(I32(x) + I32(y)) == I32(x + y)
  {
    var m := 0x1_0000_0000;
    var a, b := (x - I32(x)) / m, (y - I32(y)) / m;
    assert x == I32(x) + a * m && y == I32(y) + b * m;
    Wraps32(I32(x) - I32(y), a - b);
    Wraps32(I32(x) + I32(y), a + b);
  }

  lemma Wraps32(x: int, k: int)
    ensures I32(x + 0x1_0000_0000 * k) == I32(x)
  {
  }

  // ----- instructions -----

  /** An instruction as it is written; an advance, an offset and a restore have several forms. */
  datatype CodeText =
    | Nop
    | SetLoc
    | Advance(d: nat)
    | Advance1(d: nat)
    | Advance2(d: nat)
    | Advance4(d: nat)
    | ShortOffset(reg: nat, n: nat)
    | OffsetExtended(reg: nat, n: nat)
    | OffsetExtendedSf(reg: nat, sn: int)
    | ShortRestore(reg: nat)
    | RestoreExtended(reg: nat)
    | Undefined(reg: nat)
    | SameValue(reg: nat)
    | Register(reg: nat, other: nat)
    | RememberState
    | RestoreState
    | DefCfa(reg: nat, off: nat)
    | DefCfaSf(reg: nat, soff: int)
    | DefCfaRegister(reg: nat)
    | DefCfaOffset(off: nat)
    | DefCfaOffsetSf(soff: int)
    | DefCfaExpression(os: seq<OpCode>)
    | Expression(reg: nat, os: seq<OpCode>)
    | ValOffset(reg: nat, n: nat)
    | ValOffsetSf(reg: nat, sn: int)
    | ValExpression(reg: nat, os: seq<OpCode>)
    | GnuArgsSize(size: nat)

  predicate Fits(c: CodeText) {
    match c
    case Advance(d) => d < 0x40
    case Advance1(d) => d < 0x100
    case Advance2(d) => d < 0x1_0000
    case Advance4(d) => d < 0x1_0000_0000
    case ShortOffset(reg, _) => reg < 0x40
    case ShortRestore(reg) => reg < 0x40
    case DefCfaExpression(os) => |OpsBytes(os)| < 0x1_0000_0000
    case Expression(_, os) => |OpsBytes(os)| < 0x1_0000_0000
    case ValExpression(_, os) => |OpsBytes(os)| < 0x1_0000_0000
    case _ => true
  }

  type Code = c: CodeText | Fits(c) witness CodeText.Nop

  function BlockBytes(os: seq<OpCode>): seq<u8> {
    EncodeU(|OpsBytes(os)|) + OpsBytes(os)
  }

  function OpcodeOf(c: Code): u8 {
    match c
    case Nop => 0x00
    case SetLoc => 0x01
    case Advance(d) => 0x40 + d
    case Advance1(_) => 0x02
    case Advance2(_) => 0x03
    case Advance4(_) => 0x04
    case ShortOffset(reg, _) => 0x80 + reg
    case OffsetExtended(_, _) => 0x05
    case OffsetExtendedSf(_, _) => 0x11
    case ShortRestore(reg) => 0xc0 + reg
    case RestoreExtended(_) => 0x06
    case Undefined(_) => 0x07
    case SameValue(_) => 0x08
    case Register(_, _) => 0x09
    case RememberState => 0x0a
    case RestoreState => 0x0b
    case DefCfa(_, _) => 0x0c
    case DefCfaSf(_, _) => 0x12
    case DefCfaRegister(_) => 0x0d
    case DefCfaOffset(_) => 0x0e
    case DefCfaOffsetSf(_) => 0x13
    case DefCfaExpression(_) => 0x0f
    case Expression(_, _) => 0x10
    case ValOffset(_, _) => 0x14
    case ValOffsetSf(_, _) => 0x15
    case ValExpression(_, _) => 0x16
    case GnuArgsSize(_) => 0x2e
  }

  function Operands(c: Code): seq<u8> {
    match c
    case Advance1(d) => [d]
    case Advance2(d) => Bytes2(d)
    case Advance4(d) => Bytes4(d)
    case ShortOffset(_, n) => EncodeU(n)
    case OffsetExtended(reg, n) => EncodeU(reg) + EncodeU(n)
    case OffsetExtendedSf(reg, sn) => EncodeU(reg) + EncodeS(sn)
    case RestoreExtended(reg) => EncodeU(reg)
    case Undefined(reg) => EncodeU(reg)
    case SameValue(reg) => EncodeU(reg)
    case Register(reg, other) => EncodeU(reg) + EncodeU(other)
    case DefCfa(reg, off) => EncodeU(reg) + EncodeU(off)
    case DefCfaSf(reg, soff) => EncodeU(reg) + EncodeS(soff)
    case DefCfaRegister(reg) => EncodeU(reg)
    case DefCfaOffset(off) => EncodeU(off)
    case DefCfaOffsetSf(soff) => EncodeS(soff)
    case DefCfaExpression(os) => BlockBytes(os)
    case Expression(reg, os) => EncodeU(reg) + BlockBytes(os)
    case ValOffset(reg, n) => EncodeU(reg) + EncodeU(n)
    case ValOffsetSf(reg, sn) => EncodeU(reg) + EncodeS(sn)
    case ValExpression(reg, os) => EncodeU(reg) + BlockBytes(os)
    case GnuArgsSize(size) => EncodeU(size)
    case _ => []
  }

  function CodeBytes(c: Code): (s: seq<u8>)
    ensures s != []
  {
    [OpcodeOf(c)] + Operands(c)
  }

  /** The instruction that `c` stands for, when it is written at `p`: a block is the
      position and length of its operations. */
  function Meaning(c: Code, p: int): Instr {
    match c
    case Nop => Instr.Nop
    case SetLoc => Instr.SetLoc
    case Advance(d) => AdvanceLoc(d)
    case Advance1(d) => AdvanceLoc(d)
    case Advance2(d) => AdvanceLoc(d)
    case Advance4(d) => AdvanceLoc(d)
    case ShortOffset(reg, n) => Offset(reg, n)
    case OffsetExtended(reg, n) => Offset(reg, n)
    case OffsetExtendedSf(reg, sn) => OffsetSf(reg, sn)
    case ShortRestore(reg) => Restore(reg)
    case RestoreExtended(reg) => Restore(reg)
    case Undefined(reg) => Instr.Undefined(reg)
    case SameValue(reg) => Instr.SameValue(reg)
    case Register(reg, other) => Instr.Register(reg, other)
    case RememberState => Instr.RememberState
    case RestoreState => Instr.RestoreState
    case DefCfa(reg, off) => Instr.DefCfa(reg, off)
    case DefCfaSf(reg, soff) => Instr.DefCfaSf(reg, soff)
    case DefCfaRegister(reg) => Instr.DefCfaRegister(reg)
    case DefCfaOffset(off) => Instr.DefCfaOffset(off)
    case DefCfaOffsetSf(soff) => Instr.DefCfaOffsetSf(soff)
    case DefCfaExpression(os) => Instr.DefCfaExpression(BlockStart(c, p, os), |OpsBytes(os)|)
    case Expression(reg, os) => Instr.Expression(reg, BlockStart(c, p, os), |OpsBytes(os)|)
    case ValOffset(reg, n) => Instr.ValOffset(reg, n)
    case ValOffsetSf(reg, sn) => Instr.ValOffsetSf(reg, sn)
    case ValExpression(reg, os) => Instr.ValExpression(reg, BlockStart(c, p, os), |OpsBytes(os)|)
    case GnuArgsSize(size) => ArgsSize(size)
  }

  /** A block's operations are written last. */
  function BlockStart(c: Code, p: int, os: seq<OpCode>): int {
    p + |CodeBytes(c)| - |OpsBytes(os)|
  }

  /** Decoding reads every instruction back, and goes on behind it. */
  lemma CodeDecodes(img: Image, p: int, c: Code)
    requires Holds(img, p, CodeBytes(c))
    ensures Decode(img, p) == (Meaning(c, p), p + |CodeBytes(c)|)
  {
    assert CodeBytes(c) == [OpcodeOf(c)] + Operands(c);
    hide *;
    HoldsTail(img, p, OpcodeOf(c), Operands(c));
    if HasBlock(c) {
      BlockCodeDecodes(img, p, c);
    } else if HasTwo(c) {
      TwoCodeDecodes(img, p, c);
    } else if HasOne(c) {
      OneCodeDecodes(img, p, c);
    } else {
      FixedCodeDecodes(img, p, c);
    }
  }

  predicate HasBlock(c: Code) { c.DefCfaExpression? || c.Expression? || c.ValExpression? }

  /** Two numbers. */
  predicate HasTwo(c: Code) {
    c.OffsetExtended? || c.OffsetExtendedSf? || c.Register? || c.DefCfa? || c.DefCfaSf? || c.ValOffset? || c.ValOffsetSf?
  }

  /** One number. */
  predicate HasOne(c: Code) {
    || c.ShortOffset? || c.RestoreExtended? || c.Undefined? || c.SameValue? || c.DefCfaRegister? || c.DefCfaOffset?
    || c.DefCfaOffsetSf? || c.GnuArgsSize?
  }

  lemma TwoUnsigned(img: Image, a: int, x: nat, y: nat)
    requires Holds(img, a, EncodeU(x) + EncodeU(y))
    ensures var b := LebEnd(img, a);
      ULeb(img, a) == x && ULeb(img, b) == y && LebEnd(img, b) == a + |EncodeU(x) + EncodeU(y)|
  {
    hide Holds, EncodeU, ULeb, LebEnd;
    HoldsParts(img, a, EncodeU(x), EncodeU(y));
    UnsignedRoundTrip(img, a, x);
    UnsignedRoundTrip(img, a + |EncodeU(x)|, y);
  }

  lemma UnsignedSigned(img: Image, a: int, x: nat, y: int)
    requires Holds(img, a, EncodeU(x) + EncodeS(y))
    ensures var b := LebEnd(img, a);
      ULeb(img, a) == x && SLeb(img, b) == y && LebEnd(img, b) == a + |EncodeU(x) + EncodeS(y)|
  {
    hide Holds, EncodeU, EncodeS, ULeb, SLeb, LebEnd;
    HoldsParts(img, a, EncodeU(x), EncodeS(y));
    UnsignedRoundTrip(img, a, x);
    SignedRoundTrip(img, a + |EncodeU(x)|, y);
  }

  lemma FixedCodeDecodes(img: Image, p: int, c: Code)
    requires Byte(img, p) == OpcodeOf(c) && Holds(img, p + 1, Operands(c))
    requires !HasBlock(c) && !HasTwo(c) && !HasOne(c)
    ensures Decode(img, p) == (Meaning(c, p), p + |CodeBytes(c)|)
  {
    hide ULeb, SLeb, LebEnd, Get16, Get32, EncodeU, EncodeS;
    match c
    case Advance1(d) => HoldsByte(img, p + 1, [d], 0);
    case Advance2(d) => Read2(img, p + 1, d); hide Bytes2, Byte, Holds;
    case Advance4(d) => Read4(img, p + 1, d); hide Bytes4, Byte, Holds;
    case _ => hide Byte, Holds;
  }

  lemma OneCodeDecodes(img: Image, p: int, c: Code)
    requires Byte(img, p) == OpcodeOf(c) && Holds(img, p + 1, Operands(c)) && HasOne(c)
    ensures Decode(img, p) == (Meaning(c, p), p + |CodeBytes(c)|)
  {
    hide ULeb, SLeb, LebEnd, Byte, Get16, Get32, EncodeU, EncodeS, Holds;
    match c
    case ShortOffset(_, n) => UnsignedRoundTrip(img, p + 1, n);
    case RestoreExtended(reg) => UnsignedRoundTrip(img, p + 1, reg);
    case Undefined(reg) => UnsignedRoundTrip(img, p + 1, reg);
    case SameValue(reg) => UnsignedRoundTrip(img, p + 1, reg);
    case DefCfaRegister(reg) => UnsignedRoundTrip(img, p + 1, reg);
    case DefCfaOffset(off) => UnsignedRoundTrip(img, p + 1, off);
    case DefCfaOffsetSf(soff) => SignedRoundTrip(img, p + 1, soff);
    case GnuArgsSize(size) => UnsignedRoundTrip(img, p + 1, size);
  }

  lemma TwoCodeDecodes(img: Image, p: int, c: Code)
    requires Byte(img, p) == OpcodeOf(c) && Holds(img, p + 1, Operands(c)) && HasTwo(c)
    ensures Decode(img, p) == (Meaning(c, p), p + |CodeBytes(c)|)
  {
    hide ULeb, SLeb, LebEnd, Byte, Get16, Get32, EncodeU, EncodeS, Holds;
    match c
    case OffsetExtended(reg, n) => TwoUnsigned(img, p + 1, reg, n);
    case OffsetExtendedSf(reg, sn) => UnsignedSigned(img, p + 1, reg, sn);
    case Register(reg, other) => TwoUnsigned(img, p + 1, reg, other);
    case DefCfa(reg, off) => TwoUnsigned(img, p + 1, reg, off);
    case DefCfaSf(reg, soff) => UnsignedSigned(img, p + 1, reg, soff);
    case ValOffset(reg, n) => TwoUnsigned(img, p + 1, reg, n);
    case ValOffsetSf(reg, sn) => UnsignedSigned(img, p + 1, reg, sn);
  }

  /** A block at `a`: where its operations start and end, and what the parser's own
      evaluation of it ends at. */
  lemma BlockLies(img: Image, a: int, os: seq<OpCode>)
    requires |OpsBytes(os)| < 0x1_0000_0000 && Holds(img, a, BlockBytes(os))
    ensures BlockLen(img, a) == |OpsBytes(os)| && LebEnd(img, a) == a + |BlockBytes(os)| - |OpsBytes(os)|
    ensures U32(ULeb(img, a)) == |OpsBytes(os)| && BlockEnd(img, a) == a + |BlockBytes(os)|
    ensures RelativePc(img, LebEnd(img, a), BlockEnd(img, a), 0, 0).1 == BlockEnd(img, a)
  {
    var n := |OpsBytes(os)|;
    var b := a + |EncodeU(n)|;
    assert |BlockBytes(os)| == |EncodeU(n)| + n;
    BlockHolds(img, a, os);
    SmallWord(n);
    hide RelativePc, ULeb, LebEnd, Holds, OpsBytes, EncodeU, I32, U32, RelativeTotal, BlockBytes;
    BlockReads(img, b, b + n, os, 0, 0);
  }

  lemma BlockHolds(img: Image, a: int, os: seq<OpCode>)
    requires Holds(img, a, BlockBytes(os))
    ensures var n := |OpsBytes(os)|;
      ULeb(img, a) == n && LebEnd(img, a) == a + |EncodeU(n)| && Holds(img, a + |EncodeU(n)|, OpsBytes(os))
  {
    hide ULeb, LebEnd, Holds, OpsBytes, EncodeU;
    HoldsParts(img, a, EncodeU(|OpsBytes(os)|), OpsBytes(os));
    UnsignedRoundTrip(img, a, |OpsBytes(os)|);
  }

  lemma SmallWord(n: nat)
    requires n < 0x1_0000_0000
    ensures U32(n) == n && I32(0) == 0
  {
  }

  lemma BlockCodeDecodes(img: Image, p: int, c: Code)
    requires Byte(img, p) == OpcodeOf(c) && Holds(img, p + 1, Operands(c)) && HasBlock(c)
    ensures Decode(img, p) == (Meaning(c, p), p + |CodeBytes(c)|)
  {
    hide ULeb, SLeb, LebEnd, Byte, Get16, Get32, EncodeU, EncodeS, Holds, BlockBytes, BlockLen, BlockEnd, RelativePc, OpsBytes, U32;
    match c
    case DefCfaExpression(os) =>
      BlockLies(img, p + 1, os);
    case Expression(reg, os) =>
      HoldsParts(img, p + 1, EncodeU(reg), BlockBytes(os));
      UnsignedRoundTrip(img, p + 1, reg);
      BlockLies(img, p + 1 + |EncodeU(reg)|, os);
    case ValExpression(reg, os) =>
      HoldsParts(img, p + 1, EncodeU(reg), BlockBytes(os));
      UnsignedRoundTrip(img, p + 1, reg);
      BlockLies(img, p + 1 + |EncodeU(reg)|, os);
  }

  // ----- programs -----

  function ProgramBytes(cs: seq<Code>): seq<u8> {
    if cs == [] then [] else CodeBytes(cs[0]) + ProgramBytes(cs[1..])
  }

  /** The instructions written at `p`; nothing is read behind a set-location, whose
      operand's format the parser does not know. */
  function ProgramMeaning(cs: seq<Code>, p: int): seq<Instr> {
    if cs == [] then []
    else if cs[0].SetLoc? then [Meaning(cs[0], p)]
    else [Meaning(cs[0], p)] + ProgramMeaning(cs[1..], p + |CodeBytes(cs[0])|)
  }

  /** A program's bytes are read back as its instructions. */
  lemma {:induction false} ProgramReads(img: Image, p: int, end: int, cs: seq<Code>)
    requires Holds(img, p, ProgramBytes(cs)) && end == p + |ProgramBytes(cs)|
    ensures Program(img, p, end) == ProgramMeaning(cs, p)
    decreases |cs|
  {
    hide *;
    if cs == [] {
      NoCodes(img, p);
    } else {
      var c, rest := cs[0], cs[1..];
      var q := p + |CodeBytes(c)|;
      CodesCons(cs, p, q);
      CodesHead(img, p, q, end, c, rest);
      KnownMeaning(c, p);
      ProgramHead(img, p, end, Meaning(c, p), q);
      ProgramReads(img, q, end, rest);
    }
  }

  lemma NoCodes(img: Image, p: int)
    ensures ProgramBytes([]) == [] && ProgramMeaning([], p) == [] && Program(img, p, p) == []
  {
  }

  lemma CodesCons(cs: seq<Code>, p: int, q: int)
    requires cs != [] && q == p + |CodeBytes(cs[0])|
    ensures ProgramBytes(cs) == CodeBytes(cs[0]) + ProgramBytes(cs[1..])
    ensures ProgramMeaning(cs, p) == [Meaning(cs[0], p)] + if cs[0].SetLoc? then [] else ProgramMeaning(cs[1..], q)
  {
    hide CodeBytes, Meaning;
  }

  lemma CodesHead(img: Image, p: int, q: int, end: int, c: Code, rest: seq<Code>)
    requires Holds(img, p, CodeBytes(c) + ProgramBytes(rest)) && q == p + |CodeBytes(c)| && end == q + |ProgramBytes(rest)|
    ensures p < end && Decode(img, p) == (Meaning(c, p), q) && Holds(img, q, ProgramBytes(rest))
  {
    hide *;
    HoldsParts(img, p, CodeBytes(c), ProgramBytes(rest));
    CodeDecodes(img, p, c);
  }

  lemma KnownMeaning(c: Code, p: int)
    ensures !Meaning(c, p).Unknown? && (Meaning(c, p).SetLoc? <==> c.SetLoc?)
  {
  }

  /** Any other first byte is an unknown instruction. */
  lemma OtherUnknown(img: Image, p: int)
    requires 0x17 <= Byte(img, p) < 0x40 && Byte(img, p) != 0x2e
    ensures Decode(img, p) == (Unknown(Byte(img, p)), p + 1)
  {
    hide ULeb, SLeb, LebEnd, Get16, Get32;
  }
}
