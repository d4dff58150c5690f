/** The parser's machine refines the standard's: which rows the packed form
    can express, and that programs whose rows all can are compiled to them. */
module RuleRefinement {
  import opened Words
  import opened Options
  import opened Leb128
  import opened FrameTable
  import opened CallFrame
  import opened DwarfReference
  import Process

  /** The CFA register and offset that stand for a CFA rule. A block other than
      the PLT one is expressible as "unsupported" when its length tells it apart. */
  function EncodeCfa(img: Image, cfa: CfaRule): Option<(u32, i32)> {
    match cfa
    case CfaUndefined => None
    case CfaRegister(reg, off) =>
      if reg < 128 && -0x80_0000 <= off < 0x80_0000 then Some((reg, off)) else None
    case CfaExpression(at, len) =>
      if len != 11 then Some((REG_INVALID, STACK_SLOT))
      else if IsPltBlock(img, at) then Some((REG_PLT, STACK_SLOT))
      else None
  }

  /** The frame-pointer field that stands for the rules of the pc and the
      frame pointer. */
  function EncodeFp(img: Image, pc: RegRule, fp: RegRule): Option<i32> {
    match (pc, fp)
    case (OffsetRule(r), SameValueRule) => if r == -8 then Some(SAME_FP) else None
    case (OffsetRule(r), OffsetRule(n)) =>
      if r == -8 && n % 2 == 0 && -MAX_FRAME_SIZE < n < MAX_FRAME_SIZE then Some(n) else None
    case (ValExpressionRule(at, len), SameValueRule) =>
      (match RelativeBlock(img, at, len)
       case Some(k) => if k != 0 && -0x4000_0000 <= k < 0x4000_0000 then Some(PackPcOffset(k)) else None
       case None => None)
    case _ => None
  }

  function RowFp(img: Image, row: DwRow): Option<i32> {
    EncodeFp(img, row.RuleFor(16), row.RuleFor(6))
  }

  predicate Expressible(img: Image, row: DwRow) {
    EncodeCfa(img, row.cfa).Some? && RowFp(img, row).Some?
  }

  /** The record content that stands for a row. */
  function Encode(img: Image, row: DwRow): (i32, i32)
    requires Expressible(img, row)
  {
    var (reg, off) := EncodeCfa(img, row.cfa).value;
    (PackCfa(reg, off), RowFp(img, row).value)
  }

  /** The machine's rules stand for the row. */
  predicate Matches(img: Image, row: DwRow, r: Rules) {
    && EncodeCfa(img, row.cfa) == Some((r.cfaReg, r.cfaOff))
    && RowFp(img, row) == Some(r.fpOff)
  }

  lemma MatchesEncode(img: Image, row: DwRow, r: Rules)
    requires Matches(img, row, r)
    ensures Expressible(img, row) && Encode(img, row) == (PackCfa(r.cfaReg, r.cfaOff), r.fpOff)
  {
  }

  /** Instructions that leave a trace in the emitted rows. The others are read
      past, or only change the pc offset, which is never emitted. */
  predicate IsRecorded(i: Instr) {
    match i
    case Offset(reg, _) => reg == REG_FP
    case OffsetSf(reg, _) => reg == REG_FP
    case ValExpression(reg, _, _) => reg == REG_PC
    case DefCfa(_, _) => true
    case DefCfaRegister(_) => true
    case DefCfaOffset(_) => true
    case DefCfaSf(_, _) => true
    case DefCfaOffsetSf(_) => true
    case DefCfaExpression(_, _) => true
    case RememberState => true
    case RestoreState => true
    case _ => false
  }

  /** Register operands fit the word the parser reads them into. */
  predicate Fits(i: Instr) {
    match i
    case Offset(reg, _) => reg < 0x1_0000_0000
    case OffsetSf(reg, _) => reg < 0x1_0000_0000
    case ValExpression(reg, _, _) => reg < 0x1_0000_0000
    case _ => true
  }

  /** Two rows that the packed form expresses in the same way. */
  predicate SameEncoding(img: Image, a: DwRow, b: DwRow) {
    EncodeCfa(img, a.cfa) == EncodeCfa(img, b.cfa) && RowFp(img, a) == RowFp(img, b)
  }

  /** The step from `s` by `i` is one the parser gets right, when `last` is the row
      remembered last: a restore takes back a row expressed like that one; any other
      step leads to an expressible row, and one that leaves no trace does not change
      what the row is expressed by. */
  predicate StepSupported(img: Image, s: DwState, last: Option<DwRow>, i: Instr, dataAlign: i32) {
    && Fits(i)
    && DwExec(s, i, dataAlign).Some?
    && var row := DwExec(s, i, dataAlign).value.row;
    && if i.RestoreState? then last.Some? && SameEncoding(img, row, last.value)
       else Expressible(img, row) && (IsRecorded(i) || RowFp(img, row) == RowFp(img, s.row))
  }

  function LastAfter(s: DwState, last: Option<DwRow>, i: Instr): Option<DwRow> {
    if i.RememberState? then Some(s.row) else last
  }

  /** Every step of the standard's run up to `pc` is one the parser gets right. A
      no-op ends the parser's run, so what follows it must not change what the row
      is expressed by. */
  predicate Supported(
    img: Image, prog: seq<Instr>, loc: int, pc: int, s: DwState, last: Option<DwRow>, ended: bool,
    codeAlign: u32, dataAlign: i32)
    decreases |prog|
  {
    if prog == [] then true
    else
      var i, rest := prog[0], prog[1..];
      if i.AdvanceLoc? then
        var next := loc + i.delta * codeAlign;
        next > pc || Supported(img, rest, next, pc, s, last, ended, codeAlign, dataAlign)
      else if i.Nop? then Supported(img, rest, loc, pc, s, last, true, codeAlign, dataAlign)
      else
        && (if ended then KeepsEncoding(img, s, i, dataAlign) else StepSupported(img, s, last, i, dataAlign))
        && Supported(img, rest, loc, pc, DwExec(s, i, dataAlign).value, LastAfter(s, last, i), ended, codeAlign, dataAlign)
  }

  predicate KeepsEncoding(img: Image, s: DwState, i: Instr, dataAlign: i32) {
    DwExec(s, i, dataAlign).Some? && SameEncoding(img, DwExec(s, i, dataAlign).value.row, s.row)
  }

  /** The machine stands for the reference state: its rules for the row, and its
      one saved slot for the row remembered last, wherever that is on the stack. */
  predicate Refines(img: Image, s: DwState, m: Machine, last: Option<DwRow>) {
    && Matches(img, s.row, m.cur)
    && (last.Some? ==> Matches(img, last.value, m.saved))
    && (s.stack != [] ==> last.Some?)
  }

  /** One supported step keeps the refinement. */
  lemma StepRefines(img: Image, s: DwState, m: Machine, i: Instr, last: Option<DwRow>, dataAlign: i32)
    requires Refines(img, s, m, last) && StepSupported(img, s, last, i, dataAlign)
    requires !i.AdvanceLoc?
    ensures Refines(img, DwExec(s, i, dataAlign).value, Exec(img, dataAlign, m, i), LastAfter(s, last, i))
  {
    if !IsRecorded(i) {
      UnrecordedStep(img, s, m, i, last, dataAlign);
    } else if i.Offset? || i.OffsetSf? || i.ValExpression? {
      RegisterStep(img, s, m, i, last, dataAlign);
    } else if !i.RememberState? && !i.RestoreState? {
      CfaStep(img, s, m, i, last, dataAlign);
    } else {
      hide EncodeCfa, EncodeFp;
    }
  }

  /** The condition is exact: from a state that the machine stands for, its rules
      stand for the row after an instruction if and only if the step is supported. */
  lemma StepExact(img: Image, s: DwState, m: Machine, i: Instr, last: Option<DwRow>, dataAlign: i32)
    requires Refines(img, s, m, last) && Fits(i) && DwExec(s, i, dataAlign).Some? && !i.AdvanceLoc?
    ensures Matches(img, DwExec(s, i, dataAlign).value.row, Exec(img, dataAlign, m, i).cur)
      <==> StepSupported(img, s, last, i, dataAlign)
  {
    hide EncodeCfa, EncodeFp, I32, RelativePc;
    var s', m' := DwExec(s, i, dataAlign).value, Exec(img, dataAlign, m, i);
    if StepSupported(img, s, last, i, dataAlign) {
      StepRefines(img, s, m, i, last, dataAlign);
    }
    if Matches(img, s'.row, m'.cur) {
      MatchesEncode(img, s'.row, m'.cur);
      if !IsRecorded(i) {
        UnrecordedKeeps(img, s, m, i, dataAlign);
      }
    }
  }

  lemma UnrecordedKeeps(img: Image, s: DwState, m: Machine, i: Instr, dataAlign: i32)
    requires !IsRecorded(i) && Fits(i) && DwExec(s, i, dataAlign).Some? && !i.AdvanceLoc?
    ensures
      var s', m' := DwExec(s, i, dataAlign).value, Exec(img, dataAlign, m, i);
      && s'.row.cfa == s.row.cfa && s'.stack == s.stack && m'.saved == m.saved
      && m'.cur.cfaReg == m.cur.cfaReg && m'.cur.cfaOff == m.cur.cfaOff && m'.cur.fpOff == m.cur.fpOff
  {
    hide I32;
  }

  lemma UnrecordedStep(img: Image, s: DwState, m: Machine, i: Instr, last: Option<DwRow>, dataAlign: i32)
    requires Refines(img, s, m, last) && StepSupported(img, s, last, i, dataAlign)
    requires !i.AdvanceLoc? && !IsRecorded(i)
    ensures Refines(img, DwExec(s, i, dataAlign).value, Exec(img, dataAlign, m, i), LastAfter(s, last, i))
  {
    hide EncodeCfa, EncodeFp, I32;
    UnrecordedKeeps(img, s, m, i, dataAlign);
  }

  lemma CfaStep(img: Image, s: DwState, m: Machine, i: Instr, last: Option<DwRow>, dataAlign: i32)
    requires Refines(img, s, m, last) && StepSupported(img, s, last, i, dataAlign)
    requires i.DefCfa? || i.DefCfaRegister? || i.DefCfaOffset? || i.DefCfaSf? || i.DefCfaOffsetSf? || i.DefCfaExpression?
    ensures Refines(img, DwExec(s, i, dataAlign).value, Exec(img, dataAlign, m, i), LastAfter(s, last, i))
  {
    hide EncodeFp, IsPltBlock, I32, U32;
    match i
    case DefCfa(reg, off) => I32Exact(off); TruncateSmall(reg);
    case DefCfaRegister(reg) => TruncateSmall(reg);
    case DefCfaOffset(off) => I32Exact(off);
    case DefCfaSf(reg, soff) => ScaledExact(soff, dataAlign); TruncateSmall(reg);
    case DefCfaOffsetSf(soff) => ScaledExact(soff, dataAlign);
    case DefCfaExpression(_, _) =>
  }

  lemma RegisterStep(img: Image, s: DwState, m: Machine, i: Instr, last: Option<DwRow>, dataAlign: i32)
    requires Refines(img, s, m, last) && StepSupported(img, s, last, i, dataAlign)
    requires (i.Offset? || i.OffsetSf? || i.ValExpression?) && IsRecorded(i)
    ensures Refines(img, DwExec(s, i, dataAlign).value, Exec(img, dataAlign, m, i), LastAfter(s, last, i))
  {
    hide EncodeCfa, I32, RelativeBlock, RelativePc, PackPcOffset;
    match i
    case Offset(reg, n) => ScaledExact(n, dataAlign);
    case OffsetSf(reg, sn) => ScaledExact(sn, dataAlign);
    case ValExpression(reg, at, len) =>
      var k := RelativeBlock(img, at, len).value;
      BlockOffset(img, at, len);
      I32Exact(k);
  }

  lemma BlockOffset(img: Image, at: int, len: u32)
    requires RelativeBlock(img, at, len).Some?
    ensures RelativePc(img, at, at + len, 0, 0).0 == I32(RelativeBlock(img, at, len).value)
  {
    hide RelativeBlock, RelativePc;
    RelativeBlockValue(img, at, len, [], Process.Ctx(0, 0, 0));
  }

  /** A factored operand within range is scaled exactly, however it wraps. */
  lemma ScaledExact(n: int, dataAlign: i32)
    ensures I32(U32(n) * dataAlign) == I32(n * dataAlign) && I32(I32(n) * dataAlign) == I32(n * dataAlign)
    ensures -0x8000_0000 <= n * dataAlign < 0x8000_0000 ==> I32(n * dataAlign) == n * dataAlign
  {
    I32Scaled(n, dataAlign, n * dataAlign);
    if -0x8000_0000 <= n * dataAlign < 0x8000_0000 {
      I32Exact(n * dataAlign);
    }
  }

  lemma I32Scaled(n: int, d: int, v: int)
    requires v == n * d
    ensures I32(U32(n) * d) == I32(v) && I32(I32(n) * d) == I32(v)
  {
    U32Mul(n, d);
    U32Mul(I32(n), d);
    I32OfU32(n);
    hide U32, I32;
    I32Congruent(U32(n) * d, v);
    I32Congruent(I32(n) * d, v);
  }

  // ----- the emitted rows -----

  /** Every advance stays within the covered range. */
  predicate InRange(prog: seq<Instr>, loc: int, locEnd: int, codeAlign: u32)
    decreases |prog|
  {
    if prog == [] || prog[0].Nop? || prog[0].SetLoc? || prog[0].Unknown? then true
    else if prog[0].AdvanceLoc? then
      var next := loc + prog[0].delta * codeAlign;
      next <= locEnd && InRange(prog[1..], next, locEnd, codeAlign)
    else InRange(prog[1..], loc, locEnd, codeAlign)
  }

  ghost predicate Within(es: seq<FrameDesc>, start: u32, end: u32) {
    && Ascending(es)
    && forall i :: 0 <= i < |es| ==> start <= es[i].loc <= end && es[i].locEnd == end
  }

  lemma WithinCons(e: FrameDesc, es: seq<FrameDesc>, start: u32, end: u32)
    requires start <= e.loc <= end && e.locEnd == end && Within(es, e.loc, end)
    ensures Within([e] + es, start, end)
  {
    var all := [e] + es;
    forall i | 0 < i < |all| ensures all[i] == es[i - 1] {}
    assert forall i, j :: 0 <= i < j < |all| ==> all[i].loc <= all[j].loc by {
      forall i, j | 0 <= i < j < |all| ensures all[i].loc <= all[j].loc {
        assert all[j] == es[j - 1];
        if i > 0 {
          assert all[i] == es[i - 1];
        }
      }
    }
  }

  lemma {:induction false} EmissionsWithin(img: Image, prog: seq<Instr>, m: Machine, locEnd: u32, codeAlign: u32, dataAlign: i32)
    requires m.loc <= locEnd && InRange(prog, m.loc, locEnd, codeAlign)
    ensures Within(Emissions(img, prog, m, locEnd, codeAlign, dataAlign), m.loc, locEnd)
    decreases |prog|
  {
    hide Row, Exec;
    RowPosition(m, locEnd);
    if prog != [] {
      var i, rest := prog[0], prog[1..];
      assert prog == [i] + rest;
      EmissionsHead(img, i, rest, m, locEnd, codeAlign, dataAlign);
      if i.AdvanceLoc? {
        var m' := m.(loc := U32(m.loc + i.delta * codeAlign));
        AdvanceExact(m.loc, i.delta, codeAlign, locEnd);
        EmissionsWithin(img, rest, m', locEnd, codeAlign, dataAlign);
        WithinCons(Row(m, locEnd), Emissions(img, rest, m', locEnd, codeAlign, dataAlign), m.loc, locEnd);
      } else if !i.Nop? && !i.SetLoc? && !i.Unknown? {
        ExecKeepsLoc(img, dataAlign, m, i);
        EmissionsWithin(img, rest, Exec(img, dataAlign, m, i), locEnd, codeAlign, dataAlign);
      }
    }
  }

  lemma RowPosition(m: Machine, locEnd: u32)
    ensures Row(m, locEnd).loc == m.loc && Row(m, locEnd).locEnd == locEnd
  {
  }

  lemma ExecKeepsLoc(img: Image, dataAlign: i32, m: Machine, i: Instr)
    ensures Exec(img, dataAlign, m, i).loc == m.loc
  {
  }

  lemma AdvanceExact(loc: u32, delta: u32, codeAlign: u32, locEnd: u32)
    requires loc + delta * codeAlign <= locEnd
    ensures U32(loc + delta * codeAlign) == loc + delta * codeAlign >= loc
  {
    assert 0 <= delta * codeAlign;
    TruncateSmall(loc + delta * codeAlign);
  }

  lemma TruncateSmall(x: int)
    requires 0 <= x < 0x1_0000_0000
    ensures U32(x) == x
  {
  }

  lemma SupportedRuns(img: Image, s: DwState, last: Option<DwRow>, i: Instr, dataAlign: i32)
    requires StepSupported(img, s, last, i, dataAlign)
    ensures !i.SetLoc? && !i.Unknown? && DwExec(s, i, dataAlign).Some?
  {
    hide Expressible, RowFp;
  }

  // ----- whole programs: exactly when the rules stand for the row -----

  /** After every instruction of the standard's run up to `pc`, the parser's rules
      stand for the row; behind a no-op the parser no longer moves. */
  predicate StandsThroughout(
    img: Image, prog: seq<Instr>, loc: int, pc: int, s: DwState, m: Machine, ended: bool, codeAlign: u32, dataAlign: i32)
    decreases |prog|
  {
    if prog == [] then true
    else
      var i, rest := prog[0], prog[1..];
      if i.AdvanceLoc? then
        var next := loc + i.delta * codeAlign;
        next > pc || StandsThroughout(img, rest, next, pc, s, m, ended, codeAlign, dataAlign)
      else if i.Nop? then StandsThroughout(img, rest, loc, pc, s, m, true, codeAlign, dataAlign)
      else
        && DwExec(s, i, dataAlign).Some?
        && var s', m' := DwExec(s, i, dataAlign).value, if ended then m else Exec(img, dataAlign, m, i);
        && Matches(img, s'.row, m'.cur)
        && StandsThroughout(img, rest, loc, pc, s', m', ended, codeAlign, dataAlign)
  }

  predicate AllFit(prog: seq<Instr>) {
    forall k :: 0 <= k < |prog| ==> Fits(prog[k])
  }

  /** For whole programs, with any nesting of remembered states: the parser's rules
      stand for the standard's row after every instruction up to `pc` if and only if
      every step is supported; in particular at each restore the row on top of the
      stack must be expressed like the row remembered last. */
  lemma {:induction false} ProgramExact(
    img: Image, prog: seq<Instr>, loc: int, pc: int, s: DwState, m: Machine, last: Option<DwRow>,
    codeAlign: u32, dataAlign: i32)
    requires Refines(img, s, m, last) && AllFit(prog)
    ensures StandsThroughout(img, prog, loc, pc, s, m, false, codeAlign, dataAlign)
      <==> Supported(img, prog, loc, pc, s, last, false, codeAlign, dataAlign)
    decreases |prog|
  {
    hide Exec, DwExec, Matches, Fits, LastAfter, StepSupported;
    if prog != [] {
      var i, rest := prog[0], prog[1..];
      assert AllFit(rest) && Fits(i);
      if i.AdvanceLoc? {
        ProgramExact(img, rest, loc + i.delta * codeAlign, pc, s, m, last, codeAlign, dataAlign);
      } else if i.Nop? {
        EndedExact(img, rest, loc, pc, s, m, last, codeAlign, dataAlign);
      } else {
        if StepSupported(img, s, last, i, dataAlign) {
          SupportedRuns(img, s, last, i, dataAlign);
        }
        if DwExec(s, i, dataAlign).Some? {
          StepExact(img, s, m, i, last, dataAlign);
          if StepSupported(img, s, last, i, dataAlign) {
            StepRefines(img, s, m, i, last, dataAlign);
            ProgramExact(img, rest, loc, pc, DwExec(s, i, dataAlign).value, Exec(img, dataAlign, m, i),
                         LastAfter(s, last, i), codeAlign, dataAlign);
          }
        }
      }
    }
  }

  lemma {:induction false} EndedExact(
    img: Image, prog: seq<Instr>, loc: int, pc: int, s: DwState, m: Machine, last: Option<DwRow>,
    codeAlign: u32, dataAlign: i32)
    requires Matches(img, s.row, m.cur)
    ensures StandsThroughout(img, prog, loc, pc, s, m, true, codeAlign, dataAlign)
      <==> Supported(img, prog, loc, pc, s, last, true, codeAlign, dataAlign)
    decreases |prog|
  {
    hide Exec, DwExec, EncodeCfa, RowFp, LastAfter;
    if prog != [] {
      var i, rest := prog[0], prog[1..];
      if i.AdvanceLoc? {
        EndedExact(img, rest, loc + i.delta * codeAlign, pc, s, m, last, codeAlign, dataAlign);
      } else if i.Nop? {
        EndedExact(img, rest, loc, pc, s, m, last, codeAlign, dataAlign);
      } else if KeepsEncoding(img, s, i, dataAlign) {
        EndedExact(img, rest, loc, pc, DwExec(s, i, dataAlign).value, m, LastAfter(s, last, i), codeAlign, dataAlign);
      }
    }
  }
}
