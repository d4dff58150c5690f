/** A class of programs, recognisable without running them, that are always
    compiled right; and the smallest inputs on which the parser and the standard
    part ways. */
module PlainPrograms {
  import opened Words
  import opened Options
  import opened Leb128
  import opened FrameTable
  import opened CallFrame
  import opened DwarfReference
  import opened RuleRefinement
  import opened EmittedRules

  /** An instruction of ordinary compiler output: a CFA of register and offset,
      the frame pointer saved once at an even slot, the return address below the CFA,
      and anything about other registers. */
  predicate PlainInstr(i: Instr, dataAlign: i32) {
    match i
    case AdvanceLoc(_) => true
    case DefCfa(reg, off) => reg < 128 && off < 0x80_0000
    case DefCfaRegister(reg) => reg < 128
    case DefCfaOffset(off) => off < 0x80_0000
    case DefCfaSf(reg, soff) => reg < 128 && -0x80_0000 <= soff * dataAlign < 0x80_0000
    case DefCfaOffsetSf(soff) => -0x80_0000 <= soff * dataAlign < 0x80_0000
    case Offset(reg, n) => PlainOffset(reg, n * dataAlign)
    case OffsetSf(reg, sn) => PlainOffset(reg, sn * dataAlign)
    case Restore(reg) => reg != 6
    case Undefined(reg) => reg != 6 && reg != 16
    case SameValue(reg) => reg != 6 && reg != 16
    case Register(reg, _) => reg != 6 && reg != 16
    case Expression(reg, _, _) => reg != 6 && reg != 16
    case ValOffset(reg, _) => reg != 6 && reg != 16
    case ValOffsetSf(reg, _) => reg != 6 && reg != 16
    case ValExpression(reg, _, _) => reg != 6 && reg != 16 && reg < 0x1_0000_0000
    case ArgsSize(_) => true
    case RememberState => true
    case RestoreState => true
    case _ => false
  }

  predicate PlainOffset(reg: nat, value: int) {
    && reg < 0x1_0000_0000
    && (reg == 16 ==> value == -8)
    && (reg == 6 ==> value % 2 == 0 && -MAX_FRAME_SIZE < value < MAX_FRAME_SIZE)
  }

  predicate OnlyNops(prog: seq<Instr>) {
    forall i :: 0 <= i < |prog| ==> prog[i].Nop?
  }

  /** Plain instructions, then padding; at most one state remembered at a time,
      and none restored that was not. */
  predicate Plain(prog: seq<Instr>, remembered: bool, dataAlign: i32)
    decreases |prog|
  {
    if prog == [] then true
    else if prog[0].Nop? then OnlyNops(prog[1..])
    else
      && PlainInstr(prog[0], dataAlign)
      && (prog[0].RememberState? ==> !remembered)
      && (prog[0].RestoreState? ==> remembered)
      && Plain(prog[1..], RememberedAfter(prog[0], remembered), dataAlign)
  }

  predicate RememberedAfter(i: Instr, remembered: bool) {
    i.RememberState? || (remembered && !i.RestoreState?)
  }

  predicate PlainRow(row: DwRow) {
    && row.cfa.CfaRegister? && row.cfa.reg < 128 && -0x80_0000 <= row.cfa.off < 0x80_0000
    && row.RuleFor(16) == OffsetRule(-8)
    && (row.RuleFor(6) == SameValueRule
        || (row.RuleFor(6).OffsetRule? && row.RuleFor(6).n % 2 == 0 && -MAX_FRAME_SIZE < row.RuleFor(6).n < MAX_FRAME_SIZE))
  }

  predicate PlainState(s: DwState, remembered: bool, last: Option<DwRow>) {
    && PlainRow(s.row)
    && s.initial.Some? && PlainRow(s.initial.value)
    && if remembered then last.Some? && s.stack == [last.value] && PlainRow(last.value) else s.stack == []
  }

  lemma PlainStep(img: Image, s: DwState, i: Instr, remembered: bool, last: Option<DwRow>, dataAlign: i32)
    requires PlainState(s, remembered, last) && PlainInstr(i, dataAlign) && !i.AdvanceLoc?
    requires (i.RememberState? ==> !remembered) && (i.RestoreState? ==> remembered)
    ensures StepSupported(img, s, last, i, dataAlign) && DwExec(s, i, dataAlign).Some?
    ensures PlainState(DwExec(s, i, dataAlign).value, RememberedAfter(i, remembered), LastAfter(s, last, i))
  {
    hide IsPltBlock, RelativeBlock;
    var s' := DwExec(s, i, dataAlign).value;
    PlainStepState(s, i, remembered, last, dataAlign);
    PlainExpressible(img, s'.row);
    if !IsRecorded(i) {
      assert s'.row.RuleFor(6) == s.row.RuleFor(6) && s'.row.RuleFor(16) == s.row.RuleFor(16);
    }
  }

  lemma PlainStepState(s: DwState, i: Instr, remembered: bool, last: Option<DwRow>, dataAlign: i32)
    requires PlainState(s, remembered, last) && PlainInstr(i, dataAlign) && !i.AdvanceLoc?
    requires (i.RememberState? ==> !remembered) && (i.RestoreState? ==> remembered)
    ensures DwExec(s, i, dataAlign).Some?
    ensures PlainState(DwExec(s, i, dataAlign).value, RememberedAfter(i, remembered), LastAfter(s, last, i))
  {
  }

  lemma PlainExpressible(img: Image, row: DwRow)
    requires PlainRow(row)
    ensures Expressible(img, row)
  {
    hide IsPltBlock, RelativeBlock;
  }

  /** Every plain program is one the parser gets right, at every location. */
  lemma {:induction false} PlainSupported(
    img: Image, prog: seq<Instr>, loc: int, pc: int, s: DwState, remembered: bool, last: Option<DwRow>,
    codeAlign: u32, dataAlign: i32)
    requires Plain(prog, remembered, dataAlign) && PlainState(s, remembered, last)
    ensures Supported(img, prog, loc, pc, s, last, false, codeAlign, dataAlign)
    decreases |prog|
  {
    hide PlainInstr, PlainState, StepSupported, DwExec, LastAfter;
    if prog != [] {
      var i, rest := prog[0], prog[1..];
      if i.Nop? {
        NopsSupported(img, rest, loc, pc, s, last, codeAlign, dataAlign);
      } else if i.AdvanceLoc? {
        PlainSupported(img, rest, loc + i.delta * codeAlign, pc, s, remembered, last, codeAlign, dataAlign);
      } else {
        PlainStep(img, s, i, remembered, last, dataAlign);
        PlainSupported(img, rest, loc, pc, DwExec(s, i, dataAlign).value, RememberedAfter(i, remembered),
                       LastAfter(s, last, i), codeAlign, dataAlign);
      }
    }
  }

  lemma {:induction false} NopsSupported(
    img: Image, prog: seq<Instr>, loc: int, pc: int, s: DwState, last: Option<DwRow>, codeAlign: u32, dataAlign: i32)
    requires OnlyNops(prog)
    ensures Supported(img, prog, loc, pc, s, last, true, codeAlign, dataAlign)
    decreases |prog|
  {
    if prog != [] {
      NopsSupported(img, prog[1..], loc, pc, s, last, codeAlign, dataAlign);
    }
  }

  // ----- exactly where the parser and the standard part -----

  /** An instruction that the parser reads past is harmless exactly when it leaves
      alone what the row says about the frame pointer and the return address. */
  lemma UnrecordedExact(img: Image, s: DwState, m: Machine, i: Instr, dataAlign: i32)
    requires Matches(img, s.row, m.cur) && !IsRecorded(i) && Fits(i) && DwExec(s, i, dataAlign).Some?
    ensures
      var row := DwExec(s, i, dataAlign).value.row;
      Matches(img, row, Exec(img, dataAlign, m, i).cur) <==> RowFp(img, row) == RowFp(img, s.row)
  {
    hide EncodeCfa, EncodeFp, I32;
    var m' := Exec(img, dataAlign, m, i);
    assert DwExec(s, i, dataAlign).value.row.cfa == s.row.cfa;
    assert m'.cur.cfaReg == m.cur.cfaReg && m'.cur.cfaOff == m.cur.cfaOff && m'.cur.fpOff == m.cur.fpOff;
  }

  /** Restoring the saved frame pointer's rule is read past: the parser keeps the
      save slot where the standard says that the caller's value is back. */
  lemma RestoreIgnored(img: Image, m: Machine, s: DwState)
    requires m.cur == INITIAL_RULES && s == AT_START
    ensures
      var m' := Exec(img, -8, Exec(img, -8, m, Offset(6, 2)), Restore(6));
      var s' := DwExec(DwExec(s, Offset(6, 2), -8).value, Restore(6), -8).value;
      m'.cur.fpOff == -16 && RowFp(img, s'.row) == Some(SAME_FP)
  {
  }

  /** One slot is not a stack: after remembering twice, the second restore takes
      back the wrong state. */
  lemma NestedRememberLost(img: Image, m: Machine, s: DwState)
    requires m.cur == INITIAL_RULES && s == AT_START
    ensures
      var m1 := Exec(img, -8, Exec(img, -8, m, RememberState), DefCfaOffset(16));
      var m2 := Exec(img, -8, Exec(img, -8, Exec(img, -8, m1, RememberState), RestoreState), RestoreState);
      var s1 := DwExec(DwExec(s, RememberState, -8).value, DefCfaOffset(16), -8).value;
      var s2 := DwExec(DwExec(s1, RememberState, -8).value, RestoreState, -8).value;
      && m2.cur.cfaOff == 16
      && DwExec(s2, RestoreState, -8).Some?
      && DwExec(s2, RestoreState, -8).value.row.cfa == CfaRegister(7, 8)
  {
  }

  /** But the same row remembered twice is restored right both times. */
  lemma SameRowRememberedTwice(img: Image, loc: int, pc: int, codeAlign: u32, dataAlign: i32)
    ensures Supported(img, [RememberState, RememberState, RestoreState, RestoreState], loc, pc,
                      AT_START, None, false, codeAlign, dataAlign)
  {
    hide EncodeCfa, EncodeFp;
    InitialExpressible(img);
    var s1 := AT_START.(stack := [INITIAL_ROW]);
    var s2 := AT_START.(stack := [INITIAL_ROW, INITIAL_ROW]);
    assert s2.stack[..1] == s1.stack && s1.stack[..0] == [];
    var p3: seq<Instr> := [RestoreState];
    var p2 := [RestoreState] + p3;
    var p1 := [RememberState] + p2;
    var p0 := [RememberState] + p1;
    assert p0 == [RememberState, RememberState, RestoreState, RestoreState];
    assert p3[1..] == [] && p2[1..] == p3 && p1[1..] == p2 && p0[1..] == p1;
    assert Supported(img, p3, loc, pc, s1, Some(INITIAL_ROW), false, codeAlign, dataAlign);
    assert Supported(img, p2, loc, pc, s2, Some(INITIAL_ROW), false, codeAlign, dataAlign);
    assert Supported(img, p1, loc, pc, s1, Some(INITIAL_ROW), false, codeAlign, dataAlign);
  }

  /** An epilogue inside a function: the frame pointer's rule is restored, and then the
      state from before that. */
  const EPILOGUE: seq<Instr> := [Offset(6, 2), RememberState, Restore(6), AdvanceLoc(1), RestoreState]

  const FP_SAVED := INITIAL_ROW.With(6, OffsetRule(-16))
  const IN_EPILOGUE := DwState(FP_SAVED, [FP_SAVED], Some(INITIAL_ROW))

  /** An error may pass: the parser reads past the restored rule, but behind the restored
      state its rules are right again, though not every step was supported. */
  lemma EpilogueRecovers(img: Image)
    ensures RowAt(EPILOGUE, 100, 101, AT_START, 1, -8) == Some(FP_SAVED) && Expressible(img, FP_SAVED)
    ensures HeldAt(img, EPILOGUE, 100, 101, ENTRY_HELD, UNKNOWN, 1, -8) == Asked(img, FP_SAVED)
    ensures !Supported(img, EPILOGUE, 100, 101, AT_START, None, false, 1, -8)
  {
    EpilogueRow();
    EpilogueHeld(img);
    EpilogueUnsupported(img);
    hide EPILOGUE;
    FpSavedAsks(img);
  }

  lemma FpSavedAsks(img: Image)
    ensures Asked(img, FP_SAVED) == Held(Some((7, 8)), Some(-16)) && Expressible(img, FP_SAVED)
  {
    assert FP_SAVED.RuleFor(6) == OffsetRule(-16) && FP_SAVED.RuleFor(16) == OffsetRule(-8);
  }

  lemma EpilogueParts(p4: seq<Instr>, p2: seq<Instr>)
    requires p4 == [RestoreState] && p2 == [Restore(6), AdvanceLoc(1), RestoreState]
    ensures EPILOGUE[1..][1..] == p2 && p2[1..][1..] == p4 && p4[1..] == []
    ensures p2[1..] == [AdvanceLoc(1), RestoreState] && EPILOGUE[1..] == [RememberState] + p2
  {
  }

  lemma EpilogueRow()
    ensures RowAt(EPILOGUE, 100, 101, AT_START, 1, -8) == Some(FP_SAVED)
  {
    var p4: seq<Instr>, p2: seq<Instr> := [RestoreState], [Restore(6), AdvanceLoc(1), RestoreState];
    EpilogueParts(p4, p2);
    var s := DwExec(IN_EPILOGUE, Restore(6), -8).value;
    assert DwExec(s, RestoreState, -8) == Some(IN_EPILOGUE.(stack := []));
    assert RowAt(p4, 101, 101, s, 1, -8) == Some(FP_SAVED);
    assert RowAt(p2, 100, 101, IN_EPILOGUE, 1, -8) == Some(FP_SAVED);
  }

  lemma EpilogueHeld(img: Image)
    ensures HeldAt(img, EPILOGUE, 100, 101, ENTRY_HELD, UNKNOWN, 1, -8) == Held(Some((7, 8)), Some(-16))
  {
    var p4: seq<Instr>, p2: seq<Instr> := [RestoreState], [Restore(6), AdvanceLoc(1), RestoreState];
    EpilogueParts(p4, p2);
    hide IsPltBlock, RelativeBlock;
    var h := Held(Some((7, 8)), Some(-16));
    assert HeldAt(img, p4, 101, 101, h, h, 1, -8) == h;
    assert HeldAt(img, p2, 100, 101, h, h, 1, -8) == h;
  }

  lemma EpilogueUnsupported(img: Image)
    ensures !Supported(img, EPILOGUE, 100, 101, AT_START, None, false, 1, -8)
  {
    var p4: seq<Instr>, p2: seq<Instr> := [RestoreState], [Restore(6), AdvanceLoc(1), RestoreState];
    EpilogueParts(p4, p2);
    FpSavedAsks(img);
    var row := DwExec(IN_EPILOGUE, Restore(6), -8).value.row;
    assert row.RuleFor(6) == SameValueRule && row.RuleFor(16) == OffsetRule(-8);
    assert !StepSupported(img, IN_EPILOGUE, Some(FP_SAVED), Restore(6), -8);
    hide StepSupported;
    assert !Supported(img, p2, 100, 101, IN_EPILOGUE, Some(FP_SAVED), false, 1, -8);
  }

  lemma InitialExpressible(img: Image)
    ensures Expressible(img, INITIAL_ROW)
  {
    assert INITIAL_ROW.RuleFor(6) == SameValueRule;
    assert INITIAL_ROW.RuleFor(16) == OffsetRule(-8);
  }
}
