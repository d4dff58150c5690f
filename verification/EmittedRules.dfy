/** The row that a program emits for a location, in terms of what its instructions
    have told the parser so far; and exactly when that is the standard's row. */
module EmittedRules {
  import opened Words
  import opened Options
  import opened Leb128
  import opened FrameTable
  import opened CallFrame
  import opened DwarfReference
  import opened RuleRefinement

  /** What the packed form has been told: the CFA, and the field for the frame pointer
      and the return address. A part is unknown while the last instruction for it asks
      for something that the packed form cannot express. */
  datatype Held = Held(cfa: Option<(u32, i32)>, fp: Option<i32>) {
    predicate Known() { cfa.Some? && fp.Some? }
  }

  const UNKNOWN := Held(None, None)
  const ENTRY_HELD := Held(Some((REG_SP, STACK_SLOT)), Some(SAME_FP))

  /** What a row of the standard asks for. */
  function Asked(img: Image, row: DwRow): Held { Held(EncodeCfa(img, row.cfa), RowFp(img, row)) }

  /** One instruction, in exact arithmetic. Those that the parser reads past tell it
      nothing, whatever they mean. */
  function HeldNext(img: Image, h: Held, i: Instr, dataAlign: int): Held {
    match i
    case DefCfa(reg, off) => h.(cfa := EncodeCfa(img, CfaRegister(reg, off)))
    case DefCfaSf(reg, soff) => h.(cfa := EncodeCfa(img, CfaRegister(reg, soff * dataAlign)))
    case DefCfaRegister(reg) =>
      if h.cfa.Some? then h.(cfa := EncodeCfa(img, CfaRegister(reg, h.cfa.value.1))) else h
    case DefCfaOffset(off) =>
      if h.cfa.Some? then h.(cfa := EncodeCfa(img, CfaRegister(h.cfa.value.0, off))) else h
    case DefCfaOffsetSf(soff) =>
      if h.cfa.Some? then h.(cfa := EncodeCfa(img, CfaRegister(h.cfa.value.0, soff * dataAlign))) else h
    case DefCfaExpression(at, len) => h.(cfa := EncodeCfa(img, CfaExpression(at, len)))
    case Offset(reg, n) => if U32(reg) == REG_FP then h.(fp := SavedAt(img, reg, n * dataAlign)) else h
    case OffsetSf(reg, sn) => if U32(reg) == REG_FP then h.(fp := SavedAt(img, reg, sn * dataAlign)) else h
    case ValExpression(reg, at, len) => if U32(reg) == REG_PC then h.(fp := ComputedBy(img, reg, at, len)) else h
    case _ => h
  }

  /** The frame pointer saved at an offset, the return address below the CFA. */
  function SavedAt(img: Image, reg: nat, off: int): Option<i32> {
    if reg == REG_FP then EncodeFp(img, OffsetRule(-STACK_SLOT), OffsetRule(off)) else None
  }

  /** The return address computed by a block, the frame pointer kept. */
  function ComputedBy(img: Image, reg: nat, at: int, len: u32): Option<i32> {
    if reg == REG_PC then EncodeFp(img, ValExpressionRule(at, len), SameValueRule) else None
  }

  /** Whether the parser gives the program up before it would emit another row. */
  predicate Abandoned(prog: seq<Instr>) {
    if prog == [] then false
    else
      match prog[0]
      case AdvanceLoc(_) => false
      case Nop => false
      case SetLoc => false
      case Unknown(_) => true
      case _ => Abandoned(prog[1..])
  }

  /** What is held at `pc`, where `kept` is what was held when a state was remembered
      last. A no-op and a set-location freeze it. Behind the last advance before an
      unknown instruction it is what was held at that advance; without one, there is none. */
  function HeldAt(img: Image, prog: seq<Instr>, loc: int, pc: int, now: Held, kept: Held, codeAlign: nat, dataAlign: int): Held
    decreases |prog|
  {
    if prog == [] then now
    else
      var i, rest := prog[0], prog[1..];
      match i
      case AdvanceLoc(delta) =>
        var next := loc + delta * codeAlign;
        if next > pc || Abandoned(rest) then now else HeldAt(img, rest, next, pc, now, kept, codeAlign, dataAlign)
      case Nop => now
      case SetLoc => now
      case Unknown(_) => UNKNOWN
      case RememberState => HeldAt(img, rest, loc, pc, now, now, codeAlign, dataAlign)
      case RestoreState => HeldAt(img, rest, loc, pc, kept, kept, codeAlign, dataAlign)
      case _ => HeldAt(img, rest, loc, pc, HeldNext(img, now, i, dataAlign), kept, codeAlign, dataAlign)
  }

  /** The parser's rules are what is held, as far as that is known. */
  predicate Carried(h: Held, r: Rules) {
    && (h.cfa.Some? ==> h.cfa.value == (r.cfaReg, r.cfaOff) && r.cfaReg < 256 && -0x80_0000 <= r.cfaOff < 0x80_0000)
    && (h.fp.Some? ==> h.fp.value == r.fpOff)
  }

  // ----- the parser's machine keeps it -----

  /** An instruction that neither moves, ends, remembers nor restores. */
  predicate IsRule(i: Instr) {
    !i.AdvanceLoc? && !i.Nop? && !i.SetLoc? && !i.Unknown? && !i.RememberState? && !i.RestoreState?
  }

  lemma RuleHolds(img: Image, h: Held, m: Machine, i: Instr, dataAlign: i32)
    requires Carried(h, m.cur) && IsRule(i)
    ensures var m' := Exec(img, dataAlign, m, i);
      Carried(HeldNext(img, h, i, dataAlign), m'.cur) && m'.saved == m.saved
  {
    if i.Offset? || i.OffsetSf? {
      SlotHolds(img, h, m, i, dataAlign);
    } else if i.ValExpression? {
      BlockHolds(img, h, m, i, dataAlign);
    } else {
      CfaHolds(img, h, m, i, dataAlign);
    }
  }

  lemma CfaHolds(img: Image, h: Held, m: Machine, i: Instr, dataAlign: i32)
    requires Carried(h, m.cur) && IsRule(i) && !i.Offset? && !i.OffsetSf? && !i.ValExpression?
    ensures var m' := Exec(img, dataAlign, m, i);
      Carried(HeldNext(img, h, i, dataAlign), m'.cur) && m'.saved == m.saved
  {
    hide EncodeFp, IsPltBlock, I32, U32;
    match i
    case DefCfa(reg, off) => TruncatesExactly(reg, off);
    case DefCfaRegister(reg) => TruncatesExactly(reg, 0);
    case DefCfaOffset(off) => TruncatesExactly(0, off);
    case DefCfaSf(reg, soff) => ScaledExact(soff, dataAlign); TruncatesExactly(reg, soff * dataAlign);
    case DefCfaOffsetSf(soff) => ScaledExact(soff, dataAlign); TruncatesExactly(0, soff * dataAlign);
    case _ =>
  }

  lemma TruncatesExactly(reg: nat, off: int)
    ensures reg < 128 ==> U32(reg) == reg
    ensures -0x80_0000 <= off < 0x80_0000 ==> I32(off) == off
  {
  }

  lemma SlotHolds(img: Image, h: Held, m: Machine, i: Instr, dataAlign: i32)
    requires Carried(h, m.cur) && (i.Offset? || i.OffsetSf?)
    ensures var m' := Exec(img, dataAlign, m, i);
      Carried(HeldNext(img, h, i, dataAlign), m'.cur) && m'.saved == m.saved
  {
    hide EncodeCfa, I32, RelativeBlock, PackPcOffset;
    if i.Offset? {
      ScaledExact(i.n, dataAlign);
    } else {
      ScaledExact(i.sn, dataAlign);
    }
  }

  lemma BlockHolds(img: Image, h: Held, m: Machine, i: Instr, dataAlign: i32)
    requires Carried(h, m.cur) && i.ValExpression?
    ensures var m' := Exec(img, dataAlign, m, i);
      Carried(HeldNext(img, h, i, dataAlign), m'.cur) && m'.saved == m.saved
  {
    hide EncodeCfa, I32, RelativeBlock, RelativePc, PackPcOffset;
    if RelativeBlock(img, i.at, i.len).Some? {
      var k := RelativeBlock(img, i.at, i.len).value;
      BlockOffset(img, i.at, i.len);
      if -0x8000_0000 <= k < 0x8000_0000 {
        I32Exact(k);
      }
    }
  }

  /** The row emitted for `pc` says what is held there. */
  lemma {:induction false} ProgramEmits(
    img: Image, prog: seq<Instr>, m: Machine, locEnd: u32, codeAlign: u32, dataAlign: i32, now: Held, kept: Held, pc: u32)
    requires m.loc <= locEnd && m.loc <= pc && InRange(prog, m.loc, locEnd, codeAlign)
    requires Carried(now, m.cur) && Carried(kept, m.saved)
    ensures
      var h := HeldAt(img, prog, m.loc, pc, now, kept, codeAlign, dataAlign);
      var e := Governing(Emissions(img, prog, m, locEnd, codeAlign, dataAlign), pc);
      h.Known() ==> e.Some? && Says(e.value, h)
    decreases |prog|
  {
    hide Exec, Emissions, Governing, Says, Carried, HeldNext, IsRule;
    RowSays(now, m, locEnd, pc);
    EmissionsNone(img, m, locEnd, codeAlign, dataAlign);
    if prog != [] {
      var i, rest := prog[0], prog[1..];
      assert prog == [i] + rest;
      EmissionsHead(img, i, rest, m, locEnd, codeAlign, dataAlign);
      ExecKeepsLoc(img, dataAlign, m, i);
      if i.AdvanceLoc? {
        var m' := m.(loc := U32(m.loc + i.delta * codeAlign));
        AdvanceExact(m.loc, i.delta, codeAlign, locEnd);
        var later := Emissions(img, rest, m', locEnd, codeAlign, dataAlign);
        GoverningConcat([Row(m, locEnd)], later, pc);
        if Abandoned(rest) {
          AbandonedEmits(img, rest, m', locEnd, codeAlign, dataAlign);
          GoverningBeyond(later, pc);
        } else if m'.loc <= pc {
          ProgramEmits(img, rest, m', locEnd, codeAlign, dataAlign, now, kept, pc);
        } else {
          EmissionsWithin(img, rest, m', locEnd, codeAlign, dataAlign);
          GoverningBeyond(later, pc);
        }
      } else if i.RememberState? || i.RestoreState? {
        SlotExec(img, dataAlign, m, i);
        ProgramEmits(img, rest, Exec(img, dataAlign, m, i), locEnd, codeAlign, dataAlign,
                     if i.RestoreState? then kept else now, if i.RememberState? then now else kept, pc);
      } else if !i.Nop? && !i.SetLoc? && !i.Unknown? {
        IsRuleWhen(i);
        RuleHolds(img, now, m, i, dataAlign);
        ProgramEmits(img, rest, Exec(img, dataAlign, m, i), locEnd, codeAlign, dataAlign,
                     HeldNext(img, now, i, dataAlign), kept, pc);
      }
    }
  }

  lemma {:induction false} AbandonedEmits(img: Image, prog: seq<Instr>, m: Machine, locEnd: u32, codeAlign: u32, dataAlign: i32)
    requires Abandoned(prog)
    ensures Emissions(img, prog, m, locEnd, codeAlign, dataAlign) == []
    decreases |prog|
  {
    hide Exec;
    if !prog[0].Unknown? {
      AbandonedEmits(img, prog[1..], Exec(img, dataAlign, m, prog[0]), locEnd, codeAlign, dataAlign);
    }
  }

  lemma {:induction false} SupportedGoesOn(
    img: Image, prog: seq<Instr>, loc: int, pc: int, s: DwState, last: Option<DwRow>, codeAlign: u32, dataAlign: i32)
    requires Supported(img, prog, loc, pc, s, last, false, codeAlign, dataAlign)
    ensures !Abandoned(prog)
    decreases |prog|
  {
    hide DwExec, StepSupported, LastAfter;
    if prog != [] && !prog[0].AdvanceLoc? && !prog[0].Nop? {
      SupportedRuns(img, s, last, prog[0], dataAlign);
      SupportedGoesOn(img, prog[1..], loc, pc, DwExec(s, prog[0], dataAlign).value, LastAfter(s, last, prog[0]),
                      codeAlign, dataAlign);
    }
  }

  lemma IsRuleWhen(i: Instr)
    requires !i.AdvanceLoc? && !i.Nop? && !i.SetLoc? && !i.Unknown? && !i.RememberState? && !i.RestoreState?
    ensures IsRule(i)
  {
  }

  lemma SlotExec(img: Image, dataAlign: i32, m: Machine, i: Instr)
    requires i.RememberState? || i.RestoreState?
    ensures Exec(img, dataAlign, m, i) == if i.RememberState? then m.(saved := m.cur) else m.(cur := m.saved)
  {
  }

  lemma EmissionsNone(img: Image, m: Machine, locEnd: u32, codeAlign: u32, dataAlign: i32)
    ensures Emissions(img, [], m, locEnd, codeAlign, dataAlign) == [Row(m, locEnd)]
  {
  }

  /** A record that says what is held. */
  predicate Says(f: FrameDesc, h: Held)
    requires h.Known()
  {
    f.Rule() == (PackCfa(h.cfa.value.0, h.cfa.value.1), h.fp.value)
  }

  lemma RowSays(h: Held, m: Machine, locEnd: u32, pc: u32)
    requires Carried(h, m.cur) && m.loc <= pc
    ensures Governing([Row(m, locEnd)], pc) == Some(Row(m, locEnd))
    ensures h.Known() ==> Says(Row(m, locEnd), h)
  {
    hide PackCfa;
  }

  // ----- exactly when it is the standard's row -----

  /** What is held fits the packed form. */
  predicate Fit(h: Held) {
    h.cfa.Some? ==> h.cfa.value.0 < 256 && -0x80_0000 <= h.cfa.value.1 < 0x80_0000
  }

  lemma {:induction false} HeldFits(
    img: Image, prog: seq<Instr>, loc: int, pc: int, now: Held, kept: Held, codeAlign: nat, dataAlign: int)
    requires Fit(now) && Fit(kept)
    ensures Fit(HeldAt(img, prog, loc, pc, now, kept, codeAlign, dataAlign))
    decreases |prog|
  {
    hide HeldNext, Fit;
    if prog != [] {
      var i, rest := prog[0], prog[1..];
      UnknownFits();
      NextFits(img, now, i, dataAlign);
      match i
      case AdvanceLoc(delta) => HeldFits(img, rest, loc + delta * codeAlign, pc, now, kept, codeAlign, dataAlign);
      case Nop =>
      case SetLoc =>
      case Unknown(_) =>
      case RememberState => HeldFits(img, rest, loc, pc, now, now, codeAlign, dataAlign);
      case RestoreState => HeldFits(img, rest, loc, pc, kept, kept, codeAlign, dataAlign);
      case _ => HeldFits(img, rest, loc, pc, HeldNext(img, now, i, dataAlign), kept, codeAlign, dataAlign);
    }
  }

  lemma UnknownFits()
    ensures Fit(UNKNOWN)
  {
  }

  lemma NextFits(img: Image, h: Held, i: Instr, dataAlign: int)
    requires Fit(h)
    ensures Fit(HeldNext(img, h, i, dataAlign))
  {
    hide EncodeFp, IsPltBlock;
  }

  /** Packing loses nothing: a record that says what is held is a row's encoding if
      and only if that row asks for the same. */
  lemma SaysExact(img: Image, f: FrameDesc, h: Held, row: DwRow)
    requires h.Known() && Fit(h) && Says(f, h)
    ensures (Expressible(img, row) && f.Rule() == Encode(img, row)) <==> h == Asked(img, row)
  {
    hide PackCfa, EncodeFp, IsPltBlock;
    PackCfaRoundTrip(h.cfa.value.0, h.cfa.value.1);
    if Expressible(img, row) {
      var c := EncodeCfa(img, row.cfa).value;
      PackCfaRoundTrip(c.0, c.1);
    }
  }

  /** Compilation of one program, exactly: wherever what is held is known, whatever
      went wrong before, the emitted row says that, and it is the encoding of a row if
      and only if that row asks for what is held. */
  lemma ProgramRefines(
    img: Image, prog: seq<Instr>, m: Machine, locEnd: u32, codeAlign: u32, dataAlign: i32, now: Held, kept: Held, pc: u32,
    row: DwRow)
    requires m.loc <= locEnd && m.loc <= pc && InRange(prog, m.loc, locEnd, codeAlign)
    requires Carried(now, m.cur) && Carried(kept, m.saved)
    requires HeldAt(img, prog, m.loc, pc, now, kept, codeAlign, dataAlign).Known()
    ensures
      var e := Governing(Emissions(img, prog, m, locEnd, codeAlign, dataAlign), pc);
      && e.Some? && Says(e.value, HeldAt(img, prog, m.loc, pc, now, kept, codeAlign, dataAlign))
      && (Expressible(img, row) && e.value.Rule() == Encode(img, row)
          <==> HeldAt(img, prog, m.loc, pc, now, kept, codeAlign, dataAlign) == Asked(img, row))
  {
    HeldFits(img, prog, m.loc, pc, now, kept, codeAlign, dataAlign);
    hide HeldAt, Emissions, Governing, Says, Fit, Asked, Expressible, Encode, InRange, Carried;
    ProgramEmits(img, prog, m, locEnd, codeAlign, dataAlign, now, kept, pc);
    var e := Governing(Emissions(img, prog, m, locEnd, codeAlign, dataAlign), pc);
    SaysExact(img, e.value, HeldAt(img, prog, m.loc, pc, now, kept, codeAlign, dataAlign), row);
  }

  // ----- supported programs -----

  lemma StepAsks(img: Image, s: DwState, last: Option<DwRow>, i: Instr, dataAlign: i32)
    requires Expressible(img, s.row) && StepSupported(img, s, last, i, dataAlign) && IsRule(i)
    ensures HeldNext(img, Asked(img, s.row), i, dataAlign) == Asked(img, DwExec(s, i, dataAlign).value.row)
    ensures Expressible(img, DwExec(s, i, dataAlign).value.row)
  {
    hide IsPltBlock, RelativeBlock, PackPcOffset;
  }

  /** Where every step is supported, what is held is what the standard's row asks for. */
  lemma {:induction false} SupportedHeld(
    img: Image, prog: seq<Instr>, loc: int, pc: int, s: DwState, kept: Held, last: Option<DwRow>,
    codeAlign: u32, dataAlign: i32)
    requires Expressible(img, s.row) && (last.Some? ==> Expressible(img, last.value) && kept == Asked(img, last.value))
    requires Supported(img, prog, loc, pc, s, last, false, codeAlign, dataAlign)
    ensures
      var row := RowAt(prog, loc, pc, s, codeAlign, dataAlign);
      && row.Some? && Expressible(img, row.value)
      && HeldAt(img, prog, loc, pc, Asked(img, s.row), kept, codeAlign, dataAlign) == Asked(img, row.value)
    decreases |prog|
  {
    hide DwExec, StepSupported, Expressible, HeldNext, Asked, IsRule;
    if prog != [] {
      var i, rest := prog[0], prog[1..];
      if i.AdvanceLoc? {
        var next := loc + i.delta * codeAlign;
        if next <= pc {
          SupportedGoesOn(img, rest, next, pc, s, last, codeAlign, dataAlign);
          SupportedHeld(img, rest, next, pc, s, kept, last, codeAlign, dataAlign);
        }
      } else if i.Nop? {
        NopEnds(prog, loc, pc, s, codeAlign, dataAlign);
        EndedAsks(img, rest, loc, pc, s, last, codeAlign, dataAlign);
      } else {
        SupportedRuns(img, s, last, i, dataAlign);
        var s' := DwExec(s, i, dataAlign).value;
        if i.RememberState? || i.RestoreState? {
          SlotAsks(img, s, last, i, dataAlign);
          SupportedHeld(img, rest, loc, pc, s', if i.RememberState? then Asked(img, s.row) else kept,
                        LastAfter(s, last, i), codeAlign, dataAlign);
        } else {
          IsRuleWhen(i);
          StepAsks(img, s, last, i, dataAlign);
          SupportedHeld(img, rest, loc, pc, s', kept, LastAfter(s, last, i), codeAlign, dataAlign);
        }
      }
    }
  }

  lemma SlotAsks(img: Image, s: DwState, last: Option<DwRow>, i: Instr, dataAlign: i32)
    requires Expressible(img, s.row) && (last.Some? ==> Expressible(img, last.value))
    requires StepSupported(img, s, last, i, dataAlign) && (i.RememberState? || i.RestoreState?)
    ensures var row := DwExec(s, i, dataAlign).value.row;
      Expressible(img, row) && if i.RememberState? then row == s.row else last.Some? && Asked(img, row) == Asked(img, last.value)
  {
    hide EncodeCfa, EncodeFp;
  }

  lemma NopEnds(prog: seq<Instr>, loc: int, pc: int, s: DwState, codeAlign: u32, dataAlign: i32)
    requires prog != [] && prog[0].Nop?
    ensures RowAt(prog, loc, pc, s, codeAlign, dataAlign) == RowAt(prog[1..], loc, pc, s, codeAlign, dataAlign)
  {
  }

  /** Behind a no-op the row still asks for the same. */
  lemma {:induction false} EndedAsks(
    img: Image, prog: seq<Instr>, loc: int, pc: int, s: DwState, last: Option<DwRow>, codeAlign: u32, dataAlign: i32)
    requires Expressible(img, s.row) && Supported(img, prog, loc, pc, s, last, true, codeAlign, dataAlign)
    ensures
      var row := RowAt(prog, loc, pc, s, codeAlign, dataAlign);
      row.Some? && Expressible(img, row.value) && Asked(img, row.value) == Asked(img, s.row)
    decreases |prog|
  {
    hide DwExec, EncodeCfa, RowFp, LastAfter;
    if prog != [] {
      var i, rest := prog[0], prog[1..];
      if i.AdvanceLoc? {
        var next := loc + i.delta * codeAlign;
        if next <= pc {
          EndedAsks(img, rest, next, pc, s, last, codeAlign, dataAlign);
        }
      } else if i.Nop? {
        NopEnds(prog, loc, pc, s, codeAlign, dataAlign);
        EndedAsks(img, rest, loc, pc, s, last, codeAlign, dataAlign);
      } else {
        EndedAsks(img, rest, loc, pc, DwExec(s, i, dataAlign).value, LastAfter(s, last, i), codeAlign, dataAlign);
      }
    }
  }
}
