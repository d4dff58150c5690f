/** The stepper against the standard: a step under a compiled record restores
    exactly the registers that the row it stands for prescribes, and every walk
    moves up the stack within fixed bounds. */
module Unwinding {
  import opened Words
  import opened Options
  import opened Leb128
  import opened FrameTable
  import opened Process
  import opened DwarfReference
  import opened RuleRefinement
  import opened CodeCaching
  import opened LibraryList
  import W = StackWalking

  /** What a record prescribes, before the stepper's plausibility checks. */
  function Unwound(f: FrameDesc, mem: Memory, c: Ctx): Option<Ctx> {
    match W.NextSp(f, c)
    case None => None
    case Some(sp') => Some(W.Restored(f, mem, c, sp'))
  }

  /** The words that a record reads at a frame: the return address and, where it
      was saved, the frame pointer. */
  function Needs(f: FrameDesc, c: Ctx): set<u64> {
    match W.NextSp(f, c)
    case None => {}
    case Some(sp') =>
      if IsPcOffset(f.fpOff) then {}
      else
        {U64(sp' - 8)}
        + if f.fpOff != SAME_FP && -MAX_FRAME_SIZE < f.fpOff < MAX_FRAME_SIZE then {U64(sp' + f.fpOff)} else {}
  }

  /** Nothing else in memory matters. */
  lemma UnwoundReadsNeeds(f: FrameDesc, mem: Memory, mem': Memory, c: Ctx)
    requires forall a :: a in Needs(f, c) ==> Load(mem, a) == Load(mem', a)
    ensures Unwound(f, mem, c) == Unwound(f, mem', c)
  {
    hide W.NextSp, CfaReg, CfaOff;
    match W.NextSp(f, c)
    case None =>
    case Some(sp') =>
      if !IsPcOffset(f.fpOff) {
        assert U64(sp' - 8) in Needs(f, c);
        LoadTruncates(mem, mem', sp' - 8);
        if f.fpOff != SAME_FP && -MAX_FRAME_SIZE < f.fpOff < MAX_FRAME_SIZE {
          assert U64(sp' + f.fpOff) in Needs(f, c);
          LoadTruncates(mem, mem', sp' + f.fpOff);
        }
      }
  }

  lemma LoadTruncates(mem: Memory, mem': Memory, x: int)
    ensures Load(mem, U64(x)) == Load(mem, x) && Load(mem', U64(x)) == Load(mem', x)
  {
  }

  /** The plausibility checks, without wrap-around: the caller's frame lies at or
      above this one, less than a frame's maximal size away, with room for the
      walk window below the end of memory; it is aligned and has a plausible pc. */
  predicate Guarded(c: Ctx, d: Ctx) {
    && c.sp <= d.sp < c.sp + 0x4_0000
    && c.sp + 0x10_0000 < 0x1_0000_0000_0000_0000
    && d.sp % 8 == 0
    && 0x1000 <= d.pc <= 0xffff_ffff_ffff_f000
  }

  lemma SpAcceptedExact(sp: u64, sp': u64)
    ensures W.SpAccepted(sp, sp')
      <==> (sp <= sp' < sp + MAX_FRAME_SIZE && sp + W.MAX_WALK_SIZE < W.WORD_LIMIT && sp' % 8 == 0)
  {
  }

  /** A step succeeds exactly when the record prescribes a plausible caller, and
      then yields it; in particular no bound it was checked against wrapped. */
  lemma StepExact(f: FrameDesc, mem: Memory, c: Ctx)
    ensures W.Step(f, mem, c).0 <==> (Unwound(f, mem, c).Some? && Guarded(c, Unwound(f, mem, c).value))
    ensures W.Step(f, mem, c).0 ==> Unwound(f, mem, c) == Some(W.Step(f, mem, c).1)
  {
    hide W.NextSp, W.SpAccepted;
    match W.NextSp(f, c)
    case None =>
    case Some(sp') => SpAcceptedExact(c.sp, sp');
  }

  /** Rows whose CFA the stepper can compute. */
  predicate CfaComputable(row: DwRow) {
    row.cfa.CfaExpression? ==> row.cfa.len == 11
  }

  /** A record that stands for a row unwinds as the row does, for every memory
      and registers; it prescribes nothing when the row's CFA is not computable. */
  lemma RecordUnwindsRow(img: Image, mem: Memory, c: Ctx, row: DwRow, f: FrameDesc)
    requires Expressible(img, row) && f.Rule() == Encode(img, row)
    ensures Unwound(f, mem, c) == if CfaComputable(row) then UnwindRow(img, mem, c, row) else None
  {
    hide PackCfa, Eval, IsPltBlock, RelativeBlock, PackPcOffset, CfaReg, CfaOff;
    var (reg, off) := EncodeCfa(img, row.cfa).value;
    assert CfaReg(f.cfa) == reg && CfaOff(f.cfa) == off by { PackCfaRoundTrip(reg, off); }
    SameSp(img, c, row.cfa, f);
    if W.NextSp(f, c).Some? {
      var sp' := W.NextSp(f, c).value;
      SameRegisters(img, mem, c, row, f, sp');
    }
  }

  lemma SameSp(img: Image, c: Ctx, cfa: CfaRule, f: FrameDesc)
    requires EncodeCfa(img, cfa) == Some((CfaReg(f.cfa) as u32, CfaOff(f.cfa)))
    ensures W.NextSp(f, c) == if cfa.CfaExpression? && cfa.len != 11 then None else CfaValue(img, c, cfa)
  {
    hide Eval, IsPltBlock, CfaReg, CfaOff;
    if cfa.CfaExpression? && cfa.len == 11 {
      PltBlockValue(img, cfa.at, c);
    }
  }

  lemma SameRegisters(img: Image, mem: Memory, c: Ctx, row: DwRow, f: FrameDesc, cfa: u64)
    requires RowFp(img, row) == Some(f.fpOff)
    ensures
      var pc := RegisterBefore(img, mem, c, cfa, row.RuleFor(16), c.pc);
      var fp := RegisterBefore(img, mem, c, cfa, row.RuleFor(6), c.fp);
      pc.Some? && fp.Some? && W.Restored(f, mem, c, cfa) == Ctx(pc.value, cfa, fp.value)
  {
    hide Eval, RelativeBlock, PackPcOffset;
    match row.RuleFor(16)
    case ValExpressionRule(at, len) =>
      RelativeBlockValue(img, at, len, [cfa], c);
      PackPcOffsetRoundTrip(RelativeBlock(img, at, len).value);
    case _ =>
  }

  // ----- whole walks -----

  /** Stack discipline of every walk: the stack pointer never moves down, stays
      aligned after the first frame, and climbs less than a maximal frame per
      step; every recorded pc after the first is plausible. */
  lemma {:induction false} WalkDiscipline(libs: seq<Lib>, mem: Memory, c: Ctx, n: nat, k: nat)
    requires k < |W.Visits(libs, mem, c, n)|
    ensures var d := W.Visits(libs, mem, c, n)[k];
      && c.sp <= d.sp
      && (k > 0 ==> d.sp - c.sp < k * MAX_FRAME_SIZE && d.sp % 8 == 0 && W.PcAccepted(d.pc))
    decreases k
  {
    W.VisitsNext(libs, mem, c, n);
    hide W.StepAt, W.Visits, W.PcAccepted, Guarded;
    if k > 0 {
      var d := W.StepAt(libs, mem, c).1;
      StepAtGuarded(libs, mem, c);
      GuardedClimbs(c, d);
      WalkDiscipline(libs, mem, d, n - 1, k - 1);
      FramesAdd(k - 1, MAX_FRAME_SIZE);
      hide MAX_FRAME_SIZE;
      assert W.Visits(libs, mem, c, n)[k] == W.Visits(libs, mem, d, n - 1)[k - 1];
    }
  }

  lemma FramesAdd(k: nat, size: nat)
    ensures (k + 1) * size == k * size + size && 0 <= k * size
  {
  }

  lemma GuardedClimbs(c: Ctx, d: Ctx)
    requires Guarded(c, d)
    ensures c.sp <= d.sp < c.sp + MAX_FRAME_SIZE && d.sp % 8 == 0 && W.PcAccepted(d.pc)
  {
  }

  lemma StepAtGuarded(libs: seq<Lib>, mem: Memory, c: Ctx)
    requires W.StepAt(libs, mem, c).0
    ensures Guarded(c, W.StepAt(libs, mem, c).1)
  {
    hide FrameAt, W.Step;
    StepExact(FrameAt(libs, c.pc), mem, c);
  }

  /** One frame calls the next: `d` is what the record at `c` prescribes, and plausible. */
  predicate Linked(libs: seq<Lib>, mem: Memory, c: Ctx, d: Ctx) {
    Unwound(FrameAt(libs, c.pc), mem, c) == Some(d) && Guarded(c, d)
  }

  predicate Chain(libs: seq<Lib>, mem: Memory, cs: seq<Ctx>) {
    forall i :: 0 <= i < |cs| - 1 ==> Linked(libs, mem, cs[i], cs[i + 1])
  }

  /** A walk of a chain visits exactly its frames, innermost first, cut at the
      depth limit; beyond the outermost frame only if that one steps too. */
  lemma {:induction false} WalkFollowsChain(libs: seq<Lib>, mem: Memory, cs: seq<Ctx>, n: nat)
    requires cs != [] && Chain(libs, mem, cs)
    ensures var vs := W.Visits(libs, mem, cs[0], n);
      && (n <= |cs| ==> vs == cs[..n])
      && (n > |cs| ==> |cs| <= |vs| && vs[..|cs|] == cs)
      && (n > |cs| && !W.StepAt(libs, mem, cs[|cs| - 1]).0 ==> vs == cs)
    decreases n
  {
    hide FrameAt, W.Step, Unwound, Guarded;
    if n == 0 {
      W.VisitsNone(libs, mem, cs[0]);
    } else {
      W.VisitsNext(libs, mem, cs[0], n);
      if |cs| > 1 {
        assert Linked(libs, mem, cs[0], cs[0 + 1]);
        StepExact(FrameAt(libs, cs[0].pc), mem, cs[0]);
        var rest := cs[1..];
        assert Chain(libs, mem, rest) by {
          forall i | 0 <= i < |rest| - 1 ensures Linked(libs, mem, rest[i], rest[i + 1]) {
            assert Linked(libs, mem, cs[i + 1], cs[i + 1 + 1]);
          }
        }
        WalkFollowsChain(libs, mem, rest, n - 1);
        ChainCut(cs, rest, n, W.Visits(libs, mem, rest[0], n - 1));
      }
    }
  }

  lemma ChainCut(cs: seq<Ctx>, rest: seq<Ctx>, n: nat, vs: seq<Ctx>)
    requires |cs| > 1 && rest == cs[1..] && n > 0
    ensures vs == rest ==> [cs[0]] + vs == cs
    ensures n <= |cs| && vs == rest[..n - 1] ==> [cs[0]] + vs == cs[..n]
    ensures |rest| <= |vs| && vs[..|rest|] == rest ==> ([cs[0]] + vs)[..|cs|] == cs
  {
    if |rest| <= |vs| && vs[..|rest|] == rest {
      assert ([cs[0]] + vs)[..|cs|] == [cs[0]] + vs[..|rest|];
    }
  }
}
