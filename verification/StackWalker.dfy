/** Stepping from one frame to its caller, and walking a stack. */
module StackWalking {
  import opened Words
  import opened Options
  import opened FrameTable
  import opened Process
  import opened CodeCaching
  import opened LibraryList

  const MIN_VALID_PC := 0x1000
  const MAX_WALK_SIZE := 0x10_0000
  const WORD_LIMIT := 0x1_0000_0000_0000_0000

  /** The stack pointer that a record computes, if it names a supported register. */
  function NextSp(f: FrameDesc, c: Ctx): Option<u64> {
    var reg, off := CfaReg(f.cfa), CfaOff(f.cfa);
    if reg == REG_SP then Some(U64(c.sp + off))
    else if reg == REG_FP then Some(U64(c.fp + off))
    else if reg == REG_PLT then Some(U64(c.sp + if c.pc % 16 >= 11 then off * 2 else off))
    else None
  }

  /** The checks on the computed stack pointer, in wrapping arithmetic. */
  predicate SpAccepted(sp: u64, sp': u64) {
    && sp <= sp'
    && sp' < U64(sp + MAX_FRAME_SIZE)
    && sp' < U64(sp + MAX_WALK_SIZE)
    && sp' % 8 == 0
  }

  predicate PcAccepted(pc: u64) {
    MIN_VALID_PC <= pc <= WORD_LIMIT - MIN_VALID_PC
  }

  /** The registers once the stack pointer is accepted. */
  function Restored(f: FrameDesc, mem: Memory, c: Ctx, sp': u64): Ctx {
    if IsPcOffset(f.fpOff) then Ctx(U64(c.pc + PcOffset(f.fpOff)), sp', c.fp)
    else
      var fp :=
        if f.fpOff != SAME_FP && -MAX_FRAME_SIZE < f.fpOff < MAX_FRAME_SIZE then Load(mem, sp' + f.fpOff) else c.fp;
      Ctx(Load(mem, sp' - 8), sp', fp)
  }

  /** One step under a record: whether it succeeded, and the registers it leaves
      (also when it failed halfway). */
  function Step(f: FrameDesc, mem: Memory, c: Ctx): (bool, Ctx) {
    match NextSp(f, c)
    case None => (false, c)
    case Some(sp') =>
      if !SpAccepted(c.sp, sp') then (false, c.(sp := sp'))
      else
        var d := Restored(f, mem, c, sp');
        (PcAccepted(d.pc), d)
  }

  function StepAt(libs: seq<Lib>, mem: Memory, c: Ctx): (bool, Ctx) {
    Step(FrameAt(libs, c.pc), mem, c)
  }

  /** The frames visited by a walk of at most `n` frames. */
  function Visits(libs: seq<Lib>, mem: Memory, c: Ctx, n: nat): (vs: seq<Ctx>)
    ensures |vs| <= n && (n > 0 ==> vs != [] && vs[0] == c)
    decreases n
  {
    if n == 0 then []
    else
      var (ok, d) := StepAt(libs, mem, c);
      [c] + if ok then Visits(libs, mem, d, n - 1) else []
  }

  /** The registers left when that walk stops. */
  function WalkEnd(libs: seq<Lib>, mem: Memory, c: Ctx, n: nat): Ctx
    decreases n
  {
    if n == 0 then c
    else
      var (ok, d) := StepAt(libs, mem, c);
      if ok then WalkEnd(libs, mem, d, n - 1) else d
  }

  function Pcs(cs: seq<Ctx>): (s: seq<u64>)
    ensures |s| == |cs| && forall i :: 0 <= i < |s| ==> s[i] == cs[i].pc
  {
    if cs == [] then [] else [cs[0].pc] + Pcs(cs[1..])
  }

  class StackContext {
    var pc: u64
    var sp: u64
    var fp: u64

    function Regs(): Ctx
      reads this
    {
      Ctx(pc, sp, fp)
    }

    constructor (c: Ctx)
      ensures Regs() == c
    {
      pc, sp, fp := c.pc, c.sp, c.fp;
    }
  }

  method StepStackContext(sc: StackContext, cache: CodeCacheArray, mem: Memory) returns (ok: bool)
    requires cache.Valid()
    modifies sc
    ensures (ok, sc.Regs()) == StepAt(old(cache.Libs()), mem, old(sc.Regs()))
  {
    hide FrameAt, IsFrameFor, CfaReg, CfaOff, Load, IsPcOffset, PcOffset, PcAccepted, U64, CodeCacheArray.Libs;
    ghost var c := sc.Regs();
    var f := cache.FindFrame(sc.pc);
    var bottom := U64(sc.sp + MAX_WALK_SIZE);
    var prevSp := sc.sp;

    var cfaReg := CfaReg(f.cfa);
    var cfaOff: int := CfaOff(f.cfa);
    if cfaReg == REG_SP {
      sc.sp := U64(sc.sp + cfaOff);
    } else if cfaReg == REG_FP {
      sc.sp := U64(sc.fp + cfaOff);
    } else if cfaReg == REG_PLT {
      sc.sp := U64(sc.sp + if sc.pc % 16 >= 11 then cfaOff * 2 else cfaOff);
    } else {
      return false;
    }
    if sc.sp < prevSp || sc.sp >= U64(prevSp + MAX_FRAME_SIZE) || sc.sp >= bottom {
      return false;
    }
    if sc.sp % 8 != 0 {
      return false;
    }
    if IsPcOffset(f.fpOff) {
      sc.pc := U64(sc.pc + PcOffset(f.fpOff));
    } else {
      if f.fpOff != SAME_FP && f.fpOff < MAX_FRAME_SIZE && f.fpOff > -MAX_FRAME_SIZE {
        sc.fp := Load(mem, sc.sp + f.fpOff);
      }
      sc.pc := Load(mem, sc.sp - 8);
    }
    return PcAccepted(sc.pc);
  }

  /** Records the pcs of the visited frames after the first `skip`; the result
      counts frames from the first recorded one. */
  method StackWalk(cache: CodeCacheArray, sc: StackContext, callchain: array<u64>, maxDepth: int, skip: int, mem: Memory)
    returns (depth: int)
    requires cache.Valid() && maxDepth <= callchain.Length
    modifies sc, callchain
    ensures var n := if maxDepth + skip > 0 then maxDepth + skip else 0;
      var vs := Visits(old(cache.Libs()), mem, old(sc.Regs()), n);
      && depth == |vs| - skip
      && sc.Regs() == WalkEnd(old(cache.Libs()), mem, old(sc.Regs()), n)
      && forall d :: 0 <= d < callchain.Length ==>
           callchain[d] == Recorded(vs, d + skip, old(callchain[d]))
  {
    hide Visits, WalkEnd, StepAt, CodeCacheArray.Libs, CodeCacheArray.Tables;
    ghost var libs, c0 := cache.Libs(), sc.Regs();
    ghost var n: nat := if maxDepth + skip > 0 then maxDepth + skip else 0;
    ghost var seen: seq<Ctx> := [];
    ghost var stopped := false;
    depth := -skip;
    while depth < maxDepth
      invariant |seen| <= n && depth == |seen| - skip && !stopped
      invariant cache.Valid() && cache.Libs() == libs
      invariant seen + Visits(libs, mem, sc.Regs(), n - |seen|) == Visits(libs, mem, c0, n)
      invariant WalkEnd(libs, mem, sc.Regs(), n - |seen|) == WalkEnd(libs, mem, c0, n)
      invariant forall d :: 0 <= d < callchain.Length ==> callchain[d] == Recorded(seen, d + skip, old(callchain[d]))
    {
      var d := depth;
      depth := depth + 1;
      ghost var c := sc.Regs();
      if d >= 0 {
        callchain[d] := sc.pc;
      }
      VisitsNext(libs, mem, c, n - |seen|);
      assert cache.Libs() == libs && sc.Regs() == c;
      var ok := StepStackContext(sc, cache, mem);
      assert (ok, sc.Regs()) == StepAt(libs, mem, c);
      assert seen + [c] + Visits(libs, mem, sc.Regs(), n - |seen| - 1)
        == seen + ([c] + Visits(libs, mem, sc.Regs(), n - |seen| - 1));
      seen := seen + [c];
      if !ok {
        stopped := true;
        break;
      }
    }
    if !stopped {
      VisitsNone(libs, mem, sc.Regs());
    }
  }

  /** What the buffer holds for the `d`-th visited frame. */
  function Recorded(vs: seq<Ctx>, d: int, before: u64): u64 {
    if 0 <= d < |vs| then vs[d].pc else before
  }

  lemma VisitsNext(libs: seq<Lib>, mem: Memory, c: Ctx, n: nat)
    requires n > 0
    ensures var (ok, d) := StepAt(libs, mem, c);
      && Visits(libs, mem, c, n) == [c] + (if ok then Visits(libs, mem, d, n - 1) else [])
      && WalkEnd(libs, mem, c, n) == if ok then WalkEnd(libs, mem, d, n - 1) else d
  {
  }

  lemma VisitsNone(libs: seq<Lib>, mem: Memory, c: Ctx)
    ensures Visits(libs, mem, c, 0) == [] && WalkEnd(libs, mem, c, 0) == c
  {
  }
}
