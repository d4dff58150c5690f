/** The per-thread pool of saved C contexts and their cached tracebacks. */
module CgoContexts {
  import opened Words
  import opened Options
  import opened Process
  import opened CodeCaching
  import opened LibraryList
  import opened StackWalking

  const STACK_MAX := 32
  const POOL_SIZE := 256

  // ----- truncation at the Go-to-C switch -----

  /** Where the stack-switching routine lies: symbol bounds, both inclusive, and
      what is added to a pc before it is compared with them. */
  datatype AsmBounds = AsmBounds(start: u64, end: u64, base: u64) {
    predicate Has(a: u64) { start <= U64(a + base) <= end }
  }

  /** None of the first `n` entries lies in the routine. */
  ghost predicate Outside(asm: AsmBounds, s: seq<u64>, n: nat)
    requires n <= |s|
  {
    forall j :: 0 <= j < n ==> U64(s[j] + asm.base) < asm.start || asm.end < U64(s[j] + asm.base)
  }

  /** Entry `i` is the first of the first `size` that lies in the routine, from its first
      address to its end inclusive, and has a successor among them. */
  ghost predicate IsFirstInside(asm: AsmBounds, s: seq<u64>, size: nat, i: nat)
    requires size <= |s|
  {
    i + 1 < size && asm.start <= U64(s[i] + asm.base) <= asm.end && Outside(asm, s, i)
  }

  /** The first of the first `size` entries inside the routine that has a successor among them. */
  function FirstAsm(asm: Option<AsmBounds>, s: seq<u64>, size: nat): (i: Option<nat>)
    requires size <= |s|
    ensures i.Some? ==> asm.Some? && IsFirstInside(asm.value, s, size, i.value)
    ensures i.None? && asm.Some? ==> Outside(asm.value, s, if size > 0 then size - 1 else 0)
  {
    if asm.None? then None else AsmFrom(asm.value, s, size, 0)
  }

  function AsmFrom(asm: AsmBounds, s: seq<u64>, size: nat, i: nat): (r: Option<nat>)
    requires i <= size <= |s|
    ensures r.Some? ==> i <= r.value && r.value + 1 < size && asm.start <= U64(s[r.value] + asm.base) <= asm.end
    ensures r.Some? ==> forall j :: i <= j < r.value ==> U64(s[j] + asm.base) < asm.start || asm.end < U64(s[j] + asm.base)
    ensures r.None? ==> forall j :: i <= j < size - 1 ==> U64(s[j] + asm.base) < asm.start || asm.end < U64(s[j] + asm.base)
    decreases size - i
  {
    if i + 1 >= size then None
    else if asm.Has(s[i]) then Some(i)
    else AsmFrom(asm, s, size, i + 1)
  }

  function Truncated(asm: Option<AsmBounds>, s: seq<u64>, size: nat): (r: seq<u64>)
    requires size <= |s|
    ensures |r| == |s|
  {
    match FirstAsm(asm, s, size)
    case None => s
    case Some(i) => s[i + 1 := 0]
  }

  /** What truncation does, in terms of the bounds: it zeroes the entry after the first one
      in the routine that has a successor, and nothing where there is no such entry. */
  ghost predicate IsTruncated(asm: Option<AsmBounds>, s: seq<u64>, size: nat, r: seq<u64>)
    requires size <= |s|
  {
    match asm
    case None => r == s
    case Some(b) =>
      && (forall i :: 0 <= i < size && IsFirstInside(b, s, size, i) ==> r == s[i + 1 := 0])
      && (Outside(b, s, if size > 0 then size - 1 else 0) ==> r == s)
  }

  lemma TruncatedBounds(asm: Option<AsmBounds>, s: seq<u64>, size: nat)
    requires size <= |s|
    ensures IsTruncated(asm, s, size, Truncated(asm, s, size))
  {
    if asm.Some? {
      forall i | 0 <= i < size && IsFirstInside(asm.value, s, size, i) ensures FirstAsm(asm, s, size) == Some(i) {
        FirstAsmIs(asm.value, s, size, i);
      }
    }
  }

  /** Truncation changes at most the entry after the first asmcgocall frame that
      has a walked successor, and truncating again changes nothing. */
  lemma TruncateOnce(asm: Option<AsmBounds>, s: seq<u64>, size: nat)
    requires size <= |s|
    ensures var r := Truncated(asm, s, size);
      && Truncated(asm, r, size) == r
      && forall j :: 0 <= j < |s| && (FirstAsm(asm, s, size).None? || j != FirstAsm(asm, s, size).value + 1) ==> r[j] == s[j]
  {
    match FirstAsm(asm, s, size)
    case None =>
    case Some(i) =>
      var r := s[i + 1 := 0];
      assert Outside(asm.value, s, i) && IsFirstInside(asm.value, r, size, i);
      FirstAsmIs(asm.value, r, size, i);
  }

  /** There is only one first entry. */
  lemma FirstAsmIs(asm: AsmBounds, s: seq<u64>, size: nat, i: nat)
    requires size <= |s| && IsFirstInside(asm, s, size, i)
    ensures FirstAsm(Some(asm), s, size) == Some(i)
  {
    hide AsmFrom;
    assert FirstAsm(Some(asm), s, size).Some?;
  }

  // ----- the specification of the pool -----

  datatype Slot = Slot(pc: u64, sp: u64, fp: u64, stack: seq<u64>, cached: bool, inuse: bool) {
    function Regs(): Ctx { Ctx(pc, sp, fp) }
  }

  predicate ValidPool(pool: seq<Slot>) {
    |pool| == POOL_SIZE && forall i :: 0 <= i < |pool| ==> |pool[i].stack| == STACK_MAX
  }

  /** What the library and the process fix for the whole run. */
  datatype Env = Env(libs: seq<Lib>, asm: Option<AsmBounds>)

  function FirstFree(pool: seq<Slot>, i: nat): (r: Option<nat>)
    requires i <= |pool|
    ensures r.Some? ==> i <= r.value < |pool| && !pool[r.value].inuse && forall j :: i <= j < r.value ==> pool[j].inuse
    ensures r.None? ==> forall j :: i <= j < |pool| ==> pool[j].inuse
    decreases |pool| - i
  {
    if i == |pool| then None else if !pool[i].inuse then Some(i) else FirstFree(pool, i + 1)
  }

  /** The registers saved for a context: two frames up, whether or not the steps succeed. */
  function Saved(env: Env, mem: Memory, here: Ctx): Ctx {
    StepAt(env.libs, mem, StepAt(env.libs, mem, here).1).1
  }

  /** Overwrites the front of a buffer. */
  function Onto(front: seq<u64>, s: seq<u64>): (r: seq<u64>)
    requires |front| <= |s|
    ensures |r| == |s|
  {
    front + s[|front|..]
  }

  /** The array a fresh walk from the saved registers leaves in the slot. */
  function Walked(env: Env, mem: Memory, s: Slot): (r: seq<u64>)
    requires |s.stack| == STACK_MAX
    ensures |r| == STACK_MAX
  {
    var vs := Visits(env.libs, mem, s.Regs(), STACK_MAX);
    Truncated(env.asm, Onto(Pcs(vs), s.stack), |vs|)
  }

  function Cached(env: Env, mem: Memory, s: Slot): Slot
    requires |s.stack| == STACK_MAX
  {
    if s.cached then s else s.(stack := Walked(env, mem, s), cached := true)
  }

  datatype Event =
    | Acquire(here: Ctx, mem: Memory)
    | Release(slot: nat)
    | Traceback(slot: nat, max: u64, mem: Memory)

  function Acquired(env: Env, s: Slot, here: Ctx, mem: Memory): Slot {
    var c := Saved(env, mem, here);
    s.(inuse := true, cached := false, pc := c.pc, sp := c.sp, fp := c.fp)
  }

  function Next(env: Env, pool: seq<Slot>, e: Event): (pool': seq<Slot>)
    requires ValidPool(pool)
    ensures ValidPool(pool')
  {
    match e
    case Acquire(here, mem) =>
      (match FirstFree(pool, 0)
       case None => pool
       case Some(i) => pool[i := Acquired(env, pool[i], here, mem)])
    case Release(i) => if i < POOL_SIZE then pool[i := pool[i].(inuse := false)] else pool
    case Traceback(i, _, mem) => if i < POOL_SIZE then pool[i := Cached(env, mem, pool[i])] else pool
  }

  lemma ReleaseStep(env: Env, pool: seq<Slot>, i: nat)
    requires ValidPool(pool) && i < POOL_SIZE
    ensures Next(env, pool, Release(i)) == pool[i := pool[i].(inuse := false)]
  {
  }

  /** What a traceback of a context copies out. */
  function Copied(env: Env, pool: seq<Slot>, i: nat, max: u64, mem: Memory): seq<u64>
    requires ValidPool(pool) && i < POOL_SIZE
  {
    Cached(env, mem, pool[i]).stack[..if max < STACK_MAX then max else STACK_MAX]
  }

  /** What the signal path leaves in the caller's buffer: the walk, a zero after
      it if there is room, and the truncation of the walked part. */
  function SignalResult(env: Env, mem: Memory, sig: Ctx, before: seq<u64>, max: u64): (r: seq<u64>)
    requires max <= |before|
    ensures |r| == |before|
  {
    var depth := I32(max);
    var vs := Visits(env.libs, mem, sig, if depth > 0 then depth else 0);
    var n := |vs|;
    var b := Onto(Pcs(vs), before);
    Truncated(env.asm, if n < max then b[n := 0] else b, n)
  }

  // ----- the thread's state -----

  class CgoContext {
    var pc: u64
    var sp: u64
    var fp: u64
    const stack: array<u64>
    var cached: bool
    var inuse: bool

    ghost function View(): Slot
      reads this, stack
    {
      Slot(pc, sp, fp, stack[..], cached, inuse)
    }

    constructor ()
      ensures fresh(stack) && stack.Length == STACK_MAX
      ensures !inuse && !cached
    {
      pc, sp, fp := 0, 0, 0;
      stack := new u64[STACK_MAX](_ => 0);
      cached, inuse := false, false;
    }
  }

  /** The argument of the context callback. */
  class ContextArg {
    var p: CgoContext?
  }

  class Thread {
    const contexts: array<CgoContext>
    const stacks: seq<array<u64>>
    const cache: CodeCacheArray
    const asm: Option<AsmBounds>
    var enabled: bool

    ghost predicate Valid()
      reads this, contexts, contexts[..]
    {
      && contexts.Length == POOL_SIZE == |stacks|
      && (forall i :: 0 <= i < POOL_SIZE ==> contexts[i].stack == stacks[i] && stacks[i].Length == STACK_MAX)
      && (forall i, j :: 0 <= i < j < POOL_SIZE ==> contexts[i] != contexts[j] && stacks[i] != stacks[j])
    }

    ghost function SlotsUpTo(n: nat): (s: seq<Slot>)
      requires Valid() && n <= POOL_SIZE
      reads this, contexts, contexts[..], stacks
      ensures |s| == n && forall i :: 0 <= i < n ==> s[i] == contexts[i].View()
    {
      if n == 0 then [] else SlotsUpTo(n - 1) + [contexts[n - 1].View()]
    }

    ghost function Pool(): (s: seq<Slot>)
      requires Valid()
      reads this, contexts, contexts[..], stacks
      ensures ValidPool(s) && forall i :: 0 <= i < POOL_SIZE ==> s[i] == contexts[i].View()
    {
      SlotsUpTo(POOL_SIZE)
    }

    ghost function Environment(): Env
      requires cache.Valid()
      reads cache, cache.libs, cache.libs[..], cache.Tables()
    {
      Env(cache.Libs(), asm)
    }

    constructor (cache: CodeCacheArray, asm: Option<AsmBounds>)
      ensures Valid() && this.cache == cache && this.asm == asm && enabled
      ensures forall i :: 0 <= i < POOL_SIZE ==> !Pool()[i].inuse
    {
      var cs: seq<CgoContext> := [];
      var ss: seq<array<u64>> := [];
      while |cs| < POOL_SIZE
        invariant |ss| == |cs| <= POOL_SIZE
        invariant forall i :: 0 <= i < |cs| ==> fresh(cs[i]) && fresh(ss[i]) && !cs[i].inuse
        invariant forall i :: 0 <= i < |cs| ==> cs[i].stack == ss[i] && ss[i].Length == STACK_MAX
        invariant forall i, j :: 0 <= i < j < |cs| ==> cs[i] != cs[j] && ss[i] != ss[j]
      {
        var c := new CgoContext();
        cs, ss := cs + [c], ss + [c.stack];
      }
      this.cache, this.asm, enabled := cache, asm, true;
      stacks := ss;
      contexts := new CgoContext[POOL_SIZE](i requires 0 <= i < POOL_SIZE => cs[i]);
    }

    method CgoContextGet() returns (r: CgoContext?)
      requires Valid()
      modifies contexts[..]
      ensures Valid()
      ensures match FirstFree(old(Pool()), 0)
        case None => r == null && Pool() == old(Pool())
        case Some(i) =>
          r == contexts[i] && Pool() == old(Pool())[i := old(Pool())[i].(inuse := true, cached := false)]
    {
      ghost var pool := Pool();
      var i := 0;
      while i < contexts.Length
        invariant i <= POOL_SIZE && Pool() == pool && Valid()
        invariant FirstFree(pool, i) == FirstFree(pool, 0)
      {
        assert pool[i] == contexts[i].View();
        if !contexts[i].inuse {
          contexts[i].inuse := true;
          contexts[i].cached := false;
          assert Pool() == pool[i := pool[i].(inuse := true, cached := false)];
          return contexts[i];
        }
        i := i + 1;
      }
      return null;
    }

    method CgoContextRelease(c: CgoContext, ghost i: nat)
      requires Valid() && i < POOL_SIZE && c == contexts[i]
      modifies c
      ensures Valid() && Pool() == old(Pool())[i := old(Pool())[i].(inuse := false)]
    {
      ghost var pool := Pool();
      c.inuse := false;
      assert Pool() == pool[i := pool[i].(inuse := false)];
    }

    /** Entering Go from C saves the C context; leaving releases it. `here` are the
        registers at the callback, `i` the slot that the argument points to. */
    method AsyncCgoContext(arg: ContextArg, here: Ctx, mem: Memory, ghost i: nat)
      requires Valid() && cache.Valid()
      requires arg.p != null ==> i < POOL_SIZE && arg.p == contexts[i]
      modifies arg, contexts[..]
      ensures Valid()
      ensures
        var env, pool := old(Environment()), old(Pool());
        if !enabled then Pool() == pool && arg.p == old(arg.p)
        else if old(arg.p) != null then Pool() == Next(env, pool, Release(i)) && arg.p == old(arg.p)
        else
          && Pool() == Next(env, pool, Acquire(here, mem))
          && arg.p == match FirstFree(pool, 0) case None => null case Some(k) => contexts[k]
    {
      hide Next, FirstFree, Thread.SlotsUpTo, CodeCacheArray.Libs, CodeCacheArray.Tables;
      if !enabled {
        return;
      }
      if arg.p != null {
        ReleaseStep(Environment(), Pool(), i);
        CgoContextRelease(arg.p, i);
        return;
      }
      arg.p := AcquireContext(here, mem);
    }

    /** Takes the first free slot and saves the C context in it. */
    method AcquireContext(here: Ctx, mem: Memory) returns (ctx: CgoContext?)
      requires Valid() && cache.Valid()
      modifies contexts[..]
      ensures Valid()
      ensures var env, pool := old(Environment()), old(Pool());
        && Pool() == Next(env, pool, Acquire(here, mem))
        && ctx == match FirstFree(pool, 0) case None => null case Some(k) => contexts[k]
    {
      hide FirstFree, Saved, Thread.SlotsUpTo, CodeCacheArray.Libs, CodeCacheArray.Tables;
      ghost var env, pool := Environment(), Pool();
      ctx := CgoContextGet();
      if ctx == null {
        return;
      }
      ghost var k := FirstFree(pool, 0).value;
      assert cache.Valid() && Environment() == env;
      SaveCaller(ctx, here, mem, k);
      assert Pool() == pool[k := Acquired(env, pool[k], here, mem)];
    }

    /** Saves the registers two frames up, past the callback and its caller. */
    method SaveCaller(ctx: CgoContext, here: Ctx, mem: Memory, ghost k: nat)
      requires Valid() && cache.Valid() && k < POOL_SIZE && ctx == contexts[k]
      modifies ctx
      ensures Valid()
      ensures var pool, c := old(Pool()), Saved(old(Environment()), mem, here);
        Pool() == pool[k := pool[k].(pc := c.pc, sp := c.sp, fp := c.fp)]
    {
      hide StepAt, Thread.SlotsUpTo, CodeCacheArray.Libs, CodeCacheArray.Tables;
      ghost var env, pool := Environment(), Pool();
      var sc := new StackContext(here);
      assert cache.Valid() && cache.Libs() == env.libs;
      var ok := StepStackContext(sc, cache, mem);
      assert cache.Valid() && cache.Libs() == env.libs;
      ok := StepStackContext(sc, cache, mem);
      ctx.pc := sc.pc;
      ctx.sp := sc.sp;
      ctx.fp := sc.fp;
      forall j | 0 <= j < POOL_SIZE && j != k ensures contexts[j].View() == pool[j] {
        assert contexts[j] != contexts[k] && contexts[j].stack == stacks[j];
      }
      assert Pool() == pool[k := pool[k].(pc := sc.pc, sp := sc.sp, fp := sc.fp)];
    }

    method TruncateAsmcgocall(stack: array<u64>, size: int)
      requires 0 <= size <= stack.Length
      modifies stack
      ensures stack[..] == Truncated(asm, old(stack[..]), size)
      ensures IsTruncated(asm, old(stack[..]), size, stack[..])
    {
      TruncatedBounds(asm, stack[..], size);
      hide IsTruncated;
      if asm.None? {
        return;
      }
      var b := asm.value;
      for i := 0 to size
        invariant stack[..] == old(stack[..])
        invariant AsmFrom(b, stack[..], size, i) == AsmFrom(b, stack[..], size, 0)
      {
        var a := U64(stack[i] + b.base);
        if b.start <= a && a <= b.end {
          if i + 1 < size {
            stack[i + 1] := 0;
            return;
          }
        }
      }
    }

    /** Fills a context's cache: the walk from its saved registers, truncated. */
    method FillCache(ctx: CgoContext, mem: Memory)
      requires cache.Valid() && ctx.stack.Length == STACK_MAX
      modifies ctx, ctx.stack
      ensures var slot := old(ctx.View());
        ctx.View() == slot.(stack := Walked(old(Environment()), mem, slot), cached := true)
    {
      hide Visits, WalkEnd, Truncated, Onto, Recorded, Pcs, CodeCacheArray.Libs, CodeCacheArray.Tables;
      ghost var env, slot := Environment(), ctx.View();
      var sc := new StackContext(Ctx(ctx.pc, ctx.sp, ctx.fp));
      assert cache.Valid() && cache.Libs() == env.libs;
      var n := StackWalk(cache, sc, ctx.stack, STACK_MAX, 0, mem);
      WalkFills(Visits(env.libs, mem, slot.Regs(), STACK_MAX), slot.stack, ctx.stack[..]);
      TruncateAsmcgocall(ctx.stack, n);
      ctx.cached := true;
    }

    /** In the pool, only that slot changes. */
    method FillSlot(ctx: CgoContext, mem: Memory, ghost k: nat)
      requires Valid() && cache.Valid() && k < POOL_SIZE && ctx == contexts[k]
      modifies ctx, ctx.stack
      ensures Valid()
      ensures var env, pool := old(Environment()), old(Pool());
        Pool() == pool[k := pool[k].(stack := Walked(env, mem, pool[k]), cached := true)]
    {
      hide Walked, Thread.SlotsUpTo, CodeCacheArray.Libs, CodeCacheArray.Tables;
      ghost var pool := Pool();
      FillCache(ctx, mem);
      forall j | 0 <= j < POOL_SIZE && j != k ensures contexts[j].View() == pool[j] {
        assert contexts[j] != contexts[k] && contexts[j].stack == stacks[j];
      }
      assert Pool() == pool[k := ctx.View()];
    }

    /** The traceback callback: a saved context's cached walk, or a fresh walk from
        the interrupted registers `sig`. The buffer holds `max` words. */
    method AsyncCgoTraceback(ctx: CgoContext?, sig: Ctx, buf: array<u64>, max: u64, mem: Memory, ghost k: nat)
      requires Valid() && cache.Valid() && max <= buf.Length && buf !in stacks
      requires ctx != null ==> k < POOL_SIZE && ctx == contexts[k]
      modifies buf, contexts[..], stacks
      ensures Valid()
      ensures
        var env, pool := old(Environment()), old(Pool());
        if !enabled then Pool() == pool && buf[..] == old(buf[..])
        else if ctx == null then Pool() == pool && buf[..] == SignalResult(env, mem, sig, old(buf[..]), max)
        else
          && Pool() == Next(env, pool, Traceback(k, max, mem))
          && buf[..] == Onto(Copied(env, pool, k, max, mem), old(buf[..]))
    {
      if !enabled {
        return;
      }
      hide Next, Copied, SignalResult;
      if ctx != null {
        CopyCached(ctx, buf, max, mem, k);
      } else {
        ghost var pool := Pool();
        SignalTraceback(sig, buf, max, mem);
        assert Pool() == pool;
      }
    }

    method CopyCached(ctx: CgoContext, buf: array<u64>, max: u64, mem: Memory, ghost k: nat)
      requires Valid() && cache.Valid() && max <= buf.Length && buf !in stacks
      requires k < POOL_SIZE && ctx == contexts[k]
      modifies buf, ctx, ctx.stack
      ensures Valid()
      ensures var env, pool := old(Environment()), old(Pool());
        && Pool() == Next(env, pool, Traceback(k, max, mem))
        && buf[..] == Onto(Copied(env, pool, k, max, mem), old(buf[..]))
    {
      hide Walked, Thread.SlotsUpTo, CodeCacheArray.Libs, CodeCacheArray.Tables;
      assert ctx.stack == stacks[k];
      if !ctx.cached {
        FillSlot(ctx, mem, k);
      }
      ghost var filled := Pool();
      assert filled[k].stack == ctx.stack[..];
      var n := if max < STACK_MAX then max else STACK_MAX;
      CopyWords(ctx.stack, buf, n);
      forall j | 0 <= j < POOL_SIZE ensures contexts[j].View() == filled[j] {
        assert contexts[j].stack == stacks[j];
      }
    }

    method SignalTraceback(sig: Ctx, buf: array<u64>, max: u64, mem: Memory)
      requires cache.Valid() && max <= buf.Length
      modifies buf
      ensures buf[..] == SignalResult(old(Environment()), mem, sig, old(buf[..]), max)
    {
      hide Visits, WalkEnd, Truncated, Onto, I32, CodeCacheArray.Libs, CodeCacheArray.Tables;
      ghost var env, before := Environment(), buf[..];
      var sc := new StackContext(sig);
      assert cache.Valid() && cache.Libs() == env.libs;
      DepthFits(max);
      var depth := I32(max);
      var n := StackWalk(cache, sc, buf, depth, 0, mem);
      WalkFills(Visits(env.libs, mem, sig, if depth > 0 then depth else 0), before, buf[..]);
      if n < max {
        buf[n] := 0;
      }
      TruncateAsmcgocall(buf, n);
    }
  }

  lemma DepthFits(max: u64)
    ensures I32(max) <= max
  {
  }

  method CopyWords(from: array<u64>, to: array<u64>, n: nat)
    requires n <= from.Length && n <= to.Length && from != to
    modifies to
    ensures to[..] == Onto(from[..n], old(to[..]))
  {
    forall i | 0 <= i < n {
      to[i] := from[i];
    }
  }

  lemma WalkFills(vs: seq<Ctx>, before: seq<u64>, after: seq<u64>)
    requires |vs| <= |before| == |after|
    requires forall d :: 0 <= d < |after| ==> after[d] == Recorded(vs, d, before[d])
    ensures after == Onto(Pcs(vs), before)
  {
    hide Pcs;
    var pcs := Pcs(vs);
    OntoEach(pcs, before);
    hide Onto, Recorded;
    forall d | 0 <= d < |after| ensures after[d] == Onto(pcs, before)[d] {
      RecordedPc(vs, d, before[d]);
    }
  }

  lemma OntoEach(front: seq<u64>, s: seq<u64>)
    requires |front| <= |s|
    ensures forall d :: 0 <= d < |s| ==> Onto(front, s)[d] == if d < |front| then front[d] else s[d]
  {
  }

  lemma RecordedPc(vs: seq<Ctx>, d: nat, before: u64)
    ensures Recorded(vs, d, before) == if d < |Pcs(vs)| then Pcs(vs)[d] else before
  {
    hide Pcs;
  }
}
