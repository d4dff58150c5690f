/** Whole runs of one thread's context pool: safety of the slots, and what every
    traceback of a context returns. */
module ContextRuns {
  import opened Words
  import opened Options
  import opened Process
  import opened StackWalking
  import opened CgoContexts
  import U = Unwinding

  function RunPool(env: Env, pool: seq<Slot>, es: seq<Event>): (pool': seq<Slot>)
    requires ValidPool(pool)
    ensures ValidPool(pool')
    decreases |es|
  {
    if es == [] then pool else Next(env, RunPool(env, pool, es[..|es| - 1]), es[|es| - 1])
  }

  // ----- the cached traceback -----

  /** Memory at the first traceback of slot `i`. */
  function FirstWalk(es: seq<Event>, i: nat): Option<Memory>
    decreases |es|
  {
    if es == [] then None
    else
      var e := es[|es| - 1];
      match FirstWalk(es[..|es| - 1], i)
      case Some(mem) => Some(mem)
      case None => if e.Traceback? && e.slot == i then Some(e.mem) else None
  }

  ghost predicate Keeps(es: seq<Event>, i: nat) {
    forall t :: 0 <= t < |es| ==> es[t] != Release(i)
  }

  /** While a context is live its slot changes only once: at its first traceback. */
  lemma {:induction false} SlotEvolves(env: Env, pool: seq<Slot>, es: seq<Event>, i: nat)
    requires ValidPool(pool) && i < POOL_SIZE && pool[i].inuse && Keeps(es, i)
    ensures RunPool(env, pool, es)[i]
      == match FirstWalk(es, i) case None => pool[i] case Some(mem) => Cached(env, mem, pool[i])
    decreases |es|
  {
    hide Walked, Acquired;
    if es != [] {
      SlotEvolves(env, pool, es[..|es| - 1], i);
      assert es[|es| - 1] != Release(i);
    }
  }

  /** All tracebacks between acquiring and releasing a context, in any interleaving
      with events on other contexts and whatever memory does meanwhile, return
      prefixes of one array: the truncated walk from the registers saved when it was
      acquired, taken from memory as it was at the first of these tracebacks. */
  lemma TracebacksAgree(env: Env, pool: seq<Slot>, here: Ctx, mem0: Memory, es: seq<Event>, i: nat, t: nat)
    requires ValidPool(pool) && FirstFree(pool, 0) == Some(i)
    requires t < |es| && Keeps(es, i) && es[t].Traceback? && es[t].slot == i
    ensures i < POOL_SIZE && FirstWalk(es, i).Some?
    ensures
      var acquired := Next(env, pool, Acquire(here, mem0));
      var fixed := Walked(env, FirstWalk(es, i).value, acquired[i]);
      acquired[i].Regs() == Saved(env, mem0, here)
      && Copied(env, RunPool(env, acquired, es[..t]), i, es[t].max, es[t].mem)
         == fixed[..if es[t].max < 32 then es[t].max else 32]
  {
    hide Walked, Saved;
    var acquired := Next(env, pool, Acquire(here, mem0));
    SlotEvolves(env, acquired, es[..t], i);
    FirstWalkExtends(es, i, t);
  }

  lemma {:induction false} FirstWalkExtends(es: seq<Event>, i: nat, t: nat)
    requires t < |es| && es[t].Traceback? && es[t].slot == i
    ensures FirstWalk(es, i) == match FirstWalk(es[..t], i) case None => Some(es[t].mem) case Some(mem) => Some(mem)
    decreases |es|
  {
    if t < |es| - 1 {
      assert es[..|es| - 1][..t] == es[..t];
      FirstWalkExtends(es[..|es| - 1], i, t);
    }
  }

  lemma {:induction false} AsmFromPrefix(asm: AsmBounds, a: seq<u64>, b: seq<u64>, size: nat, i: nat)
    requires i <= size <= |a| && size <= |b| && a[..size] == b[..size]
    ensures AsmFrom(asm, a, size, i) == AsmFrom(asm, b, size, i)
    decreases size - i
  {
    if i + 1 < size {
      assert a[i] == a[..size][i] && b[i] == b[..size][i];
      AsmFromPrefix(asm, a, b, size, i + 1);
    }
  }

  lemma TruncatedPrefix(asm: Option<AsmBounds>, a: seq<u64>, b: seq<u64>, size: nat)
    requires size <= |a| && size <= |b| && a[..size] == b[..size]
    ensures FirstAsm(asm, a, size) == FirstAsm(asm, b, size)
    ensures Truncated(asm, a, size)[..size] == Truncated(asm, b, size)[..size]
    ensures Truncated(asm, a, size)[size..] == a[size..]
  {
    if asm.Some? {
      AsmFromPrefix(asm.value, a, b, size, 0);
    }
  }

  /** The walked part of that array is the fresh walk, truncated; beyond it the
      slot keeps what an earlier context left there. */
  lemma WalkedEntries(env: Env, mem: Memory, s: Slot)
    requires |s.stack| == STACK_MAX
    ensures
      var walk := Pcs(Visits(env.libs, mem, s.Regs(), STACK_MAX));
      var n := |walk|;
      && n <= STACK_MAX
      && Walked(env, mem, s)[..n] == Truncated(env.asm, walk, n)
      && Walked(env, mem, s)[n..] == s.stack[n..]
  {
    hide Visits, Pcs, Truncated;
    var vs := Visits(env.libs, mem, s.Regs(), STACK_MAX);
    var walk := Pcs(vs);
    var b := Onto(walk, s.stack);
    assert b[..|walk|] == walk == walk[..|walk|];
    TruncatedPrefix(env.asm, b, walk, |walk|);
    assert b[|walk|..] == s.stack[|walk|..];
  }

  // ----- pool safety -----

  function InUse(pool: seq<Slot>): set<nat> {
    set k | 0 <= k < |pool| && pool[k].inuse
  }

  ghost predicate Free(pool: seq<Slot>) {
    forall k :: 0 <= k < |pool| ==> !pool[k].inuse
  }

  /** The contexts handed out and not yet given back, with multiplicity. */
  ghost function Live(env: Env, pool: seq<Slot>, es: seq<Event>): multiset<nat>
    requires ValidPool(pool)
    decreases |es|
  {
    if es == [] then multiset{}
    else
      var before, e := es[..|es| - 1], es[|es| - 1];
      var live := Live(env, pool, before);
      match e
      case Acquire(_, _) =>
        var free := FirstFree(RunPool(env, pool, before), 0);
        if free.Some? then live + multiset{free.value} else live
      case Release(_) => live - multiset{e.slot}
      case Traceback(_, _, _) => live
  }

  /** Only live contexts are released. */
  ghost predicate Legal(env: Env, pool: seq<Slot>, es: seq<Event>)
    requires ValidPool(pool)
  {
    forall t :: 0 <= t < |es| && es[t].Release? ==> es[t].slot in Live(env, pool, es[..t])
  }

  /** Successful acquisitions and releases in a run. */
  ghost function Balance(env: Env, pool: seq<Slot>, es: seq<Event>): int
    requires ValidPool(pool)
    decreases |es|
  {
    if es == [] then 0
    else
      var before, e := es[..|es| - 1], es[|es| - 1];
      Balance(env, pool, before)
      + if e.Acquire? && FirstFree(RunPool(env, pool, before), 0).Some? then 1
        else if e.Release? then -1 else 0
  }

  /** Live contexts are pairwise distinct slots, exactly the slots in use, and as
      many as were acquired and not released; after any legal run from a free pool. */
  lemma {:induction false} LiveContextsDistinct(env: Env, pool: seq<Slot>, es: seq<Event>)
    requires ValidPool(pool) && Free(pool) && Legal(env, pool, es)
    ensures Live(env, pool, es) == multiset(InUse(RunPool(env, pool, es)))
    ensures |InUse(RunPool(env, pool, es))| == Balance(env, pool, es) <= 256
    decreases |es|
  {
    hide Cached, Acquired;
    var now := RunPool(env, pool, es);
    if es == [] {
      assert InUse(now) == {};
    } else {
      var before, e := es[..|es| - 1], es[|es| - 1];
      assert Legal(env, pool, before) by {
        forall t | 0 <= t < |before| && before[t].Release? ensures before[t].slot in Live(env, pool, before[..t]) {
          assert before[..t] == es[..t] && before[t] == es[t];
        }
      }
      LiveContextsDistinct(env, pool, before);
      EventUses(env, RunPool(env, pool, before), e);
    }
    UseBounded(now);
  }

  /** The effect of one event on the slots in use. */
  lemma EventUses(env: Env, pool: seq<Slot>, e: Event)
    requires ValidPool(pool) && (e.Release? ==> e.slot in InUse(pool))
    ensures
      var now := Next(env, pool, e);
      match e
      case Acquire(_, _) =>
        var free := FirstFree(pool, 0);
        if free.None? then InUse(now) == InUse(pool)
        else free.value !in InUse(pool) && InUse(now) == InUse(pool) + {free.value}
      case Release(_) => InUse(now) == InUse(pool) - {e.slot}
      case Traceback(_, _, _) => InUse(now) == InUse(pool)
  {
    hide Saved, Walked;
  }

  function Range(n: nat): set<nat> {
    if n == 0 then {} else Range(n - 1) + {n - 1}
  }

  lemma {:induction false} RangeSize(n: nat)
    ensures |Range(n)| == n && forall k: nat :: k in Range(n) <==> k < n
  {
    if n > 0 {
      RangeSize(n - 1);
    }
  }

  lemma SubsetSize(a: set<nat>, b: set<nat>)
    requires a <= b
    ensures |a| <= |b| && (|a| == |b| ==> a == b)
  {
    assert b == a + (b - a);
  }

  lemma UseBounded(pool: seq<Slot>)
    requires |pool| == POOL_SIZE
    ensures |InUse(pool)| <= 256
    ensures |InUse(pool)| == 256 <==> FirstFree(pool, 0) == None
  {
    var all := Range(POOL_SIZE);
    RangeSize(POOL_SIZE);
    SubsetSize(InUse(pool), all);
    if FirstFree(pool, 0) == None {
      assert InUse(pool) == all;
    } else {
      assert FirstFree(pool, 0).value !in InUse(pool);
    }
  }

  // ----- nested callbacks -----

  datatype Nesting = Enter(here: Ctx, mem: Memory) | Leave | Look(depth: nat, max: u64, mem: Memory)

  /** The pool, and the context of every callback being served: none for one that
      found the pool exhausted. */
  datatype Nested = Nested(pool: seq<Slot>, tokens: seq<Option<nat>>)

  function NestNext(env: Env, s: Nested, n: Nesting): (s': Nested)
    requires ValidPool(s.pool)
    ensures ValidPool(s'.pool)
  {
    match n
    case Enter(here, mem) =>
      Nested(Next(env, s.pool, Acquire(here, mem)), s.tokens + [FirstFree(s.pool, 0)])
    case Leave =>
      if s.tokens == [] then s
      else
        var k := |s.tokens| - 1;
        var token := s.tokens[k];
        Nested(if token.Some? then Next(env, s.pool, Release(token.value)) else s.pool, s.tokens[..k])
    case Look(d, max, mem) =>
      if d < |s.tokens| && s.tokens[d].Some? then s.(pool := Next(env, s.pool, Traceback(s.tokens[d].value, max, mem)))
      else s
  }

  function NestRun(env: Env, s: Nested, ns: seq<Nesting>): (s': Nested)
    requires ValidPool(s.pool)
    ensures ValidPool(s'.pool)
    decreases |ns|
  {
    if ns == [] then s else NestRun(env, NestNext(env, s, ns[0]), ns[1..])
  }

  /** The slots in use are a prefix, one for each of the callbacks up to the pool's size. */
  ghost predicate Prefix(s: Nested) {
    && ValidPool(s.pool)
    && (forall k :: 0 <= k < |s.tokens| ==> s.tokens[k] == if k < POOL_SIZE then Some(k) else None)
    && (forall k :: 0 <= k < POOL_SIZE ==> (s.pool[k].inuse <==> k < |s.tokens|))
  }

  lemma NestKeepsPrefix(env: Env, s: Nested, n: Nesting)
    requires Prefix(s)
    ensures Prefix(NestNext(env, s, n))
  {
    hide Saved, Walked;
    match n
    case Enter(_, _) =>
      if |s.tokens| < POOL_SIZE {
        assert !s.pool[|s.tokens|].inuse;
        assert FirstFree(s.pool, 0) == Some(|s.tokens|);
      }
    case Leave =>
    case Look(_, _, _) =>
  }

  /** Under nested callbacks, from a free pool: at every depth the in-use slots are
      exactly the first ones, each callback holds the slot of its own depth, and
      only callbacks nested deeper than the pool have none. */
  lemma {:induction false} NestedCallbacksUsePrefix(env: Env, s: Nested, ns: seq<Nesting>)
    requires Prefix(s)
    ensures Prefix(NestRun(env, s, ns))
    decreases |ns|
  {
    hide NestNext;
    if ns != [] {
      NestKeepsPrefix(env, s, ns[0]);
      NestedCallbacksUsePrefix(env, NestNext(env, s, ns[0]), ns[1..]);
    }
  }

  // ----- the signal path -----

  /** What a reader of the buffer sees: the entries before the first zero. */
  function UntilZero(s: seq<u64>): seq<u64> {
    if s == [] || s[0] == 0 then [] else [s[0]] + UntilZero(s[1..])
  }

  lemma {:induction false} UntilZeroAt(s: seq<u64>, k: nat)
    requires k <= |s| && (forall j :: 0 <= j < k ==> s[j] != 0) && (k < |s| ==> s[k] == 0)
    ensures UntilZero(s) == s[..k]
    decreases k
  {
    if k > 0 {
      UntilZeroAt(s[1..], k - 1);
      assert s[..k] == [s[0]] + s[1..][..k - 1];
    }
  }

  /** The walk up to and including the first frame in the routine with a walked successor,
      or all of it, in terms of the bounds. */
  ghost predicate IsCut(asm: Option<AsmBounds>, walk: seq<u64>, cut: seq<u64>) {
    match asm
    case None => cut == walk
    case Some(b) =>
      && (forall i :: 0 <= i < |walk| && IsFirstInside(b, walk, |walk|, i) ==> cut == walk[..i + 1])
      && (Outside(b, walk, if |walk| > 0 then |walk| - 1 else 0) ==> cut == walk)
  }

  lemma CutBounds(asm: Option<AsmBounds>, walk: seq<u64>)
    ensures IsCut(asm, walk, CutAtAsm(asm, walk))
  {
    if asm.Some? {
      forall i | 0 <= i < |walk| && IsFirstInside(asm.value, walk, |walk|, i) ensures FirstAsm(asm, walk, |walk|) == Some(i) {
        FirstAsmIs(asm.value, walk, |walk|, i);
      }
    }
  }

  /** The walk up to and including the first asmcgocall frame with a walked successor. */
  function CutAtAsm(asm: Option<AsmBounds>, walk: seq<u64>): seq<u64> {
    match FirstAsm(asm, walk, |walk|)
    case None => walk
    case Some(i) => walk[..i + 1]
  }

  lemma {:induction false} WalkNonZero(env: Env, mem: Memory, c: Ctx, n: nat, k: nat)
    requires c.pc != 0 && k < |Visits(env.libs, mem, c, n)|
    ensures Visits(env.libs, mem, c, n)[k].pc != 0
  {
    U.WalkDiscipline(env.libs, mem, c, n, k);
    hide StepAt;
  }

  /** The signal path: a reader of the buffer sees exactly the walk from the
      interrupted registers, up to the switch from Go to C, and nothing when the
      interrupted pc is zero; entries past the walked ones and their terminator
      are untouched. The depth of the walk is the size asked for, as an `int`. */
  lemma SignalShowsWalk(env: Env, mem: Memory, sig: Ctx, before: seq<u64>, max: u64)
    requires max <= |before|
    ensures
      var depth: nat := if I32(max) > 0 then I32(max) else 0;
      var walk := Pcs(Visits(env.libs, mem, sig, depth));
      var r := SignalResult(env, mem, sig, before, max);
      && UntilZero(r[..max]) == (if sig.pc == 0 then [] else CutAtAsm(env.asm, walk))
      && IsCut(env.asm, walk, CutAtAsm(env.asm, walk))
      && |walk| <= max
      && forall j :: |walk| < j < |r| || j == |walk| == max < |r| ==> r[j] == before[j]
  {
    var depth: nat := if I32(max) > 0 then I32(max) else 0;
    DepthFits(max);
    var vs := Visits(env.libs, mem, sig, depth);
    forall k | 0 <= k < |vs| && sig.pc != 0 ensures vs[k].pc != 0 {
      WalkNonZero(env, mem, sig, depth, k);
    }
    hide Visits, Pcs, I32;
    var walk := Pcs(vs);
    assert sig.pc == 0 && walk != [] ==> walk[0] == 0;
    assert sig.pc != 0 ==> forall k :: 0 <= k < |walk| ==> walk[k] != 0;
    TerminatedShows(env.asm, walk, before, max);
    CutBounds(env.asm, walk);
  }

  lemma TerminatedShows(asm: Option<AsmBounds>, walk: seq<u64>, before: seq<u64>, max: u64)
    requires |walk| <= max <= |before|
    requires (forall k :: 0 <= k < |walk| ==> walk[k] != 0) || walk[0] == 0
    ensures
      var b := Onto(walk, before);
      var n := |walk|;
      var r := Truncated(asm, if n < max then b[n := 0] else b, n);
      && UntilZero(r[..max]) == (if walk != [] && walk[0] == 0 then [] else CutAtAsm(asm, walk))
      && forall j :: n < j < |r| || j == n == max < |r| ==> r[j] == before[j]
  {
    hide UntilZero;
    var n := |walk|;
    var b := Onto(walk, before);
    var b' := if n < max then b[n := 0] else b;
    assert b'[..n] == walk == walk[..n];
    TruncatedPrefix(asm, b', walk, n);
    var r := Truncated(asm, b', n);
    var seen :=
      if walk != [] && walk[0] == 0 then 0
      else match FirstAsm(asm, walk, n) case None => n case Some(i) => i + 1;
    UntilZeroAt(r[..max], seen);
    assert r[..max][..seen] == walk[..seen];
  }
}
