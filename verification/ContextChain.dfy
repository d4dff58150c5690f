/** Saved contexts and the calls they stand for: what a traceback of a context shows of
    the stack at the callback that acquired it. */
module ContextChain {
  import opened Words
  import opened Options
  import opened Process
  import opened CallChain
  import C = CgoContexts
  import R = ContextRuns
  import U = Unwinding
  import L = LibraryList
  import W = StackWalking

  // ----- what is saved -----

  /** A step from a frame that is linked to the next one out reaches it. */
  lemma StepReaches(ms: seq<Mapped>, mem: Memory, c: Ctx, d: Ctx)
    requires U.Linked(Libs(ms), mem, c, d)
    ensures W.StepAt(Libs(ms), mem, c) == (true, d)
  {
    hide Libs, U.Unwound, U.Guarded, W.Step;
    U.StepExact(L.FrameAt(Libs(ms), c.pc), mem, c);
  }

  /** A callback saves the frame two calls out: that of its caller's caller. */
  lemma SavedIsFrame(ms: seq<Mapped>, s: Stack, asm: Option<C.AsmBounds>)
    requires AllFaithful(ms) && WellStacked(ms, s) && Interruptible(ms, s) && |s.frames| > 2
    ensures C.Saved(C.Env(Libs(ms), asm), s.mem, s.frames[0]) == s.frames[2]
  {
    StackIsChain(ms, s);
    hide AllFaithful, WellStacked, Interruptible, U.Linked, W.StepAt, Libs;
    assert U.Linked(Libs(ms), s.mem, s.frames[0], s.frames[0 + 1]);
    assert U.Linked(Libs(ms), s.mem, s.frames[1], s.frames[1 + 1]);
    StepReaches(ms, s.mem, s.frames[0], s.frames[1]);
    StepReaches(ms, s.mem, s.frames[1], s.frames[2]);
  }

  // ----- what happens while it is live -----

  /** The number of frames above some that wait, after events that never return into them. */
  function Above(es: seq<Event>, d: nat): Option<nat>
    decreases |es|
  {
    if es == [] then Some(d)
    else
      match es[0]
      case Call(_, _) => Above(es[1..], d + 1)
      case Body(_, _) => Above(es[1..], d)
      case Return => if d > 1 then Above(es[1..], d - 1) else None
  }

  lemma {:induction false} WaitingStay(ms: seq<Mapped>, s: Stack, es: seq<Event>, d: nat)
    requires 1 <= d <= |s.frames| && ConformingRun(ms, s, es) && Above(es, d).Some?
    ensures var k, s' := Above(es, d).value, Run(s, es);
      1 <= k <= |s'.frames| && s'.frames[k..] == s.frames[d..]
    decreases |es|
  {
    if es != [] {
      hide Conforms, Next;
      var d' := EventKeepsWaiting(s, es[0], d);
      WaitingStay(ms, Next(s, es[0]), es[1..], d');
    }
  }

  lemma EventKeepsWaiting(s: Stack, e: Event, d: nat) returns (d': nat)
    requires 1 <= d <= |s.frames| && (e.Return? ==> d > 1)
    ensures d' == match e case Call(_, _) => d + 1 case Body(_, _) => d case Return => d - 1
    ensures d' <= |Next(s, e).frames| && Next(s, e).frames[d'..] == s.frames[d..]
  {
    d' := match e case Call(_, _) => d + 1 case Body(_, _) => d case Return => d - 1;
  }

  /** The waiting frames from any depth on are a chain. */
  lemma WaitingChain(ms: seq<Mapped>, s: Stack, k: nat)
    requires AllFaithful(ms) && WellStacked(ms, s) && 1 <= k <= |s.frames|
    ensures U.Chain(Libs(ms), s.mem, s.frames[k..])
  {
    hide Placed, PrescribedCaller, U.Guarded, U.Unwound, L.FrameAt, AllFaithful, Libs;
    var cs := s.frames[k..];
    forall i | 0 <= i < |cs| - 1 ensures U.Linked(Libs(ms), s.mem, cs[i], cs[i + 1]) {
      assert cs[i] == s.frames[k + i] && cs[i + 1] == s.frames[k + i + 1];
      assert Live(ms, s.mem, s.frames[k + i], s.frames[k + i + 1]);
      FrameUnwindsTruly(ms, s.mem, s.frames[k + i]);
    }
  }

  /** The return addresses of the pending calls, past the latest one's. */
  function Waiting(es: seq<Event>): seq<u64> {
    var pending := Pending(es, []);
    if pending == [] then [] else pending[1..]
  }

  /** The words that unwinding the saved frame reads are as they were. */
  ghost predicate SlotsStand(ms: seq<Mapped>, s: Stack, s': Stack)
    requires |s.frames| > 2
  {
    |s.frames| > 3 ==> forall a :: a in Slots(ms, s.frames[2]) ==> Load(s.mem, a) == Load(s'.mem, a)
  }

  /** While a frame waits, they are. */
  lemma {:induction false} SlotsStay(ms: seq<Mapped>, s: Stack, es: seq<Event>, d: nat)
    requires 1 <= d < |s.frames| - 1 && ConformingRun(ms, s, es) && Above(es, d).Some?
    ensures forall a :: a in Slots(ms, s.frames[d]) ==> Load(s.mem, a) == Load(Run(s, es).mem, a)
    decreases |es|
  {
    if es != [] {
      hide Conforms, Next, Slots, Load;
      var d' := EventKeepsWaiting(s, es[0], d);
      SlotsKept(ms, s, es[0], d);
      assert Next(s, es[0]).frames[d'..][0] == s.frames[d..][0];
      assert |Next(s, es[0]).frames[d'..]| == |s.frames[d..]|;
      SlotsStay(ms, Next(s, es[0]), es[1..], d');
    }
  }

  /** The saved frame and those that wait below it are still a chain. */
  lemma SavedChain(ms: seq<Mapped>, s: Stack, s': Stack, k: nat)
    requires AllFaithful(ms) && WellStacked(ms, s) && |s.frames| > 2 && SlotsStand(ms, s, s')
    requires WellStacked(ms, s') && 1 <= k <= |s'.frames| && s'.frames[k..] == s.frames[3..]
    ensures U.Chain(Libs(ms), s'.mem, s.frames[2..])
  {
    hide Placed, PrescribedCaller, U.Guarded, U.Unwound, L.FrameAt, AllFaithful, Libs, Slots, Load;
    WaitingChain(ms, s', k);
    var cs := s.frames[2..];
    if |s.frames| > 3 {
      assert Live(ms, s.mem, s.frames[2], s.frames[2 + 1]);
      LiveKept(ms, s.mem, s'.mem, s.frames[2], s.frames[3]);
      FrameUnwindsTruly(ms, s'.mem, s.frames[2]);
    }
    forall i | 0 <= i < |cs| - 1 ensures U.Linked(Libs(ms), s'.mem, cs[i], cs[i + 1]) {
      if i > 0 {
        assert cs[i] == s.frames[3..][i - 1] && cs[i + 1] == s.frames[3..][i - 1 + 1];
        assert U.Linked(Libs(ms), s'.mem, s'.frames[k..][i - 1], s'.frames[k..][i - 1 + 1]);
      }
    }
  }

  /** A walk from the saved frame, after any conforming events that do not return from
      its function and leave its slots as they were, yields the calls that were pending
      at the callback, past its caller. */
  lemma SavedWalk(ms: seq<Mapped>, start: Stack, es: seq<Event>, later: seq<Event>, n: nat)
    requires AllFaithful(ms) && |start.frames| == 1 && ConformingRun(ms, start, es)
    requires var s := Run(start, es);
      |s.frames| > 2 && ConformingRun(ms, s, later) && Above(later, 3).Some? && SlotsStand(ms, s, Run(s, later))
    ensures
      var s, chain := Run(start, es), Waiting(es);
      var mem := Run(s, later).mem;
      var walk := W.Pcs(W.Visits(Libs(ms), mem, s.frames[2], n));
      && |chain| == |s.frames| - 2
      && (n <= |chain| ==> walk == chain[..n])
      && (n > |chain| ==> |chain| <= |walk| && walk[..|chain|] == chain)
      && (n > |chain| && !W.StepAt(Libs(ms), mem, s.frames[|s.frames| - 1]).0 ==> walk == chain)
  {
    hide AllFaithful, WellStacked, ConformingRun, Run, Pending, W.Visits, W.StepAt, U.Chain, Libs, Above, SlotsStand;
    OneWellStacked(ms, start);
    RunKeepsStack(ms, start, es, []);
    var s, chain := Run(start, es), Pending(es, []);
    RunKeepsStack(ms, s, later, chain);
    WaitingStay(ms, s, later, 3);
    var s', k := Run(s, later), Above(later, 3).value;
    SavedChain(ms, s, s', k);
    U.WalkFollowsChain(Libs(ms), s'.mem, s.frames[2..], n);
    SamePcs(s.frames[2..], chain[1..], W.Visits(Libs(ms), s'.mem, s.frames[2], n), n);
  }

  lemma OneWellStacked(ms: seq<Mapped>, s: Stack)
    requires |s.frames| == 1
    ensures WellStacked(ms, s)
  {
  }

  // ----- what a traceback shows -----

  /** The walk from the frame saved at a callback, as memory is after later events. */
  ghost function SavedWalkOf(ms: seq<Mapped>, s: Stack, later: seq<Event>): seq<u64>
    requires |s.frames| > 2
  {
    W.Pcs(W.Visits(Libs(ms), Run(s, later).mem, s.frames[2], 32))
  }

  /** The outermost frame cannot be stepped. */
  ghost predicate OutermostStops(ms: seq<Mapped>, s: Stack, later: seq<Event>)
    requires s.frames != []
  {
    !W.StepAt(Libs(ms), Run(s, later).mem, s.frames[|s.frames| - 1]).0
  }

  /** What the traceback `pes[t]` copies out of the context that the callback acquired. */
  ghost function Copy(
    ms: seq<Mapped>, s: Stack, asm: Option<C.AsmBounds>, pool: seq<C.Slot>, pes: seq<C.Event>, i: nat, t: nat): seq<u64>
    requires s.frames != [] && C.ValidPool(pool) && i < C.POOL_SIZE && t < |pes| && pes[t].Traceback?
  {
    var env := C.Env(Libs(ms), asm);
    C.Copied(env, R.RunPool(env, C.Next(env, pool, C.Acquire(s.frames[0], s.mem)), pes[..t]), i, pes[t].max, pes[t].mem)
  }

  /** As many words as were asked for, at most 32, that begin with the truncated walk. */
  ghost predicate Shows(copied: seq<u64>, max: u64, asm: Option<C.AsmBounds>, walk: seq<u64>) {
    && |copied| == (if max < 32 then max else 32)
    && forall j :: 0 <= j < |copied| && j < |walk| ==> copied[j] == C.Truncated(asm, walk, |walk|)[j]
  }

  /** The purpose of contexts: after a callback acquired one, every traceback of it,
      in any interleaving with other contexts, returns the same calls, those that were
      pending when C called into Go, past the callback's caller and cut at the switching
      routine. Until the first traceback the function whose frame is saved may go on and
      call into Go, and anything may run above it, as long as that conforms, the function
      has not returned and its slots stand; afterwards memory may do anything. */
  lemma ContextShowsCalls(
    ms: seq<Mapped>, start: Stack, es: seq<Event>, later: seq<Event>, asm: Option<C.AsmBounds>,
    pool: seq<C.Slot>, pes: seq<C.Event>, i: nat, t: nat)
    requires AllFaithful(ms) && |start.frames| == 1 && ConformingRun(ms, start, es)
    requires var s := Run(start, es);
      |s.frames| > 2 && Interruptible(ms, s)
      && ConformingRun(ms, s, later) && Above(later, 3).Some? && SlotsStand(ms, s, Run(s, later))
    requires C.ValidPool(pool) && C.FirstFree(pool, 0) == Some(i)
    requires t < |pes| && R.Keeps(pes, i) && pes[t].Traceback? && pes[t].slot == i
    requires R.FirstWalk(pes, i) == Some(Run(Run(start, es), later).mem)
    ensures i < C.POOL_SIZE
    ensures 32 <= |Waiting(es)| ==> SavedWalkOf(ms, Run(start, es), later) == Waiting(es)[..32]
    ensures 32 > |Waiting(es)| ==> Waiting(es) <= SavedWalkOf(ms, Run(start, es), later)
    ensures 32 > |Waiting(es)| && OutermostStops(ms, Run(start, es), later)
      ==> SavedWalkOf(ms, Run(start, es), later) == Waiting(es)
    ensures Shows(Copy(ms, Run(start, es), asm, pool, pes, i, t), pes[t].max, asm, SavedWalkOf(ms, Run(start, es), later))
  {
    hide AllFaithful, WellStacked, ConformingRun, Run, Pending, Interruptible, W.Visits, W.StepAt, Libs, Above, SlotsStand, C.Saved, C.Walked,
         C.Truncated, C.Copied, R.FirstWalk, R.RunPool, R.Keeps, C.FirstFree, C.Next, W.Pcs;
    var env, s := C.Env(Libs(ms), asm), Run(start, es);
    OneWellStacked(ms, start);
    RunKeepsStack(ms, start, es, []);
    SavedIsFrame(ms, s, asm);
    SavedWalk(ms, start, es, later, 32);
    R.TracebacksAgree(env, pool, s.frames[0], s.mem, pes, i, t);
    var acquired := C.Next(env, pool, C.Acquire(s.frames[0], s.mem));
    R.WalkedEntries(env, Run(s, later).mem, acquired[i]);
    FrontOf(C.Walked(env, Run(s, later).mem, acquired[i]), pes[t].max);
  }

  lemma FrontOf(a: seq<u64>, max: u64)
    requires |a| == C.STACK_MAX
    ensures var c := a[..if max < C.STACK_MAX then max else C.STACK_MAX];
      forall j, n :: 0 <= j < |c| && j < n <= |a| ==> c[j] == a[..n][j]
  {
  }
}
