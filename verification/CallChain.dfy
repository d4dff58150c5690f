/** The pipeline end to end: image bytes are compiled, looked up and executed,
    and the walk of a stack built by calls recovers those calls. */
module CallChain {
  import opened Words
  import opened Options
  import opened Leb128
  import opened FrameTable
  import opened CallFrame
  import opened EhFrame
  import opened DwarfReference
  import opened RuleRefinement
  import opened TableCorrectness
  import opened Process
  import opened CodeCaching
  import opened LibraryList
  import opened Unwinding
  import W = StackWalking

  /** A library together with the image its unwind table was compiled from. */
  datatype Mapped = Mapped(lib: Lib, img: Image, hdr: int, junk: int -> Rules) {
    function Entries(): seq<Fde> { Fdes(img, FdePointers(img, hdr), junk) }

    function Align(): (u32, i32) { ImageAlignment(img, FdePointers(img, hdr), junk) }

    function Target(pc: u64): u32 { U32(pc - lib.textBase) }

    /** The table is the compiled image, and the image's entries are in order. */
    ghost predicate Faithful() {
      lib.table == CompileImage(img, hdr, junk).recs && WellFormed(Entries(), Align().0)
    }

    /** What entry `k` says at `x` was absorbed by the record before it. */
    ghost predicate Missing(k: nat, x: u32)
      requires k < |Entries()|
    {
      var (ca, da) := Align();
      Swallowed(LastRecord(Table(img, Entries()[..k], ca, da)), ProgramRows(img, Entries()[k], ca, da), x)
    }

    /** So was, at its very end, what entry `k` says there. */
    ghost predicate MissingAtEnd(k: nat)
      requires k < |Entries()|
    {
      var (ca, da) := Align();
      Swallowed(LastRecord(Table(img, Entries()[..k], ca, da)), FdeRows(img, Entries()[k], ca, da), Entries()[k].end)
    }
  }

  /** The first entry that covers a location. */
  function EntryIndex(fdes: seq<Fde>, x: u32): (k: Option<nat>)
    ensures k.Some? ==> k.value < |fdes| && fdes[k.value].start <= x < fdes[k.value].end
    ensures k.None? ==> forall i :: 0 <= i < |fdes| ==> !(fdes[i].start <= x < fdes[i].end)
  {
    if fdes == [] then None
    else if fdes[0].start <= x < fdes[0].end then Some(0)
    else
      match EntryIndex(fdes[1..], x)
      case None =>
        assert forall i :: 0 < i < |fdes| ==> fdes[i] == fdes[1..][i - 1];
        None
      case Some(k) => Some(k + 1)
  }

  /** How many entries lie before a location: those up to the first that starts
      beyond it. */
  function EntriesBefore(fdes: seq<Fde>, x: u32): (k: nat)
    ensures k <= |fdes| && (k < |fdes| ==> x < fdes[k].start)
    ensures forall i :: 0 <= i < k ==> fdes[i].start <= x
  {
    if fdes == [] || x < fdes[0].start then 0
    else
      var k := EntriesBefore(fdes[1..], x);
      assert forall i :: 0 < i <= k ==> fdes[i] == fdes[1..][i - 1];
      k + 1
  }

  /** The first library whose bounds, the upper one exclusive, hold the pc. */
  function Home(ms: seq<Mapped>, pc: u64): (m: Option<Mapped>)
    ensures m.Some? ==> m.value in ms && m.value.lib.minAddress <= pc < m.value.lib.maxAddress
    ensures m.None? ==> forall k :: 0 <= k < |ms| ==> pc < ms[k].lib.minAddress || ms[k].lib.maxAddress <= pc
  {
    if ms == [] then None
    else if ms[0].lib.Contains(pc) then Some(ms[0])
    else Home(ms[1..], pc)
  }

  lemma {:induction false} HomeIsFirst(ms: seq<Mapped>, i: nat, pc: u64)
    requires i < |ms| && ms[i].lib.minAddress <= pc < ms[i].lib.maxAddress
    requires forall j :: 0 <= j < i ==> pc < ms[j].lib.minAddress || ms[j].lib.maxAddress <= pc
    ensures Home(ms, pc) == Some(ms[i])
    decreases i
  {
    if i > 0 {
      HomeIsFirst(ms[1..], i - 1, pc);
    }
  }

  function Libs(ms: seq<Mapped>): seq<Lib> {
    if ms == [] then [] else [ms[0].lib] + Libs(ms[1..])
  }

  lemma {:induction false} HomeLibrary(ms: seq<Mapped>, pc: u64)
    ensures FirstContaining(Libs(ms), pc) == match Home(ms, pc) case Some(m) => Some(m.lib) case None => None
    decreases |ms|
  {
    if ms != [] {
      assert Libs(ms)[1..] == Libs(ms[1..]);
      HomeLibrary(ms[1..], pc);
    }
  }

  /** The caller by the frame-pointer convention. */
  function DefaultCaller(mem: Memory, c: Ctx): Ctx {
    Ctx(Load(mem, c.fp + 8), U64(c.fp + 16), Load(mem, c.fp))
  }

  lemma DefaultFrameUnwinds(mem: Memory, c: Ctx)
    ensures Unwound(DEFAULT_FRAME, mem, c) == Some(DefaultCaller(mem, c))
  {
    PackCfaRoundTrip(REG_FP, 16);
    WrapBack(c.fp);
    hide PackCfa, CfaReg, CfaOff, U64;
    assert CfaReg(DEFAULT_FRAME.cfa) == REG_FP && CfaOff(DEFAULT_FRAME.cfa) == 16;
  }

  lemma WrapBack(fp: u64)
    ensures U64(U64(fp + 16) - 8) == U64(fp + 8) && U64(U64(fp + 16) - 16) == U64(fp)
  {
  }

  /** The caller right after a call, when nothing has been saved yet. */
  function EntryCaller(mem: Memory, c: Ctx): Ctx {
    Ctx(Load(mem, c.sp), U64(c.sp + 8), c.fp)
  }

  lemma EntryFrameUnwinds(f: FrameDesc, mem: Memory, c: Ctx)
    requires f.Rule() == EntryRule()
    ensures Unwound(f, mem, c) == Some(EntryCaller(mem, c))
  {
    PackCfaRoundTrip(REG_SP, STACK_SLOT);
    WrapEntry(c.sp);
    hide PackCfa, CfaReg, CfaOff, U64;
  }

  lemma WrapEntry(sp: u64)
    ensures U64(U64(sp + 8) - 8) == U64(sp)
  {
  }

  /** The caller that this library prescribes. At a covered location that is what
      the standard's row says, unless the row was absorbed: then, and where no entry
      applies, it is the frame-pointer convention. At the very end of an entry, where
      a call that does not return would come back to, it is the row of a function's
      first instruction, unless that was absorbed. */
  ghost function PrescribedCaller(ms: seq<Mapped>, mem: Memory, c: Ctx): Option<Ctx> {
    match Home(ms, c.pc)
    case None => Some(DefaultCaller(mem, c))
    case Some(m) =>
      var x := m.Target(c.pc);
      match EntryIndex(m.Entries(), x)
      case Some(k) =>
        if m.Missing(k, x) then Some(DefaultCaller(mem, c))
        else RowCaller(m.img, mem, c, FdeRowAt(m.Entries()[k], x))
      case None =>
        var n := EntriesBefore(m.Entries(), x);
        if n > 0 && m.Entries()[n - 1].end == x && !m.MissingAtEnd(n - 1) then Some(EntryCaller(mem, c))
        else Some(DefaultCaller(mem, c))
  }

  function RowCaller(img: Image, mem: Memory, c: Ctx, row: Option<DwRow>): Option<Ctx> {
    if row.Some? && CfaComputable(row.value) then UnwindRow(img, mem, c, row.value) else None
  }

  /** If an entry covers the pc and its row was not absorbed, what its program has told
      the parser by then is what the standard's row there asks for. */
  ghost predicate Placed(ms: seq<Mapped>, pc: u64) {
    match Home(ms, pc)
    case None => true
    case Some(m) => PlacedIn(m, m.Target(pc))
  }

  ghost predicate PlacedIn(m: Mapped, x: u32) {
    match EntryIndex(m.Entries(), x)
    case Some(k) => m.Missing(k, x) || Agrees(m.img, m.Entries()[k], x, m.Align().0, m.Align().1)
    case None => true
  }

  ghost predicate AllFaithful(ms: seq<Mapped>) {
    forall m :: m in ms ==> m.Faithful()
  }

  lemma FaithfulLookup(m: Mapped, pc: u64)
    requires m.Faithful()
    ensures m.lib.FrameDescFor(pc)
      == Lookup(TableCorrectness.Table(m.img, m.Entries(), m.Align().0, m.Align().1), m.Target(pc))
  {
    hide WellFormed, FdeHeldAt, ImageAlignment, Fdes, FdePointers, CompileAll, Lookup, FindFrameDesc;
    ImageIsStream(m.img, FdePointers(m.img, m.hdr), m.junk);
    TableSearchable(m.img, m.Entries(), m.Align().0, m.Align().1);
    FindFrameDescIsLookup(m.lib.table, m.Target(pc));
  }

  /** A covered location: the record found there unwinds as the standard's row. */
  lemma CoveredUnwinds(m: Mapped, mem: Memory, c: Ctx, k: nat)
    requires m.Faithful() && k < |m.Entries()|
    requires var x := m.Target(c.pc);
      m.Entries()[k].start <= x < m.Entries()[k].end
      && (m.Missing(k, x) || Agrees(m.img, m.Entries()[k], x, m.Align().0, m.Align().1))
    ensures var x := m.Target(c.pc);
      match m.lib.FrameDescFor(c.pc)
      case None => m.Missing(k, x)
      case Some(f) =>
        !m.Missing(k, x)
        && Unwound(f, mem, c) == RowCaller(m.img, mem, c, FdeRowAt(m.Entries()[k], x))
  {
    hide WellFormed, FdeHeldAt, ImageAlignment, Fdes, FdePointers, CompileAll, Lookup, FindFrameDesc,
         Swallowed, FdeRowAt, ProgramRows, TableCorrectness.Table, UnwindRow, Unwound, Expressible, Encode;
    var x := m.Target(c.pc);
    var (ca, da) := m.Align();
    FaithfulLookup(m, c.pc);
    LookupMisses(m.img, m.Entries(), ca, da, k, x);
    if !m.Missing(k, x) {
      LookupSound(m.img, m.Entries(), ca, da, k, x);
    }
    match m.lib.FrameDescFor(c.pc)
    case None =>
    case Some(f) => RecordUnwindsRow(m.img, mem, c, FdeRowAt(m.Entries()[k], x).value, f);
  }

  /** Outside every entry: nothing is found, or at the very end of an entry the
      entry row, exactly unless it was absorbed. */
  lemma UncoveredUnwinds(m: Mapped, pc: u64)
    requires m.Faithful() && EntryIndex(m.Entries(), m.Target(pc)) == None
    ensures
      var n := EntriesBefore(m.Entries(), m.Target(pc));
      match m.lib.FrameDescFor(pc)
      case None => n > 0 && m.Entries()[n - 1].end == m.Target(pc) ==> m.MissingAtEnd(n - 1)
      case Some(f) =>
        n > 0 && m.Entries()[n - 1].end == m.Target(pc) && !m.MissingAtEnd(n - 1) && f.Rule() == EntryRule()
  {
    hide ImageAlignment, Fdes, FdePointers, CompileAll, Lookup, FindFrameDesc,
         TableCorrectness.Table, EntryRule, Swallowed, FdeRows, EntriesBefore, InRange;
    var x := m.Target(pc);
    var (ca, da) := m.Align();
    var n := EntriesBefore(m.Entries(), x);
    FaithfulLookup(m, pc);
    assert n > 0 ==> m.Entries()[n - 1].end <= x;
    LookupOutside(m.img, m.Entries(), ca, da, n, x);
    if n > 0 && m.Entries()[n - 1].end == x {
      LookupMissesAtEnd(m.img, m.Entries(), ca, da, n - 1);
    }
  }

  /** End to end for one frame: what the stepper's record prescribes is the
      prescribed caller, for every memory and registers. */
  lemma FrameUnwindsTruly(ms: seq<Mapped>, mem: Memory, c: Ctx)
    requires AllFaithful(ms) && Placed(ms, c.pc)
    ensures Unwound(FrameAt(Libs(ms), c.pc), mem, c) == PrescribedCaller(ms, mem, c)
  {
    HomeLibrary(ms, c.pc);
    DefaultFrameUnwinds(mem, c);
    hide Unwound, DEFAULT_FRAME, DefaultCaller, RowCaller, FdeRowAt, FindFrameDesc, Home, FirstContaining, Libs,
         EntriesBefore, EntryIndex, EntryRule, EntryCaller, PlacedIn, Mapped.Missing, Mapped.MissingAtEnd, Mapped.Faithful,
         Mapped.Entries, Mapped.Target;
    match Home(ms, c.pc)
    case None =>
    case Some(m) =>
      assert m.Faithful();
      MappedUnwindsTruly(m, mem, c);
  }

  lemma MappedUnwindsTruly(m: Mapped, mem: Memory, c: Ctx)
    requires m.Faithful() && PlacedIn(m, m.Target(c.pc))
    ensures
      var x := m.Target(c.pc);
      var found := m.lib.FrameDescFor(c.pc);
      match EntryIndex(m.Entries(), x)
      case Some(k) =>
        if found.None? then m.Missing(k, x)
        else
          && !m.Missing(k, x)
          && Unwound(found.value, mem, c) == RowCaller(m.img, mem, c, FdeRowAt(m.Entries()[k], x))
      case None =>
        var n := EntriesBefore(m.Entries(), x);
        var atEnd := n > 0 && m.Entries()[n - 1].end == x && !m.MissingAtEnd(n - 1);
        if found.None? then !atEnd else atEnd && Unwound(found.value, mem, c) == Some(EntryCaller(mem, c))
  {
    hide WellFormed, FdeHeldAt, ImageAlignment, Fdes, FdePointers, CompileAll, FindFrameDesc,
         Swallowed, FdeRowAt, FdeRows, ProgramRows, TableCorrectness.Table, Unwound, RowCaller, EntriesBefore, EntryRule,
         EntryCaller;
    match EntryIndex(m.Entries(), m.Target(c.pc))
    case None =>
      UncoveredUnwinds(m, c.pc);
      if m.lib.FrameDescFor(c.pc).Some? {
        EntryFrameUnwinds(m.lib.FrameDescFor(c.pc).value, mem, c);
      }
    case Some(k) => CoveredUnwinds(m, mem, c, k);
  }

  // ----- runs of calls, bodies and returns -----

  /** Memory and the registers of every active frame, innermost first; an outer
      frame's pc is where it will be returned to. */
  datatype Stack = Stack(mem: Memory, frames: seq<Ctx>)

  datatype Event =
    | Call(ret: u64, target: u64)
    | Body(regs: Ctx, writes: Memory)
    | Return

  function Next(s: Stack, e: Event): Stack
    requires s.frames != []
  {
    var c := s.frames[0];
    match e
    case Call(ret, target) =>
      var slot := U64(c.sp - 8);
      Stack(s.mem[slot := ret], [Ctx(target, slot, c.fp), Ctx(ret, c.sp, c.fp)] + s.frames[1..])
    case Body(regs, writes) => Stack(s.mem + writes, [regs] + s.frames[1..])
    case Return => s.(frames := s.frames[1..])
  }

  /** A frame can be unwound to the next one out. */
  ghost predicate Live(ms: seq<Mapped>, mem: Memory, c: Ctx, d: Ctx) {
    Placed(ms, c.pc) && Guarded(c, d) && PrescribedCaller(ms, mem, c) == Some(d)
  }

  /** The words that unwinding a frame reads. */
  function Slots(ms: seq<Mapped>, c: Ctx): set<u64> {
    Needs(FrameAt(Libs(ms), c.pc), c)
  }

  /** Every waiting frame can be unwound to the next one out. */
  ghost predicate WellStacked(ms: seq<Mapped>, s: Stack) {
    && s.frames != []
    && forall i :: 1 <= i < |s.frames| - 1 ==> Live(ms, s.mem, s.frames[i], s.frames[i + 1])
  }

  /** The address is none that unwinding a waiting frame reads. */
  ghost predicate Spared(ms: seq<Mapped>, s: Stack, a: u64) {
    forall i :: 1 <= i < |s.frames| - 1 ==> a !in Slots(ms, s.frames[i])
  }

  /** What compiled code promises: at a call, that the caller can be unwound from
      where it will be returned to; at a call and in a body, that the return
      addresses and saved frame pointers of the waiting frames are not overwritten,
      while any other word may be, anywhere in memory; and that a return has
      somewhere to go. */
  ghost predicate Conforms(ms: seq<Mapped>, s: Stack, e: Event)
    requires s.frames != []
  {
    var s' := Next(s, e);
    match e
    case Call(_, _) =>
      && Spared(ms, s, U64(s.frames[0].sp - 8))
      && (|s.frames| > 1 ==> Live(ms, s'.mem, s'.frames[1], s.frames[1]))
    case Body(_, writes) => forall a :: a in writes ==> Spared(ms, s, a)
    case Return => |s.frames| > 1
  }

  /** Words that a frame does not read may change. */
  lemma LiveKept(ms: seq<Mapped>, mem: Memory, mem': Memory, c: Ctx, d: Ctx)
    requires AllFaithful(ms) && Live(ms, mem, c, d)
    requires forall a :: a in Slots(ms, c) ==> Load(mem, a) == Load(mem', a)
    ensures Live(ms, mem', c, d)
  {
    hide Placed, PrescribedCaller, Guarded, AllFaithful, FrameAt, Unwound, Needs;
    FrameUnwindsTruly(ms, mem, c);
    FrameUnwindsTruly(ms, mem', c);
    UnwoundReadsNeeds(FrameAt(Libs(ms), c.pc), mem, mem', c);
  }

  /** Every conforming event keeps every waiting frame unwindable. */
  lemma EventKeepsStack(ms: seq<Mapped>, s: Stack, e: Event)
    requires AllFaithful(ms) && WellStacked(ms, s) && Conforms(ms, s, e)
    ensures WellStacked(ms, Next(s, e))
  {
    hide Live, Slots, AllFaithful, Load;
    var s' := Next(s, e);
    var shift := match e case Call(_, _) => 1 case Body(_, _) => 0 case Return => -1;
    forall i | 1 <= i < |s'.frames| - 1 ensures Live(ms, s'.mem, s'.frames[i], s'.frames[i + 1]) {
      var j := i - shift;
      if j >= 1 {
        assert s'.frames[i] == s.frames[j] && s'.frames[i + 1] == s.frames[j + 1];
        assert Live(ms, s.mem, s.frames[j], s.frames[j + 1]);
        SlotsKept(ms, s, e, j);
        LiveKept(ms, s.mem, s'.mem, s'.frames[i], s'.frames[i + 1]);
      } else {
        assert s'.frames[2] == s.frames[1];
      }
    }
  }

  lemma SlotsKept(ms: seq<Mapped>, s: Stack, e: Event, j: nat)
    requires s.frames != [] && Conforms(ms, s, e) && 1 <= j < |s.frames| - 1
    ensures forall a :: a in Slots(ms, s.frames[j]) ==> Load(s.mem, a) == Load(Next(s, e).mem, a)
  {
    hide Live, Slots;
    forall a | a in Slots(ms, s.frames[j]) ensures Load(s.mem, a) == Load(Next(s, e).mem, a) {
      match e
      case Call(_, _) => assert a != U64(s.frames[0].sp - 8);
      case Body(_, writes) => assert a !in writes;
      case Return =>
    }
  }

  /** The stack discipline of compilers is one way to keep that promise: where each
      waiting frame's slots lie at or above its stack pointer, a body may write
      anything that ends below its own return address. */
  lemma WritingBelowConforms(ms: seq<Mapped>, s: Stack, regs: Ctx, writes: Memory)
    requires WellStacked(ms, s)
    requires forall i, a :: 1 <= i < |s.frames| - 1 && a in Slots(ms, s.frames[i]) ==> s.frames[i].sp <= a
    requires |s.frames| > 1 ==> forall a :: a in writes ==> a + 16 <= s.frames[1].sp
    ensures Conforms(ms, s, Body(regs, writes))
  {
    hide Slots, Placed, PrescribedCaller;
    forall a | a in writes ensures Spared(ms, s, a) {
      forall i | 1 <= i < |s.frames| - 1 ensures a !in Slots(ms, s.frames[i]) {
        StackClimbs(ms, s, i);
      }
    }
  }

  lemma {:induction false} StackClimbs(ms: seq<Mapped>, s: Stack, i: nat)
    requires WellStacked(ms, s) && 1 <= i < |s.frames|
    ensures s.frames[1].sp <= s.frames[i].sp
    decreases i
  {
    hide Placed, PrescribedCaller;
    if i > 1 {
      StackClimbs(ms, s, i - 1);
      assert Live(ms, s.mem, s.frames[i - 1], s.frames[i - 1 + 1]);
    }
  }

  ghost predicate ConformingRun(ms: seq<Mapped>, s: Stack, es: seq<Event>)
    requires s.frames != []
    decreases |es|
  {
    if es == [] then true
    else Conforms(ms, s, es[0]) && Next(s, es[0]).frames != [] && ConformingRun(ms, Next(s, es[0]), es[1..])
  }

  ghost function Run(s: Stack, es: seq<Event>): Stack
    decreases |es|
  {
    if es == [] || s.frames == [] then s else Run(Next(s, es[0]), es[1..])
  }

  /** The return addresses of the calls that have not returned, latest first. */
  function Pending(es: seq<Event>, acc: seq<u64>): seq<u64>
    decreases |es|
  {
    if es == [] then acc
    else
      match es[0]
      case Call(ret, _) => Pending(es[1..], [ret] + acc)
      case Body(_, _) => Pending(es[1..], acc)
      case Return => Pending(es[1..], if acc == [] then [] else acc[1..])
  }

  lemma {:induction false} RunKeepsStack(ms: seq<Mapped>, s: Stack, es: seq<Event>, acc: seq<u64>)
    requires AllFaithful(ms) && WellStacked(ms, s) && ConformingRun(ms, s, es)
    requires |acc| == |s.frames| - 1 && forall i :: 0 <= i < |acc| ==> s.frames[i + 1].pc == acc[i]
    ensures var s', pending := Run(s, es), Pending(es, acc);
      && WellStacked(ms, s')
      && |s'.frames| == |pending| + 1
      && forall i :: 0 <= i < |pending| ==> s'.frames[i + 1].pc == pending[i]
    decreases |es|
  {
    if es != [] {
      hide WellStacked, AllFaithful;
      EventKeepsStack(ms, s, es[0]);
      var acc' := match es[0] case Call(ret, _) => [ret] + acc case Body(_, _) => acc case Return => acc[1..];
      PendingStep(ms, s, es[0], acc, acc');
      RunKeepsStack(ms, Next(s, es[0]), es[1..], acc');
    }
  }

  lemma PendingStep(ms: seq<Mapped>, s: Stack, e: Event, acc: seq<u64>, acc': seq<u64>)
    requires s.frames != [] && Conforms(ms, s, e)
    requires |acc| == |s.frames| - 1 && forall i :: 0 <= i < |acc| ==> s.frames[i + 1].pc == acc[i]
    requires acc' == match e case Call(ret, _) => [ret] + acc case Body(_, _) => acc case Return => acc[1..]
    ensures var s' := Next(s, e);
      |acc'| == |s'.frames| - 1 && forall i :: 0 <= i < |acc'| ==> s'.frames[i + 1].pc == acc'[i]
  {
    hide Live, Spared;
  }

  /** The running frame is at a point where its unwind rule holds. */
  ghost predicate Interruptible(ms: seq<Mapped>, s: Stack)
    requires s.frames != []
  {
    |s.frames| > 1 ==> Live(ms, s.mem, s.frames[0], s.frames[1])
  }

  lemma StackIsChain(ms: seq<Mapped>, s: Stack)
    requires AllFaithful(ms) && WellStacked(ms, s) && Interruptible(ms, s)
    ensures Chain(Libs(ms), s.mem, s.frames)
  {
    hide Placed, PrescribedCaller, Guarded, Unwound, FrameAt, AllFaithful;
    forall i | 0 <= i < |s.frames| - 1 ensures Linked(Libs(ms), s.mem, s.frames[i], s.frames[i + 1]) {
      assert Live(ms, s.mem, s.frames[i], s.frames[i + 1]);
      FrameUnwindsTruly(ms, s.mem, s.frames[i]);
    }
  }

  /** The walk inverts the calls: after any conforming run of any length from a
      single frame, interrupted where the running frame's rule holds, the walk yields
      the current pc and the return addresses of the calls that have not returned,
      latest first, cut at the depth limit. It stops there when the outermost frame
      cannot be stepped. */
  lemma WalkRecoversCalls(ms: seq<Mapped>, start: Stack, es: seq<Event>, n: nat)
    requires AllFaithful(ms) && |start.frames| == 1 && ConformingRun(ms, start, es)
    requires Run(start, es).frames != [] && Interruptible(ms, Run(start, es))
    ensures
      var s, pending := Run(start, es), Pending(es, []);
      var chain := [s.frames[0].pc] + pending;
      var pcs := W.Pcs(W.Visits(Libs(ms), s.mem, s.frames[0], n));
      && (n <= |chain| ==> pcs == chain[..n])
      && (n > |chain| ==> |chain| <= |pcs| && pcs[..|chain|] == chain)
      && (n > |chain| && !W.StepAt(Libs(ms), s.mem, s.frames[|s.frames| - 1]).0 ==> pcs == chain)
  {
    hide Placed, PrescribedCaller, AllFaithful, W.Visits, W.StepAt, Chain, Run, Pending, ConformingRun;
    RunKeepsStack(ms, start, es, []);
    var s := Run(start, es);
    StackIsChain(ms, s);
    WalkFollowsChain(Libs(ms), s.mem, s.frames, n);
    SamePcs(s.frames, [s.frames[0].pc] + Pending(es, []), W.Visits(Libs(ms), s.mem, s.frames[0], n), n);
  }

  lemma SamePcs(frames: seq<Ctx>, chain: seq<u64>, vs: seq<Ctx>, n: nat)
    requires |frames| == |chain| && forall i :: 0 <= i < |frames| ==> frames[i].pc == chain[i]
    ensures var pcs := W.Pcs(vs);
      && (n <= |chain| && vs == frames[..n] ==> pcs == chain[..n])
      && (|chain| <= |vs| && vs[..|frames|] == frames ==> |chain| <= |pcs| && pcs[..|chain|] == chain)
      && (vs == frames ==> pcs == chain)
  {
  }
}
