/** From mapped images to a traceback: every image is parsed and published, and a
    walk through the published libraries writes the pending calls into a buffer. */
module Loading {
  import opened Words
  import opened Options
  import opened Leb128
  import opened CallFrame
  import opened EhFrame
  import opened DwarfParsing
  import opened TableCorrectness
  import opened Process
  import opened CodeCaching
  import opened LibraryList
  import opened CallChain
  import W = StackWalking

  datatype Symbol = Symbol(start: u64, size: int, name: Name)

  /** An executable mapping of a file: its bounds, the base that the image's addresses
      count from, and the search header of the unwind information, if it has one. */
  datatype Mapping = Mapping(name: Name, low: u64, high: u64, base: u64, image: Image, hdr: Option<int>,
                             junk: int -> Rules, symbols: seq<Symbol>) {
    /** The library that it becomes. One without unwind information is like one whose
        image is empty. */
    function Library(): Mapped {
      var (img, h) := match hdr case Some(h) => (image, h) case None => ([], 0);
      Mapped(Lib(low, high, base, CompileImage(img, h, junk).recs), img, h, junk)
    }
  }

  function Libraries(maps: seq<Mapping>): (ms: seq<Mapped>)
    ensures |ms| == |maps| && forall i :: 0 <= i < |ms| ==> ms[i] == maps[i].Library()
  {
    seq(|maps|, i requires 0 <= i < |maps| => maps[i].Library())
  }

  /** The mappings that find room in the list. */
  function Kept(maps: seq<Mapping>): seq<Mapping> {
    if |maps| <= 2048 then maps else maps[..2048]
  }

  lemma {:induction false} LibsSnoc(ms: seq<Mapped>, m: Mapped)
    ensures Libs(ms + [m]) == Libs(ms) + [m.lib]
    decreases |ms|
  {
    if ms == [] {
      assert ms + [m] == [m] && [m][1..] == [];
    } else {
      assert (ms + [m])[1..] == ms[1..] + [m];
      LibsSnoc(ms[1..], m);
    }
  }

  lemma LibrariesNext(maps: seq<Mapping>, i: nat)
    requires i < |maps|
    ensures Libs(Libraries(maps[..i + 1])) == Libs(Libraries(maps[..i])) + [maps[i].Library().lib]
  {
    hide Mapping.Library, Libs;
    assert Libraries(maps[..i + 1]) == Libraries(maps[..i]) + [maps[i].Library()];
    LibsSnoc(Libraries(maps[..i]), maps[i].Library());
  }

  lemma NoLibraries(maps: seq<Mapping>)
    ensures Libs(Libraries(maps[..0])) == []
  {
  }

  lemma NoUnwindInformation(junk: int -> Rules)
    ensures CompileImage([], 0, junk).recs == []
  {
  }

  /** The library of one mapping, parsed. */
  method ParseLibrary(m: Mapping) returns (lib: CodeCache)
    requires m.low < m.high
    ensures fresh(lib) && lib.TableValid() && lib.View() == m.Library().lib
    ensures lib.minAddress == m.low && lib.maxAddress == m.high && lib.textBase == m.base
    ensures lib.Table() == match m.hdr case Some(h) => CompileImage(m.image, h, m.junk).recs case None => []
  {
    hide CompileImage;
    lib := new CodeCache(m.name, m.low, m.high);
    lib.SetTextBase(m.base);
    match m.hdr {
      case Some(h) =>
        var dwarf := new DwarfParser(m.image, h, m.junk);
        lib.SetDwarfTable(dwarf.table, dwarf.count);
      case None =>
        NoUnwindInformation(m.junk);
    }
    ghost var view := lib.View();
    for i := 0 to |m.symbols|
      invariant lib.Valid() && fresh(lib.blobs) && lib.View() == view
    {
      var s := m.symbols[i];
      lib.Add(s.start, s.size, s.name, false);
    }
    lib.Sort();
  }

  /** Publishes the library of every mapping, in order, as long as there is room. */
  method LoadLibraries(maps: seq<Mapping>) returns (cache: CodeCacheArray)
    requires forall m :: m in maps ==> m.low < m.high
    ensures fresh(cache) && cache.Valid() && cache.Libs() == Libs(Libraries(Kept(maps)))
  {
    hide CodeCacheArray.Libs, Libs, Mapping.Library, Libraries;
    cache := new CodeCacheArray();
    NoLibraries(maps);
    var i := 0;
    while i < |maps|
      invariant 0 <= i <= |maps| && i == cache.count && cache.Valid() && fresh(cache.libs)
      invariant cache.Libs() == Libs(Libraries(maps[..i]))
    {
      if cache.count >= MAX_NATIVE_LIBS {
        break;
      }
      var lib := ParseLibrary(maps[i]);
      cache.Add(lib);
      LibrariesNext(maps, i);
      i := i + 1;
    }
    assert maps[..i] == Kept(maps);
  }

  /** A traceback of a conforming run, through the published libraries: the buffer
      holds the current pc and the return addresses of the calls that have not
      returned, latest first, as many as it has room for. */
  method Traceback(cache: CodeCacheArray, c: Ctx, mem: Memory, callchain: array<u64>, maxDepth: nat,
                   ghost ms: seq<Mapped>, ghost start: Stack, ghost es: seq<Event>)
    returns (depth: int)
    requires cache.Valid() && cache.Libs() == Libs(ms) && maxDepth <= callchain.Length
    requires AllFaithful(ms) && |start.frames| == 1 && ConformingRun(ms, start, es)
    requires var s := Run(start, es); s.mem == mem && s.frames != [] && s.frames[0] == c && Interruptible(ms, s)
    modifies callchain
    ensures var chain := [c.pc] + Pending(es, []);
      && (if maxDepth <= |chain| then depth == maxDepth else |chain| <= depth <= maxDepth)
      && (forall d :: 0 <= d < |chain| && d < maxDepth ==> callchain[d] == chain[d])
      && (!W.StepAt(Libs(ms), mem, Run(start, es).frames[|Run(start, es).frames| - 1]).0 ==> depth <= |chain|)
    ensures forall d :: depth <= d < callchain.Length ==> callchain[d] == old(callchain[d])
  {
    hide AllFaithful, ConformingRun, Run, Pending, Interruptible, W.Visits, W.WalkEnd, W.StepAt, CodeCacheArray.Libs, Libs;
    WalkRecoversCalls(ms, start, es, maxDepth);
    ghost var vs := W.Visits(Libs(ms), mem, c, maxDepth);
    var sc := new W.StackContext(c);
    assert cache.Libs() == Libs(ms) && maxDepth + 0 == maxDepth;
    depth := W.StackWalk(cache, sc, callchain, maxDepth, 0, mem);
    assert depth == |vs|;
    assert forall d :: 0 <= d < callchain.Length ==> callchain[d] == W.Recorded(vs, d + 0, old(callchain[d]));
  }

  /** End to end: image bytes in, the pending calls of any conforming run out. */
  method LoadAndTrace(maps: seq<Mapping>, c: Ctx, mem: Memory, callchain: array<u64>, maxDepth: nat,
                      ghost start: Stack, ghost es: seq<Event>)
    returns (depth: int)
    requires forall m :: m in maps ==> m.low < m.high
    requires forall m :: m in Libraries(Kept(maps)) ==> WellFormed(m.Entries(), m.Align().0)
    requires |start.frames| == 1 && ConformingRun(Libraries(Kept(maps)), start, es)
    requires var s := Run(start, es);
      s.mem == mem && s.frames != [] && s.frames[0] == c && Interruptible(Libraries(Kept(maps)), s)
    requires maxDepth <= callchain.Length
    modifies callchain
    ensures var chain := [c.pc] + Pending(es, []);
      && (if maxDepth <= |chain| then depth == maxDepth else |chain| <= depth <= maxDepth)
      && (forall d :: 0 <= d < |chain| && d < maxDepth ==> callchain[d] == chain[d])
      && (!W.StepAt(Libs(Libraries(Kept(maps))), mem, Run(start, es).frames[|Run(start, es).frames| - 1]).0 ==> depth <= |chain|)
    ensures forall d :: depth <= d < callchain.Length ==> callchain[d] == old(callchain[d])
  {
    hide ConformingRun, Run, Pending, Interruptible, W.StepAt, CodeCacheArray.Libs, Libs, CompileImage, WellFormed,
         Mapped.Entries, Mapped.Align, Kept;
    ghost var ms := Libraries(Kept(maps));
    LoadedFaithful(Kept(maps));
    var cache := LoadLibraries(maps);
    depth := Traceback(cache, c, mem, callchain, maxDepth, ms, start, es);
  }

  lemma LoadedFaithful(maps: seq<Mapping>)
    requires forall m :: m in Libraries(maps) ==> WellFormed(m.Entries(), m.Align().0)
    ensures AllFaithful(Libraries(maps))
  {
    hide WellFormed, Mapped.Entries, Mapped.Align, CompileImage;
  }
}
