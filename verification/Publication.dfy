/** Publication of libraries to concurrent readers: one writer that loads the
    count, stores a slot and stores the new count with release order, and any
    number of readers that load the count with acquire order and then read slots. */
module Publication {
  import opened CodeCaching

  type Slots = map<nat, Lib>

  /** A store to the count, with the slots written before it: what a load that
      acquires it makes visible. */
  datatype Message = Message(count: nat, slots: Slots)

  datatype Writer =
    | Idle
    | Loaded(index: nat, lib: Lib)
    | Stored(index: nat)

  /** A reader: the message it read last, the count it got, and the slots that
      have become visible to it. */
  datatype Reader = Reader(seen: nat, count: nat, view: Slots)

  datatype World = World(slots: Slots, messages: seq<Message>, writer: Writer, readers: map<nat, Reader>)

  datatype Step =
    | LoadCount(lib: Lib)
    | StoreSlot
    | StoreCount
    | Observe(reader: nat, message: nat)

  const START := World(map[], [Message(0, map[])], Idle, map[])

  /** A load may return any store not older than the last one its thread has read. */
  predicate Enabled(w: World, s: Step) {
    match s
    case LoadCount(_) => w.writer.Idle? && w.messages != []
    case StoreSlot => w.writer.Loaded?
    case StoreCount => w.writer.Stored?
    case Observe(r, m) => m < |w.messages| && (r in w.readers ==> w.readers[r].seen <= m)
  }

  function Next(w: World, s: Step): World
    requires Enabled(w, s)
  {
    match s
    case LoadCount(lib) => w.(writer := Loaded(w.messages[|w.messages| - 1].count, lib))
    case StoreSlot => w.(slots := w.slots[w.writer.index := w.writer.lib], writer := Stored(w.writer.index))
    case StoreCount =>
      w.(messages := w.messages + [Message(w.writer.index + 1, w.slots)], writer := Idle)
    case Observe(r, m) =>
      var known := if r in w.readers then w.readers[r].view else map[];
      w.(readers := w.readers[r := Reader(m, w.messages[m].count, known + w.messages[m].slots)])
  }

  ghost predicate Agree(part: Slots, whole: Slots) {
    forall i :: i in part ==> i in whole && part[i] == whole[i]
  }

  /** The slots below `n` are all there. */
  ghost predicate Has(s: Slots, n: nat) {
    forall i: nat :: i < n ==> i in s
  }

  ghost predicate Consistent(w: World) {
    && w.messages != []
    && (forall k :: 0 <= k < |w.messages| ==>
          w.messages[k].count == k && Has(w.messages[k].slots, k) && Agree(w.messages[k].slots, w.slots))
    && (match w.writer
        case Idle => Unwritten(w, |w.messages| - 1)
        case Loaded(i, _) => i == |w.messages| - 1 && Unwritten(w, i)
        case Stored(i) => i == |w.messages| - 1 && Has(w.slots, i + 1) && Unwritten(w, i + 1))
    && forall r :: r in w.readers ==> ReaderOk(w, w.readers[r])
  }

  /** No slot from `n` on has been written. */
  ghost predicate Unwritten(w: World, n: nat) {
    Has(w.slots, n) && forall i :: i in w.slots ==> i < n
  }

  ghost predicate ReaderOk(w: World, r: Reader) {
    r.seen < |w.messages| && r.count == r.seen && Has(r.view, r.count) && Agree(r.view, w.slots)
  }

  lemma StartConsistent()
    ensures Consistent(START)
  {
  }

  lemma StepKeepsConsistent(w: World, s: Step)
    requires Consistent(w) && Enabled(w, s)
    ensures Consistent(Next(w, s))
  {
    var w' := Next(w, s);
    match s
    case LoadCount(_) =>
    case StoreSlot => SlotStoreFresh(w);
    case StoreCount =>
      forall k | 0 <= k < |w'.messages|
        ensures w'.messages[k].count == k && Has(w'.messages[k].slots, k) && Agree(w'.messages[k].slots, w'.slots) {
        if k < |w.messages| {
          assert w'.messages[k] == w.messages[k];
        }
      }
    case Observe(r, m) =>
      assert Agree(w.messages[m].slots, w.slots) && Has(w.messages[m].slots, m);
  }

  /** The slot being stored is one nobody has seen. */
  lemma SlotStoreFresh(w: World)
    requires Consistent(w) && w.writer.Loaded?
    ensures w.writer.index !in w.slots
    ensures Consistent(Next(w, StoreSlot))
  {
    var w' := Next(w, StoreSlot);
    forall k | 0 <= k < |w.messages| ensures Agree(w.messages[k].slots, w'.slots) {
      assert Agree(w.messages[k].slots, w.slots);
    }
    forall r | r in w.readers ensures ReaderOk(w', w'.readers[r]) {
      assert ReaderOk(w, w.readers[r]);
    }
  }

  ghost predicate EnabledRun(w: World, ss: seq<Step>)
    decreases |ss|
  {
    ss == [] || (Enabled(w, ss[0]) && EnabledRun(Next(w, ss[0]), ss[1..]))
  }

  ghost function Run(w: World, ss: seq<Step>): World
    requires EnabledRun(w, ss)
    decreases |ss|
  {
    if ss == [] then w else Run(Next(w, ss[0]), ss[1..])
  }

  ghost predicate Grows(w: World, w': World) {
    && Agree(w.slots, w'.slots)
    && forall r :: r in w.readers ==>
         && r in w'.readers
         && w.readers[r].count <= w'.readers[r].count
         && Agree(w.readers[r].view, w'.readers[r].view)
  }

  /** Along every interleaving, nothing that was written changes, and what a reader
      has seen stays visible to it with counts that never decrease. */
  lemma {:induction false} RunKeeps(w: World, ss: seq<Step>)
    requires Consistent(w) && EnabledRun(w, ss)
    ensures var w' := Run(w, ss);
      Consistent(w') && Grows(w, w')
    decreases |ss|
  {
    if ss != [] {
      var v := Next(w, ss[0]);
      StepKeepsConsistent(w, ss[0]);
      StepKeepsViews(w, ss[0]);
      hide Consistent, Enabled, Next, Grows;
      RunKeeps(v, ss[1..]);
      GrowsOn(w, v, Run(w, ss));
    } else {
      GrowsNot(w);
    }
  }

  lemma GrowsOn(a: World, b: World, c: World)
    requires Grows(a, b) && Grows(b, c)
    ensures Grows(a, c)
  {
  }

  lemma GrowsNot(w: World)
    ensures Grows(w, w)
  {
  }

  lemma StepKeepsViews(w: World, s: Step)
    requires Consistent(w) && Enabled(w, s)
    ensures var v := Next(w, s);
      Grows(w, v)
  {
    match s
    case StoreSlot => SlotStoreFresh(w);
    case Observe(r, m) =>
      if r in w.readers {
        assert ReaderOk(w, w.readers[r]) && Agree(w.messages[m].slots, w.slots);
      }
    case _ =>
  }

  /** Any reader that has observed a count, in any interleaving from the start, reads
      below it only slots that are initialised and visible to it, and however the
      run goes on, each such slot keeps the library it held. */
  lemma ReadersSeePublished(before: seq<Step>, after: seq<Step>, r: nat, i: nat)
    requires EnabledRun(START, before) && EnabledRun(Run(START, before), after)
    requires var w := Run(START, before); r in w.readers && i < w.readers[r].count
    ensures
      var w, w' := Run(START, before), Run(Run(START, before), after);
      && i in w.readers[r].view && i in w.slots && w.readers[r].view[i] == w.slots[i]
      && i in w'.slots && w'.slots[i] == w.slots[i]
      && r in w'.readers && i < w'.readers[r].count && i in w'.readers[r].view && w'.readers[r].view[i] == w.slots[i]
  {
    StartConsistent();
    RunKeeps(START, before);
    var w := Run(START, before);
    RunKeeps(w, after);
    assert ReaderOk(w, w.readers[r]);
  }
}
