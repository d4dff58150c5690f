/** What lookups in a compiled image mean, in terms of the image's own
    programs: never a wrong rule, and exactly when none at all. */
module TableCorrectness {
  import opened Words
  import opened Options
  import opened Leb128
  import opened FrameTable
  import opened CallFrame
  import opened EhFrame
  import opened DwarfReference
  import opened RuleRefinement
  import opened EmittedRules

  /** Entries in address order, without overlap, whose advances stay in range. */
  ghost predicate WellFormed(fdes: seq<Fde>, codeAlign: u32) {
    && (forall i :: 0 <= i < |fdes| ==>
          fdes[i].start <= fdes[i].end && InRange(fdes[i].prog, fdes[i].start, fdes[i].end, codeAlign))
    && (forall i, j :: 0 <= i < j < |fdes| ==> fdes[i].end <= fdes[j].start)
  }

  /** The row that the entry's own common information entry establishes. */
  function InitialRow(o: Own): Option<DwRow> {
    Established(o.initial, DwState(BLANK_ROW, [], None), o.dataAlign)
  }

  /** The standard's row for `pc`: the program as it is meant, under the factors of the
      entry's own common information entry, from the row which that establishes. */
  function FdeRowAt(f: Fde, pc: u32): Option<DwRow> {
    match f.own
    case None => None
    case Some(o) =>
      match InitialRow(o)
      case None => None
      case Some(r) => RowAt(o.prog, f.start, pc, DwState(r, [], Some(r)), o.codeAlign, o.dataAlign)
  }

  /** What the parser, under the image's factors, has been told at `pc`. */
  function FdeHeldAt(img: Image, f: Fde, pc: u32, codeAlign: u32, dataAlign: i32): Held {
    HeldAt(img, f.prog, f.start, pc, ENTRY_HELD, UNKNOWN, codeAlign, dataAlign)
  }

  /** The standard's row for `pc` asks for just that. */
  predicate Agrees(img: Image, f: Fde, pc: u32, codeAlign: u32, dataAlign: i32) {
    var held, row := FdeHeldAt(img, f, pc, codeAlign, dataAlign), FdeRowAt(f, pc);
    held.Known() && row.Some? && held == Asked(img, row.value)
  }

  /** The rows that the entry's program emits. */
  function ProgramRows(img: Image, f: Fde, codeAlign: u32, dataAlign: i32): seq<FrameDesc> {
    Emissions(img, f.prog, Machine(f.start, INITIAL_RULES, f.junk), f.end, codeAlign, dataAlign)
  }

  function Table(img: Image, fdes: seq<Fde>, codeAlign: u32, dataAlign: i32): seq<FrameDesc> {
    AddAll([], Rows(img, fdes, codeAlign, dataAlign))
  }

  // ----- positions of the rows -----

  lemma FdeRowsShape(img: Image, f: Fde, codeAlign: u32, dataAlign: i32)
    requires f.start <= f.end && InRange(f.prog, f.start, f.end, codeAlign)
    ensures Within(ProgramRows(img, f, codeAlign, dataAlign), f.start, f.end)
    ensures Within(FdeRows(img, f, codeAlign, dataAlign), f.start, f.end)
  {
    EmissionsWithin(img, f.prog, Machine(f.start, INITIAL_RULES, f.junk), f.end, codeAlign, dataAlign);
    WithinSnoc(ProgramRows(img, f, codeAlign, dataAlign), Terminator(f), f.start, f.end);
  }

  lemma WithinSnoc(es: seq<FrameDesc>, e: FrameDesc, start: u32, end: u32)
    requires Within(es, start, end) && e.loc == end == e.locEnd && start <= end
    ensures Within(es + [e], start, end)
  {
  }

  /** Rows in order, in a range, none ending beyond it. */
  ghost predicate Between(es: seq<FrameDesc>, start: u32, end: u32) {
    && Ascending(es)
    && forall i :: 0 <= i < |es| ==> start <= es[i].loc <= end && es[i].locEnd <= end
  }

  lemma BetweenConcat(a: seq<FrameDesc>, b: seq<FrameDesc>, start: u32, mid: u32, mid': u32, end: u32)
    requires Between(a, start, mid) && Between(b, mid', end) && start <= mid <= mid' <= end
    ensures Between(a + b, start, end)
  {
    var es := a + b;
    forall i | 0 <= i < |es| ensures start <= es[i].loc <= end && es[i].locEnd <= end {
      if i >= |a| {
        assert es[i] == b[i - |a|];
      }
    }
    forall i, j | 0 <= i < j < |es| ensures es[i].loc <= es[j].loc {
      if i < |a| {
        assert es[i] == a[i];
        if j >= |a| {
          assert es[j] == b[j - |a|];
        }
      } else {
        assert es[i] == b[i - |a|] && es[j] == b[j - |a|];
      }
    }
  }

  lemma {:induction false} RowsBetween(img: Image, fdes: seq<Fde>, codeAlign: u32, dataAlign: i32, start: u32, end: u32)
    requires WellFormed(fdes, codeAlign) && start <= end
    requires forall f :: f in fdes ==> start <= f.start && f.end <= end
    ensures Between(Rows(img, fdes, codeAlign, dataAlign), start, end)
    decreases |fdes|
  {
    if fdes != [] {
      hide FdeRows, InRange;
      var f, rest := fdes[0], fdes[1..];
      FdeRowsShape(img, f, codeAlign, dataAlign);
      WellFormedParts(fdes, 0, codeAlign);
      RowsBetween(img, rest, codeAlign, dataAlign, f.end, end);
      BetweenConcat(FdeRows(img, f, codeAlign, dataAlign), Rows(img, rest, codeAlign, dataAlign),
                    start, f.end, f.end, end);
    }
  }

  lemma WellFormedParts(fdes: seq<Fde>, k: nat, codeAlign: u32)
    requires WellFormed(fdes, codeAlign) && k < |fdes|
    ensures WellFormed(fdes[..k], codeAlign) && WellFormed(fdes[k + 1..], codeAlign)
    ensures forall f :: f in fdes[..k] ==> f.end <= fdes[k].start
    ensures forall f :: f in fdes[k + 1..] ==> fdes[k].end <= f.start
  {
    hide InRange;
  }

  /** What follows the program rows of entry `k` in the stream. */
  function RowsAfter(img: Image, fdes: seq<Fde>, k: nat, codeAlign: u32, dataAlign: i32): seq<FrameDesc>
    requires k < |fdes|
  {
    [Terminator(fdes[k])] + Rows(img, fdes[k + 1..], codeAlign, dataAlign)
  }

  lemma RowsAround(img: Image, fdes: seq<Fde>, k: nat, codeAlign: u32, dataAlign: i32)
    requires k < |fdes|
    ensures Rows(img, fdes, codeAlign, dataAlign)
      == Rows(img, fdes[..k], codeAlign, dataAlign) + ProgramRows(img, fdes[k], codeAlign, dataAlign)
         + RowsAfter(img, fdes, k, codeAlign, dataAlign)
  {
    hide ProgramRows, Terminator, Rows, FdeRows;
    var f, rest := fdes[k], fdes[k + 1..];
    assert fdes == fdes[..k] + ([f] + rest);
    RowsConcat(img, fdes[..k], [f] + rest, codeAlign, dataAlign);
    RowsCons(img, f, rest, codeAlign, dataAlign);
    FdeRowsSplit(img, f, codeAlign, dataAlign);
  }

  lemma ShapesAround(img: Image, fdes: seq<Fde>, k: nat, codeAlign: u32, dataAlign: i32)
    requires WellFormed(fdes, codeAlign) && k < |fdes|
    ensures Between(Rows(img, fdes[..k], codeAlign, dataAlign), 0, fdes[k].start)
    ensures Within(ProgramRows(img, fdes[k], codeAlign, dataAlign), fdes[k].start, fdes[k].end)
    ensures Between(RowsAfter(img, fdes, k, codeAlign, dataAlign), fdes[k].end, 0xffff_ffff)
    ensures Ascending(Rows(img, fdes, codeAlign, dataAlign))
  {
    hide InRange, ProgramRows, Terminator, Rows, FdeRows;
    var f := fdes[k];
    WellFormedParts(fdes, k, codeAlign);
    RowsBetween(img, fdes[..k], codeAlign, dataAlign, 0, f.start);
    RowsBetween(img, fdes[k + 1..], codeAlign, dataAlign, f.end, 0xffff_ffff);
    RowsBetween(img, fdes, codeAlign, dataAlign, 0, 0xffff_ffff);
    FdeRowsShape(img, f, codeAlign, dataAlign);
    TerminatorBetween(f);
    BetweenConcat([Terminator(f)], Rows(img, fdes[k + 1..], codeAlign, dataAlign), f.end, f.end, f.end, 0xffff_ffff);
  }

  lemma TerminatorBetween(f: Fde)
    ensures Between([Terminator(f)], f.end, f.end)
    ensures Terminator(f).loc == f.end == Terminator(f).locEnd && Terminator(f).Rule() == EntryRule()
  {
  }

  lemma FdeRowsSplit(img: Image, f: Fde, codeAlign: u32, dataAlign: i32)
    ensures FdeRows(img, f, codeAlign, dataAlign) == ProgramRows(img, f, codeAlign, dataAlign) + [Terminator(f)]
  {
    hide Emissions;
  }

  /** The table of a well-formed image is one that binary search works on. */
  lemma TableSearchable(img: Image, fdes: seq<Fde>, codeAlign: u32, dataAlign: i32)
    requires WellFormed(fdes, codeAlign)
    ensures var t := Table(img, fdes, codeAlign, dataAlign);
      StrictlySorted(t) && forall i :: 0 <= i < |t| ==> t[i].loc <= t[i].locEnd
  {
    hide InRange, Rows, AddAll;
    var es := Rows(img, fdes, codeAlign, dataAlign);
    RowsBetween(img, fdes, codeAlign, dataAlign, 0, 0xffff_ffff);
    RowsOrdered(img, fdes, codeAlign, dataAlign);
    AddAllSorted([], es);
    RecordsAreRows([], es);
  }

  lemma {:induction false} RowsOrdered(img: Image, fdes: seq<Fde>, codeAlign: u32, dataAlign: i32)
    requires WellFormed(fdes, codeAlign)
    ensures forall e :: e in Rows(img, fdes, codeAlign, dataAlign) ==> e.loc <= e.locEnd
    decreases |fdes|
  {
    if fdes != [] {
      hide FdeRows, InRange;
      FdeRowsShape(img, fdes[0], codeAlign, dataAlign);
      WellFormedParts(fdes, 0, codeAlign);
      RowsOrdered(img, fdes[1..], codeAlign, dataAlign);
    }
  }

  // ----- soundness -----

  lemma EntryCarried(f: Fde)
    ensures Carried(ENTRY_HELD, INITIAL_RULES) && Carried(UNKNOWN, f.junk)
  {
  }

  /** For a covered location at which what was told is known, the entry's own rows say
      that; it is the encoding of a row if and only if the row asks for the same. */
  lemma FdeRefines(img: Image, f: Fde, codeAlign: u32, dataAlign: i32, pc: u32, row: DwRow)
    requires f.start <= f.end && InRange(f.prog, f.start, f.end, codeAlign) && f.start <= pc
    requires FdeHeldAt(img, f, pc, codeAlign, dataAlign).Known()
    ensures
      var held := FdeHeldAt(img, f, pc, codeAlign, dataAlign);
      var e := Governing(ProgramRows(img, f, codeAlign, dataAlign), pc);
      && e.Some? && Says(e.value, held)
      && (Expressible(img, row) && e.value.Rule() == Encode(img, row) <==> held == Asked(img, row))
  {
    EntryCarried(f);
    hide Carried, HeldAt, Emissions, Governing, Encode, Expressible, Asked, InRange, Says;
    ProgramRefines(img, f.prog, Machine(f.start, INITIAL_RULES, f.junk), f.end, codeAlign, dataAlign,
                   ENTRY_HELD, UNKNOWN, pc, row);
  }

  /** Compilation of a whole image, exactly: a record found for a covered location says
      what its entry's program has told the parser, and carries the rule of the standard's
      row there, under the entry's own common information entry, if and only if that row
      asks for the same. Merging, overwriting, the other entries, and errors that have
      passed make no difference. */
  lemma LookupSound(img: Image, fdes: seq<Fde>, codeAlign: u32, dataAlign: i32, k: nat, pc: u32)
    requires WellFormed(fdes, codeAlign) && k < |fdes|
    requires fdes[k].start <= pc < fdes[k].end
    requires FdeHeldAt(img, fdes[k], pc, codeAlign, dataAlign).Known()
    ensures
      var row := FdeRowAt(fdes[k], pc);
      var found := Lookup(Table(img, fdes, codeAlign, dataAlign), pc);
      found.Some? ==>
        && Says(found.value, FdeHeldAt(img, fdes[k], pc, codeAlign, dataAlign))
        && (row.Some? && Expressible(img, row.value) && found.value.Rule() == Encode(img, row.value)
            <==> Agrees(img, fdes[k], pc, codeAlign, dataAlign))
  {
    hide FdeHeldAt, FdeRowAt, ProgramRows, InRange, Encode, Expressible, Asked, Rows, Governing, AddAll, RowsAfter;
    var row := FdeRowAt(fdes[k], pc);
    FdeRefines(img, fdes[k], codeAlign, dataAlign, pc, if row.Some? then row.value else INITIAL_ROW);
    RowsAround(img, fdes, k, codeAlign, dataAlign);
    ShapesAround(img, fdes, k, codeAlign, dataAlign);
    StreamSound(Rows(img, fdes[..k], codeAlign, dataAlign), ProgramRows(img, fdes[k], codeAlign, dataAlign),
                RowsAfter(img, fdes, k, codeAlign, dataAlign), pc);
  }

  /** The entry is meant as the parser takes it: under the image's factors, with the
      program where the parser reads it, and from a row that asks for what the parser
      starts with. */
  predicate Conventional(img: Image, f: Fde, codeAlign: u32, dataAlign: i32) {
    && f.own.Some?
    && f.own.value.codeAlign == codeAlign && f.own.value.dataAlign == dataAlign && f.own.value.prog == f.prog
    && InitialRow(f.own.value).Some?
    && Asked(img, InitialRow(f.own.value).value) == ENTRY_HELD
  }

  /** Up to `pc`, every step of the entry's program is one the parser gets right. */
  predicate FdeSupported(img: Image, f: Fde, pc: u32, codeAlign: u32, dataAlign: i32) {
    && Conventional(img, f, codeAlign, dataAlign)
    && var r := InitialRow(f.own.value).value;
    Supported(img, f.prog, f.start, pc, DwState(r, [], Some(r)), None, false, codeAlign, dataAlign)
  }

  lemma SupportedAgrees(img: Image, f: Fde, pc: u32, codeAlign: u32, dataAlign: i32)
    requires FdeSupported(img, f, pc, codeAlign, dataAlign)
    ensures Agrees(img, f, pc, codeAlign, dataAlign)
  {
    hide Supported, RowAt, HeldAt, InitialRow, EncodeCfa, RowFp;
    var r := InitialRow(f.own.value).value;
    SupportedHeld(img, f.prog, f.start, pc, DwState(r, [], Some(r)), UNKNOWN, None, codeAlign, dataAlign);
  }

  /** In a stream of rows, the last row at or before `x` decides what is found. */
  lemma StreamSound(before: seq<FrameDesc>, mine: seq<FrameDesc>, after: seq<FrameDesc>, x: u32)
    requires Ascending(before + mine + after)
    requires forall i :: 0 <= i < |after| ==> x < after[i].loc
    requires Governing(mine, x).Some?
    ensures var found := Lookup(AddAll([], before + mine + after), x);
      found.Some? ==> found.value.Rule() == Governing(mine, x).value.Rule()
  {
    hide AddAll, Governing;
    var all := before + mine + after;
    GoverningBeyond(after, x);
    GoverningConcat(before + mine, after, x);
    GoverningConcat(before, mine, x);
    CompressionPreservesRules([], all, x);
    assert [] + all == all;
  }

  // ----- exactly when nothing is found -----

  lemma {:induction false} SplitAt(es: seq<FrameDesc>, x: u32) returns (a: seq<FrameDesc>, b: seq<FrameDesc>)
    requires Ascending(es)
    ensures es == a + b
    ensures forall i :: 0 <= i < |a| ==> a[i].loc <= x
    ensures forall i :: 0 <= i < |b| ==> x < b[i].loc
    decreases |es|
  {
    if es == [] || es[|es| - 1].loc <= x {
      a, b := es, [];
    } else {
      a, b := SplitAt(es[..|es| - 1], x);
      assert es == a + (b + [es[|es| - 1]]);
      b := b + [es[|es| - 1]];
    }
  }

  lemma AscendingParts(a: seq<FrameDesc>, b: seq<FrameDesc>)
    requires Ascending(a + b)
    ensures Ascending(a) && Ascending(b)
    ensures a != [] ==> forall i :: 0 <= i < |b| ==> a[|a| - 1].loc <= b[i].loc
  {
    forall i, j | 0 <= i < j < |a| ensures a[i].loc <= a[j].loc {
      assert a[i] == (a + b)[i] && a[j] == (a + b)[j];
    }
    forall i, j | 0 <= i < j < |b| ensures b[i].loc <= b[j].loc {
      assert b[i] == (a + b)[|a| + i] && b[j] == (a + b)[|a| + j];
    }
    forall i | a != [] && 0 <= i < |b| ensures a[|a| - 1].loc <= b[i].loc {
      assert a[|a| - 1] == (a + b)[|a| - 1] && b[i] == (a + b)[|a| + i];
    }
  }

  /** Only the rows up to `x` decide what is found for `x`, and if there are any
      the last record they leave is the one. */
  lemma LookupByPrefix(a: seq<FrameDesc>, b: seq<FrameDesc>, x: u32)
    requires Ascending(a + b)
    requires forall i :: 0 <= i < |a| ==> a[i].loc <= x
    requires forall i :: 0 <= i < |b| ==> x < b[i].loc
    ensures var t := AddAll([], a);
      Governing(AddAll([], a + b), x) == if t == [] then None else Some(t[|t| - 1])
    ensures AddAll([], a) == [] <==> a == []
  {
    AscendingParts(a, b);
    AddAllSorted([], a);
    AddAllConcat([], a, b);
    LaterRowsStable(AddAll([], a), b, x);
  }

  function LastRecord(t: seq<FrameDesc>): Option<FrameDesc> {
    if t == [] then None else Some(t[|t| - 1])
  }

  /** The record that the first `k` entries leave last: its rule is the entry
      row's, since every entry ends with that. */
  lemma LastBeforeEnd(img: Image, fdes: seq<Fde>, k: nat, codeAlign: u32, dataAlign: i32)
    requires WellFormed(fdes, codeAlign) && k <= |fdes|
    ensures
      match LastRecord(Table(img, fdes[..k], codeAlign, dataAlign))
      case None => k == 0
      case Some(r) => k > 0 && r.Rule() == EntryRule() && r.loc <= fdes[k - 1].end && r.locEnd <= fdes[k - 1].end
  {
    hide InRange, EntryRule, AddAll, Rows;
    NoRows(img, codeAlign, dataAlign);
    EmptyTable();
    if k > 0 {
      var es := Rows(img, fdes[..k], codeAlign, dataAlign);
      RowsBetween(img, fdes[..k], codeAlign, dataAlign, 0, fdes[k - 1].end);
      LastRowIsEntry(img, fdes[..k], codeAlign, dataAlign);
      AddAllSorted([], es);
      RecordsAreRows([], es);
      assert AddAll([], es)[|AddAll([], es)| - 1] in AddAll([], es);
    }
  }

  lemma EmptyTable()
    ensures AddAll([], []) == []
  {
  }

  lemma LastRowIsEntry(img: Image, fdes: seq<Fde>, codeAlign: u32, dataAlign: i32)
    requires fdes != []
    ensures var es := Rows(img, fdes, codeAlign, dataAlign);
      es != [] && es[|es| - 1].Rule() == EntryRule()
  {
    var n := |fdes| - 1;
    assert fdes == fdes[..n] + [fdes[n]];
    RowsConcat(img, fdes[..n], [fdes[n]], codeAlign, dataAlign);
    RowsCons(img, fdes[n], [], codeAlign, dataAlign);
    assert [fdes[n]] + [] == [fdes[n]];
    FdeRowsSplit(img, fdes[n], codeAlign, dataAlign);
    TerminatorBetween(fdes[n]);
  }

  /** Whether the rows up to a location left no record to be found there: they
      repeat what the record before them says, and that record ends too early. Where
      there is no record before, only the absence of rows leaves none. */
  ghost predicate Swallowed(left: Option<FrameDesc>, rows: seq<FrameDesc>, x: u32) {
    match left
    case None => forall i :: 0 <= i < |rows| ==> x < rows[i].loc
    case Some(r) =>
      && r.locEnd < x
      && forall i :: 0 <= i < |rows| && rows[i].loc <= x ==> rows[i].Rule() == r.Rule() && r.loc < rows[i].loc
  }

  /** In a stream of rows, nothing is found in the range of `mine` exactly when its
      rows up to `x` were swallowed by the record before. */
  lemma StreamMisses(before: seq<FrameDesc>, mine: seq<FrameDesc>, after: seq<FrameDesc>, start: u32, end: u32, x: u32)
    requires Ascending(before + mine + after) && Between(before, 0, start) && Within(mine, start, end)
    requires start <= x <= end && forall i :: 0 <= i < |after| ==> x < after[i].loc
    ensures Lookup(AddAll([], before + mine + after), x) == None
      <==> Swallowed(LastRecord(AddAll([], before)), mine, x)
  {
    hide AddAll, Governing, LastRecord, Between;
    var t := AddAll([], before);
    var near, far := SplitAt(mine, x);
    hide Within;
    NearDecides(before, near, far, after, x, start);
    LeftBefore(before, start);
    SwallowedNear(LastRecord(t), near, far, x);
    NearMisses(t, near, far, start, end, x);
  }

  lemma NearMisses(t: seq<FrameDesc>, near: seq<FrameDesc>, far: seq<FrameDesc>, start: u32, end: u32, x: u32)
    requires Within(near + far, start, end) && x <= end
    requires match LastRecord(t) case None => true case Some(r) => r.loc <= start
    ensures
      (match LastRecord(AddAll(t, near)) case None => true case Some(r) => r.locEnd < x)
      <==> match LastRecord(t)
           case None => near == []
           case Some(r) => r.locEnd < x && forall i :: 0 <= i < |near| ==> near[i].Rule() == r.Rule() && r.loc < near[i].loc
  {
    hide AddAll;
    if near == [] {
      AddAllNone(t);
    } else {
      NearOwner(t, near, far, start, end);
    }
  }

  lemma AddAllNone(t: seq<FrameDesc>)
    ensures AddAll(t, []) == t
  {
  }

  lemma SwallowedNear(left: Option<FrameDesc>, near: seq<FrameDesc>, far: seq<FrameDesc>, x: u32)
    requires forall i :: 0 <= i < |near| ==> near[i].loc <= x
    requires forall i :: 0 <= i < |far| ==> x < far[i].loc
    ensures Swallowed(left, near + far, x)
      <==> match left
           case None => near == []
           case Some(r) => r.locEnd < x && forall i :: 0 <= i < |near| ==> near[i].Rule() == r.Rule() && r.loc < near[i].loc
  {
    var rows := near + far;
    forall i | 0 <= i < |near| ensures near[i] == rows[i] {}
    forall i | 0 <= i < |rows| ensures rows[i] == if i < |near| then near[i] else far[i - |near|] {}
    if near != [] {
      assert near[0] == rows[0];
    }
  }

  lemma NearDecides(before: seq<FrameDesc>, near: seq<FrameDesc>, far: seq<FrameDesc>, after: seq<FrameDesc>, x: u32, start: u32)
    requires Ascending(before + (near + far) + after) && Between(before, 0, start) && start <= x
    requires forall i :: 0 <= i < |near| ==> near[i].loc <= x
    requires forall i :: 0 <= i < |far| ==> x < far[i].loc
    requires forall i :: 0 <= i < |after| ==> x < after[i].loc
    ensures Governing(AddAll([], before + (near + far) + after), x) == LastRecord(AddAll(AddAll([], before), near))
  {
    hide AddAll, Governing;
    var a, b := before + near, far + after;
    assert before + (near + far) + after == a + b;
    AscendingParts(a, b);
    LookupByPrefix(a, b, x);
    AddAllConcat([], before, near);
  }

  lemma NearOwner(t: seq<FrameDesc>, near: seq<FrameDesc>, far: seq<FrameDesc>, start: u32, end: u32)
    requires near != [] && Within(near + far, start, end)
    ensures var t' := AddAll(t, near);
      if Absorbed(t, near) then t' == t else t' != [] && t'[|t'| - 1].locEnd == end
    ensures forall i :: 0 <= i < |near| ==> start <= near[i].loc
  {
    hide AddAll;
    assert forall i :: 0 <= i < |near| ==> near[i] == (near + far)[i];
    LastRecordOwner(t, near, start, end);
  }

  lemma LeftBefore(before: seq<FrameDesc>, start: u32)
    requires Between(before, 0, start)
    ensures match LastRecord(AddAll([], before)) case None => true case Some(r) => r.loc <= start
  {
    hide AddAll;
    AddAllSorted([], before);
    EmptyTable();
  }

  /** Exact completeness: a covered location has no record exactly when every row
      of its entry so far repeats what the last record of the entries before it
      says, and that record lies before them and ends before the location. */
  lemma LookupMisses(img: Image, fdes: seq<Fde>, codeAlign: u32, dataAlign: i32, k: nat, pc: u32)
    requires WellFormed(fdes, codeAlign) && k < |fdes|
    requires fdes[k].start <= pc < fdes[k].end
    ensures Lookup(Table(img, fdes, codeAlign, dataAlign), pc) == None
      <==> Swallowed(LastRecord(Table(img, fdes[..k], codeAlign, dataAlign)),
                     ProgramRows(img, fdes[k], codeAlign, dataAlign), pc)
  {
    hide ProgramRows, InRange, Rows, Governing, AddAll, RowsAfter, Swallowed;
    var f := fdes[k];
    RowsAround(img, fdes, k, codeAlign, dataAlign);
    ShapesAround(img, fdes, k, codeAlign, dataAlign);
    StreamMisses(Rows(img, fdes[..k], codeAlign, dataAlign), ProgramRows(img, f, codeAlign, dataAlign),
                 RowsAfter(img, fdes, k, codeAlign, dataAlign), f.start, f.end, pc);
  }

  /** The same at the very end of an entry that no other entry adjoins, where the
      lookup's bound is inclusive: the entry's rows now include the one that ends it. */
  lemma LookupMissesAtEnd(img: Image, fdes: seq<Fde>, codeAlign: u32, dataAlign: i32, k: nat)
    requires WellFormed(fdes, codeAlign) && k < |fdes|
    requires k + 1 < |fdes| ==> fdes[k].end < fdes[k + 1].start
    ensures Lookup(Table(img, fdes, codeAlign, dataAlign), fdes[k].end) == None
      <==> Swallowed(LastRecord(Table(img, fdes[..k], codeAlign, dataAlign)),
                     FdeRows(img, fdes[k], codeAlign, dataAlign), fdes[k].end)
  {
    hide ProgramRows, InRange, Rows, Governing, AddAll, Swallowed, FdeRows;
    var f, rest := fdes[k], fdes[k + 1..];
    var mine, after := FdeRows(img, f, codeAlign, dataAlign), Rows(img, rest, codeAlign, dataAlign);
    EntryAndRest(img, fdes, k, codeAlign, dataAlign);
    FdeRowsShape(img, f, codeAlign, dataAlign);
    ShapesAround(img, fdes, k, codeAlign, dataAlign);
    RestBeyond(img, fdes, k, codeAlign, dataAlign);
    StreamMisses(Rows(img, fdes[..k], codeAlign, dataAlign), mine, after, f.start, f.end, f.end);
  }

  lemma EntryAndRest(img: Image, fdes: seq<Fde>, k: nat, codeAlign: u32, dataAlign: i32)
    requires k < |fdes|
    ensures Rows(img, fdes, codeAlign, dataAlign)
      == Rows(img, fdes[..k], codeAlign, dataAlign) + FdeRows(img, fdes[k], codeAlign, dataAlign)
         + Rows(img, fdes[k + 1..], codeAlign, dataAlign)
  {
    hide Rows, FdeRows;
    var f, rest := fdes[k], fdes[k + 1..];
    assert fdes == fdes[..k] + ([f] + rest);
    RowsConcat(img, fdes[..k], [f] + rest, codeAlign, dataAlign);
    RowsCons(img, f, rest, codeAlign, dataAlign);
  }

  lemma RestBeyond(img: Image, fdes: seq<Fde>, k: nat, codeAlign: u32, dataAlign: i32)
    requires WellFormed(fdes, codeAlign) && k < |fdes|
    requires k + 1 < |fdes| ==> fdes[k].end < fdes[k + 1].start
    ensures var after := Rows(img, fdes[k + 1..], codeAlign, dataAlign);
      forall i :: 0 <= i < |after| ==> fdes[k].end < after[i].loc
  {
    hide InRange, Rows;
    WellFormedParts(fdes, k, codeAlign);
    if k + 1 < |fdes| {
      RowsBetween(img, fdes[k + 1..], codeAlign, dataAlign, fdes[k + 1].start, 0xffff_ffff);
    } else {
      NoRows(img, codeAlign, dataAlign);
      assert fdes[k + 1..] == [];
    }
  }

  // ----- the condition, read off the programs -----

  /** The rows at or before `x` all say what the row before any function says, so
      none of them needed a record of its own. */
  ghost predicate AllEntryUpTo(rows: seq<FrameDesc>, x: u32) {
    forall i :: 0 <= i < |rows| && rows[i].loc <= x ==> rows[i].Rule() == EntryRule()
  }

  /** For an entry that does not adjoin the one before it, the condition is on
      its own program alone: no record exactly as long as every row so far is the
      entry row. A location in the first entry has one as soon as there is a row. */
  lemma LookupMissesAfterGap(img: Image, fdes: seq<Fde>, codeAlign: u32, dataAlign: i32, k: nat, pc: u32)
    requires WellFormed(fdes, codeAlign) && k < |fdes|
    requires fdes[k].start <= pc < fdes[k].end
    requires k > 0 ==> fdes[k - 1].end < fdes[k].start
    ensures var rows := ProgramRows(img, fdes[k], codeAlign, dataAlign);
      Lookup(Table(img, fdes, codeAlign, dataAlign), pc) == None
      <==> if k > 0 then AllEntryUpTo(rows, pc) else forall i :: 0 <= i < |rows| ==> pc < rows[i].loc
  {
    hide ProgramRows, InRange, Table, EntryRule, Lookup;
    LookupMisses(img, fdes, codeAlign, dataAlign, k, pc);
    LastBeforeEnd(img, fdes, k, codeAlign, dataAlign);
    FdeRowsShape(img, fdes[k], codeAlign, dataAlign);
  }

  /** The last row before `x`. */
  function LastRowBefore(rows: seq<FrameDesc>, x: u32): Option<FrameDesc> {
    if rows == [] then None
    else if rows[|rows| - 1].loc < x then Some(rows[|rows| - 1])
    else LastRowBefore(rows[..|rows| - 1], x)
  }

  /** Whether the entry before `k` got no record at its own end: its last row before
      the end is the entry row and so are those at the end. A program that emits
      nothing before its end leaves this to the record before it. */
  ghost predicate EndsQuietly(img: Image, fdes: seq<Fde>, k: nat, codeAlign: u32, dataAlign: i32)
    requires 0 < k <= |fdes|
  {
    var rows, end := ProgramRows(img, fdes[k - 1], codeAlign, dataAlign), fdes[k - 1].end;
    && (forall i :: 0 <= i < |rows| && rows[i].loc == end ==> rows[i].Rule() == EntryRule())
    && match LastRowBefore(rows, end)
       case Some(r) => r.Rule() == EntryRule()
       case None =>
         match LastRecord(Table(img, fdes[..k - 1], codeAlign, dataAlign))
         case None => false
         case Some(left) => left.loc < end
  }

  /** For an entry that adjoins the one before it: no record past its first location
      exactly as long as every row so far is the entry row and the previous entry
      ended quietly; always, when the program emits no row at all. */
  lemma LookupMissesAdjoining(img: Image, fdes: seq<Fde>, codeAlign: u32, dataAlign: i32, k: nat, pc: u32)
    requires WellFormed(fdes, codeAlign) && 0 < k < |fdes|
    requires fdes[k - 1].end == fdes[k].start < pc < fdes[k].end
    ensures var rows := ProgramRows(img, fdes[k], codeAlign, dataAlign);
      Lookup(Table(img, fdes, codeAlign, dataAlign), pc) == None
      <==> AllEntryUpTo(rows, pc) && (rows == [] || EndsQuietly(img, fdes, k, codeAlign, dataAlign))
  {
    FirstRowAtStart(img, fdes[k].prog, Machine(fdes[k].start, INITIAL_RULES, fdes[k].junk), fdes[k].end, codeAlign, dataAlign);
    hide ProgramRows, InRange, Table, EntryRule, Lookup, EndsQuietly;
    LookupMisses(img, fdes, codeAlign, dataAlign, k, pc);
    LastBeforeEnd(img, fdes, k, codeAlign, dataAlign);
    FdeRowsShape(img, fdes[k], codeAlign, dataAlign);
    LastOfPrevious(img, fdes, k, codeAlign, dataAlign);
  }

  /** The first row of a program, if any, lies at its start. */
  lemma {:induction false} FirstRowAtStart(
    img: Image, prog: seq<Instr>, m: Machine, locEnd: u32, codeAlign: u32, dataAlign: i32)
    ensures var rows := Emissions(img, prog, m, locEnd, codeAlign, dataAlign);
      rows != [] ==> rows[0].loc == m.loc
    decreases |prog|
  {
    hide Exec;
    if prog != [] && !prog[0].AdvanceLoc? {
      ExecKeepsLoc(img, dataAlign, m, prog[0]);
      FirstRowAtStart(img, prog[1..], Exec(img, dataAlign, m, prog[0]), locEnd, codeAlign, dataAlign);
    }
  }

  /** Where the last record of the first `k` entries lies. */
  lemma LastOfPrevious(img: Image, fdes: seq<Fde>, k: nat, codeAlign: u32, dataAlign: i32)
    requires WellFormed(fdes, codeAlign) && 0 < k <= |fdes|
    ensures
      match LastRecord(Table(img, fdes[..k], codeAlign, dataAlign))
      case None => false
      case Some(left) => left.loc < fdes[k - 1].end <==> EndsQuietly(img, fdes, k, codeAlign, dataAlign)
  {
    hide ProgramRows, InRange, Rows, AddAll, EntryRule, LastRowBefore;
    var f := fdes[k - 1];
    var before, rows := Rows(img, fdes[..k - 1], codeAlign, dataAlign), ProgramRows(img, f, codeAlign, dataAlign);
    PrefixRows(img, fdes, k, codeAlign, dataAlign);
    WellFormedParts(fdes, k - 1, codeAlign);
    RowsBetween(img, fdes[..k - 1], codeAlign, dataAlign, 0, f.start);
    LastBeforeEnd(img, fdes, k - 1, codeAlign, dataAlign);
    FdeRowsShape(img, f, codeAlign, dataAlign);
    FdeRowsSplit(img, f, codeAlign, dataAlign);
    TerminatorBetween(f);
    QuietStream(before, rows, Terminator(f), f.start, f.end);
  }

  lemma QuietStream(before: seq<FrameDesc>, rows: seq<FrameDesc>, term: FrameDesc, start: u32, end: u32)
    requires Between(before, 0, start) && Within(rows, start, end) && start <= end
    requires term.loc == end == term.locEnd
    requires var left := LastRecord(AddAll([], before)); left.Some? ==> left.value.Rule() == term.Rule()
    ensures
      match LastRecord(AddAll([], before + (rows + [term])))
      case None => false
      case Some(left) =>
        left.loc < end
        <==> (forall i :: 0 <= i < |rows| && rows[i].loc == end ==> rows[i].Rule() == term.Rule())
             && match LastRowBefore(rows, end)
                case Some(r) => r.Rule() == term.Rule()
                case None => LastRecord(AddAll([], before)).Some? && LastRecord(AddAll([], before)).value.loc < end
  {
    hide AddAll, LastRowBefore;
    var t := AddAll([], before);
    LeftBefore(before, start);
    AddAllSorted([], before);
    var low, high := SplitBelow(rows, end);
    AscendingParts(low, high);
    WithinParts(low, high, start, end);
    SplitRules(rows, low, high, term, end);
    hide Within;
    StreamTable(before, low, high, term);
    LastRowOfSplit(low, high, end);
    hide Between, Ascending, Follows, StrictlySorted, LastRecord;
    QuietEnd(t, low, high, term, end);
    LastRecordOf(t);
    LastRecordOf(AddAll(AddAll(t, low), high + [term]));
  }

  lemma LastRecordOf(t: seq<FrameDesc>)
    ensures LastRecord(t) == if t == [] then None else Some(t[|t| - 1])
  {
  }

  lemma StreamTable(before: seq<FrameDesc>, low: seq<FrameDesc>, high: seq<FrameDesc>, term: FrameDesc)
    ensures AddAll([], before + (low + high + [term])) == AddAll(AddAll(AddAll([], before), low), high + [term])
  {
    hide AddAll;
    assert low + high + [term] == low + (high + [term]);
    AddAllConcat([], before, low + (high + [term]));
    AddAllConcat(AddAll([], before), low, high + [term]);
  }

  lemma WithinParts(low: seq<FrameDesc>, high: seq<FrameDesc>, start: u32, end: u32)
    requires Within(low + high, start, end)
    ensures forall i :: 0 <= i < |low| ==> start <= low[i].loc
    ensures forall i :: 0 <= i < |high| ==> high[i].loc <= end == high[i].locEnd
  {
    var rows := low + high;
    forall i | 0 <= i < |low| ensures low[i] == rows[i] {}
    forall i | 0 <= i < |high| ensures high[i] == rows[|low| + i] {}
  }

  lemma SplitRules(rows: seq<FrameDesc>, low: seq<FrameDesc>, high: seq<FrameDesc>, term: FrameDesc, end: u32)
    requires rows == low + high
    requires forall i :: 0 <= i < |low| ==> low[i].loc < end
    requires forall i :: 0 <= i < |high| ==> end <= high[i].loc <= end
    ensures (forall i :: 0 <= i < |rows| && rows[i].loc == end ==> rows[i].Rule() == term.Rule())
      <==> forall i :: 0 <= i < |high| ==> high[i].Rule() == term.Rule()
  {
    forall i | 0 <= i < |rows| ensures rows[i] == if i < |low| then low[i] else high[i - |low|] {}
    forall i | 0 <= i < |high| ensures high[i] == rows[|low| + i] {}
  }

  lemma PrefixRows(img: Image, fdes: seq<Fde>, k: nat, codeAlign: u32, dataAlign: i32)
    requires 0 < k <= |fdes|
    ensures Rows(img, fdes[..k], codeAlign, dataAlign)
      == Rows(img, fdes[..k - 1], codeAlign, dataAlign) + FdeRows(img, fdes[k - 1], codeAlign, dataAlign)
  {
    hide Rows, FdeRows;
    var f := fdes[k - 1];
    assert fdes[..k] == fdes[..k - 1] + [f];
    RowsConcat(img, fdes[..k - 1], [f], codeAlign, dataAlign);
    RowsCons(img, f, [], codeAlign, dataAlign);
    NoRows(img, codeAlign, dataAlign);
    assert [f] + [] == [f];
  }

  lemma {:induction false} SplitBelow(es: seq<FrameDesc>, x: u32) returns (a: seq<FrameDesc>, b: seq<FrameDesc>)
    requires Ascending(es)
    ensures es == a + b
    ensures forall i :: 0 <= i < |a| ==> a[i].loc < x
    ensures forall i :: 0 <= i < |b| ==> x <= b[i].loc
    decreases |es|
  {
    if es == [] || es[|es| - 1].loc < x {
      a, b := es, [];
    } else {
      a, b := SplitBelow(es[..|es| - 1], x);
      assert es == a + (b + [es[|es| - 1]]);
      b := b + [es[|es| - 1]];
    }
  }

  lemma {:induction false} LastRowOfSplit(a: seq<FrameDesc>, b: seq<FrameDesc>, x: u32)
    requires forall i :: 0 <= i < |a| ==> a[i].loc < x
    requires forall i :: 0 <= i < |b| ==> x <= b[i].loc
    ensures LastRowBefore(a + b, x) == if a == [] then None else Some(a[|a| - 1])
    decreases |b|
  {
    if b == [] {
      assert a + b == a;
    } else {
      assert (a + b)[..|a + b| - 1] == a + b[..|b| - 1];
      LastRowOfSplit(a, b[..|b| - 1], x);
    }
  }

  /** After rows below `end`, rows at `end` and a terminator there, the last record
      lies below `end` exactly when everything at `end` was absorbed. */
  lemma QuietEnd(t: seq<FrameDesc>, low: seq<FrameDesc>, high: seq<FrameDesc>, term: FrameDesc, end: u32)
    requires StrictlySorted(t) && (t != [] ==> t[|t| - 1].loc <= end && t[|t| - 1].Rule() == term.Rule())
    requires Ascending(low) && Follows(t, low) && forall i :: 0 <= i < |low| ==> low[i].loc < end
    requires forall i :: 0 <= i < |high| ==> high[i].loc == end == high[i].locEnd
    requires term.loc == end == term.locEnd
    ensures
      var left := AddAll(AddAll(t, low), high + [term]);
      left != []
      && (left[|left| - 1].loc < end
          <==> (forall i :: 0 <= i < |high| ==> high[i].Rule() == term.Rule())
               && if low != [] then low[|low| - 1].Rule() == term.Rule() else t != [] && t[|t| - 1].loc < end)
  {
    hide AddAll;
    var mid, ends := AddAll(t, low), high + [term];
    AddAllSorted(t, low);
    AddAllNone(t);
    assert ends[|high|] == term;
    assert forall i :: 0 <= i < |high| ==> ends[i] == high[i];
    LastRecordOwner(mid, ends, end, end);
  }

  /** Between the end of one entry and the start of the next, nothing is found;
      at the very end of an entry, only the entry row can be. */
  lemma LookupOutside(img: Image, fdes: seq<Fde>, codeAlign: u32, dataAlign: i32, k: nat, pc: u32)
    requires WellFormed(fdes, codeAlign) && k <= |fdes|
    requires k > 0 ==> fdes[k - 1].end <= pc
    requires k < |fdes| ==> pc < fdes[k].start
    ensures match Lookup(Table(img, fdes, codeAlign, dataAlign), pc)
      case None => true
      case Some(r) => k > 0 && pc == fdes[k - 1].end && r.Rule() == EntryRule()
  {
    hide InRange, EntryRule, AddAll, Rows, Governing, WellFormed;
    var a, b := Rows(img, fdes[..k], codeAlign, dataAlign), Rows(img, fdes[k..], codeAlign, dataAlign);
    assert fdes == fdes[..k] + fdes[k..];
    RowsConcat(img, fdes[..k], fdes[k..], codeAlign, dataAlign);
    AllRowsAscending(img, fdes, codeAlign, dataAlign);
    OutsideShapes(img, fdes, codeAlign, dataAlign, k, pc);
    LookupByPrefix(a, b, pc);
    if k > 0 {
      LastBeforeEnd(img, fdes, k, codeAlign, dataAlign);
    } else {
      assert fdes[..0] == [];
      NoRows(img, codeAlign, dataAlign);
    }
  }

  lemma AllRowsAscending(img: Image, fdes: seq<Fde>, codeAlign: u32, dataAlign: i32)
    requires WellFormed(fdes, codeAlign)
    ensures Ascending(Rows(img, fdes, codeAlign, dataAlign))
  {
    hide InRange, Rows;
    RowsBetween(img, fdes, codeAlign, dataAlign, 0, 0xffff_ffff);
  }

  lemma OutsideShapes(img: Image, fdes: seq<Fde>, codeAlign: u32, dataAlign: i32, k: nat, pc: u32)
    requires WellFormed(fdes, codeAlign) && k <= |fdes|
    requires k > 0 ==> fdes[k - 1].end <= pc
    requires k < |fdes| ==> pc < fdes[k].start
    ensures var a := Rows(img, fdes[..k], codeAlign, dataAlign); forall i :: 0 <= i < |a| ==> a[i].loc <= pc
    ensures var b := Rows(img, fdes[k..], codeAlign, dataAlign); forall i :: 0 <= i < |b| ==> pc < b[i].loc
  {
    hide InRange, Rows;
    NoRows(img, codeAlign, dataAlign);
    assert k == 0 ==> fdes[..k] == [];
    RowsBetween(img, fdes[..k], codeAlign, dataAlign, 0, if k > 0 then fdes[k - 1].end else 0);
    if k < |fdes| {
      RowsBetween(img, fdes[k..], codeAlign, dataAlign, fdes[k].start, 0xffff_ffff);
    } else {
      assert fdes[k..] == [];
    }
  }

  lemma NoRows(img: Image, codeAlign: u32, dataAlign: i32)
    ensures Rows(img, [], codeAlign, dataAlign) == []
  {
  }
}
