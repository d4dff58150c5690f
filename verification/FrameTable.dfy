/** The compiled unwind table: how rows are packed and appended, and what a
    lookup in the table means. */
module FrameTable {
  import opened Words
  import opened Options

  datatype FrameDesc = FrameDesc(loc: u32, locEnd: u32, cfa: i32, fpOff: i32) {
    /** The unwinding content of a record, without its position. */
    function Rule(): (i32, i32) { (cfa, fpOff) }
  }

  const REG_FP: u32 := 6
  const REG_SP: u32 := 7
  const REG_PC: u32 := 16
  const REG_PLT: u32 := 128
  const REG_INVALID: u32 := 255
  const SAME_FP: i32 := -0x8000_0000
  const STACK_SLOT: i32 := 8

  /** Frames are smaller than this, and so are offsets of saved registers. */
  const MAX_FRAME_SIZE := 0x4_0000

  // ----- packing -----

  function PackCfa(reg: u32, off: int): i32 {
    I32(Or(reg, U32(off * 0x100)))
  }

  function CfaReg(cfa: i32): u8 { U32(cfa) % 0x100 }

  function CfaOff(cfa: i32): i32 { cfa / 0x100 }

  function PackPcOffset(off: int): i32 {
    I32(Or(1, U32(off * 2)))
  }

  predicate IsPcOffset(fpOff: i32) { fpOff % 2 == 1 }

  function PcOffset(fpOff: i32): i32 { fpOff / 2 }

  lemma PackCfaRoundTrip(reg: u32, off: int)
    requires reg < 0x100 && -0x80_0000 <= off < 0x80_0000
    ensures CfaReg(PackCfa(reg, off)) == reg && CfaOff(PackCfa(reg, off)) == off
  {
    hide Or, PackCfa;
    PackCfaValue(reg, off);
  }

  lemma PackCfaValue(reg: u32, off: int)
    requires reg < 0x100 && -0x80_0000 <= off < 0x80_0000
    ensures PackCfa(reg, off) == reg + off * 0x100
  {
    hide Or, Pow2;
    var k := if off < 0 then off + 0x100_0000 else off;
    assert U32(off * 0x100) == k * 0x100;
    Pow2Small();
    OrDisjoint(reg, k, 8);
  }

  /** The pc-offset form is recovered, and no even value is mistaken for it. */
  lemma PackPcOffsetRoundTrip(off: int)
    requires -0x4000_0000 <= off < 0x4000_0000
    ensures PackPcOffset(off) == 2 * off + 1
    ensures IsPcOffset(PackPcOffset(off)) && PcOffset(PackPcOffset(off)) == off
    ensures PackPcOffset(off) != SAME_FP && !IsPcOffset(SAME_FP)
  {
    hide Or, Pow2;
    var k := if off < 0 then off + 0x8000_0000 else off;
    assert U32(off * 2) == k * 2;
    Pow2Small();
    OrDisjoint(1, k, 1);
  }

  /** The row every function starts with, and the row after its end: the
      return address has just been pushed and the frame pointer is the caller's. */
  function EntryRule(): (i32, i32) { (PackCfa(REG_SP, STACK_SLOT), SAME_FP) }

  // ----- appending -----

  /** One appended row: it replaces a record at the same location, is dropped
      when the last record already says the same, and is appended otherwise. */
  function AddRecord(t: seq<FrameDesc>, e: FrameDesc): seq<FrameDesc> {
    if t == [] then [e]
    else
      var last := t[|t| - 1];
      if last.loc == e.loc then t[..|t| - 1] + [e]
      else if last.Rule() != e.Rule() then t + [e]
      else t
  }

  function AddAll(t: seq<FrameDesc>, es: seq<FrameDesc>): seq<FrameDesc>
    decreases |es|
  {
    if es == [] then t else AddAll(AddRecord(t, es[0]), es[1..])
  }

  lemma AddAllCons(t: seq<FrameDesc>, e: FrameDesc, es: seq<FrameDesc>)
    ensures AddAll(t, [e] + es) == AddAll(AddRecord(t, e), es)
    ensures AddAll(t, [e]) == AddRecord(t, e) && AddAll(t, []) == t
  {
    assert ([e] + es)[1..] == es;
  }

  ghost predicate StrictlySorted(t: seq<FrameDesc>) {
    forall i, j :: 0 <= i < j < |t| ==> t[i].loc < t[j].loc
  }

  ghost predicate Ascending(es: seq<FrameDesc>) {
    forall i, j :: 0 <= i < j < |es| ==> es[i].loc <= es[j].loc
  }

  /** Every row of `es` lies at or after the end of `t`. */
  ghost predicate Follows(t: seq<FrameDesc>, es: seq<FrameDesc>) {
    t != [] ==> forall i :: 0 <= i < |es| ==> t[|t| - 1].loc <= es[i].loc
  }

  /** The last row at or before `x`: the row that governs `x`. */
  function Governing(es: seq<FrameDesc>, x: u32): Option<FrameDesc> {
    if es == [] then None
    else if es[|es| - 1].loc <= x then Some(es[|es| - 1])
    else Governing(es[..|es| - 1], x)
  }

  /** The linear meaning of a lookup: the governing record, unless `x` lies
      beyond the (inclusive) end it carries. */
  function Lookup(t: seq<FrameDesc>, x: u32): Option<FrameDesc> {
    match Governing(t, x)
    case Some(r) => if x > r.locEnd then None else Some(r)
    case None => None
  }

  ghost predicate SameRule(a: Option<FrameDesc>, b: Option<FrameDesc>) {
    (a.None? && b.None?) || (a.Some? && b.Some? && a.value.Rule() == b.value.Rule())
  }

  lemma {:induction false} GoverningConcat(a: seq<FrameDesc>, b: seq<FrameDesc>, x: u32)
    ensures Governing(a + b, x) == if Governing(b, x).Some? then Governing(b, x) else Governing(a, x)
    decreases |b|
  {
    if b == [] {
      assert a + b == a;
    } else {
      assert (a + b)[|a + b| - 1] == b[|b| - 1];
      if b[|b| - 1].loc > x {
        assert (a + b)[..|a + b| - 1] == a + b[..|b| - 1];
        GoverningConcat(a, b[..|b| - 1], x);
      }
    }
  }

  /** Rows beyond `x` do not matter for `x`. */
  lemma {:induction false} GoverningBeyond(es: seq<FrameDesc>, x: u32)
    requires forall i :: 0 <= i < |es| ==> x < es[i].loc
    ensures Governing(es, x) == None
  {
    if es != [] {
      GoverningBeyond(es[..|es| - 1], x);
    }
  }

  lemma AddRecordSorted(t: seq<FrameDesc>, e: FrameDesc)
    requires StrictlySorted(t) && Follows(t, [e])
    ensures var t' := AddRecord(t, e);
      && t' != [] && StrictlySorted(t') && t'[|t'| - 1].loc <= e.loc
      && t'[|t'| - 1].Rule() == e.Rule()
  {
    if t != [] {
      assert t[|t| - 1].loc <= [e][0].loc;
    }
  }

  lemma AddRecordGoverns(t: seq<FrameDesc>, e: FrameDesc, x: u32)
    requires StrictlySorted(t) && Follows(t, [e])
    ensures SameRule(Governing(AddRecord(t, e), x), Governing(t + [e], x))
    ensures x < e.loc ==> Governing(AddRecord(t, e), x) == Governing(t, x)
  {
    assert (t + [e])[..|t|] == t;
    if t != [] {
      var last := t[|t| - 1];
      assert last.loc <= [e][0].loc;
      var front := t[..|t| - 1];
      assert (front + [e])[..|t| - 1] == front;
      assert t == front + [last];
    }
  }

  lemma {:induction false} AddAllSorted(t: seq<FrameDesc>, es: seq<FrameDesc>)
    requires StrictlySorted(t) && Ascending(es) && Follows(t, es)
    ensures StrictlySorted(AddAll(t, es))
    ensures es != [] ==> EndsWith(AddAll(t, es), es[|es| - 1])
    decreases |es|
  {
    if es != [] {
      hide AddRecord, StrictlySorted, Ascending, Follows;
      AddStep(t, es);
      AddAllSorted(AddRecord(t, es[0]), es[1..]);
      if |es| == 1 {
        assert es[1..] == [];
      } else {
        assert es[1..][|es[1..]| - 1] == es[|es| - 1];
      }
    }
  }

  /** The last record says what `e` says, from a location no later. */
  ghost predicate EndsWith(t: seq<FrameDesc>, e: FrameDesc) {
    t != [] && t[|t| - 1].loc <= e.loc && t[|t| - 1].Rule() == e.Rule()
  }

  lemma AddStep(t: seq<FrameDesc>, es: seq<FrameDesc>)
    requires StrictlySorted(t) && Ascending(es) && Follows(t, es) && es != []
    ensures StrictlySorted(AddRecord(t, es[0])) && Follows(t, [es[0]])
    ensures Ascending(es[1..]) && Follows(AddRecord(t, es[0]), es[1..])
    ensures EndsWith(AddRecord(t, es[0]), es[0])
  {
    AddRecordSorted(t, es[0]);
    var t' := AddRecord(t, es[0]);
    forall i | 0 <= i < |es[1..]| ensures t'[|t'| - 1].loc <= es[1..][i].loc {
      assert es[0].loc <= es[i + 1].loc;
    }
  }

  lemma ReplacePrefix(a: seq<FrameDesc>, b: seq<FrameDesc>, rest: seq<FrameDesc>, x: u32)
    requires SameRule(Governing(a, x), Governing(b, x))
    ensures SameRule(Governing(a + rest, x), Governing(b + rest, x))
  {
    GoverningConcat(a, rest, x);
    GoverningConcat(b, rest, x);
  }

  /** Compression preserves meaning: merging, overwriting and dropping rows
      leaves the rule in force at every location unchanged. */
  lemma {:induction false} CompressionPreservesRules(t: seq<FrameDesc>, es: seq<FrameDesc>, x: u32)
    requires StrictlySorted(t) && Ascending(es) && Follows(t, es)
    ensures SameRule(Governing(AddAll(t, es), x), Governing(t + es, x))
    decreases |es|
  {
    if es == [] {
      assert t + es == t;
    } else {
      hide Governing, AddRecord, SameRule, Ascending, Follows, StrictlySorted, EndsWith;
      var e, rest := es[0], es[1..];
      assert t + [e] + rest == t + es;
      var t' := AddRecord(t, e);
      AddStep(t, es);
      CompressionPreservesRules(t', rest, x);
      AddRecordGoverns(t, e, x);
      ReplacePrefix(t', t + [e], rest, x);
      SameRuleTransitive(Governing(AddAll(t', rest), x), Governing(t' + rest, x), Governing(t + es, x));
    }
  }

  lemma SameRuleTransitive(a: Option<FrameDesc>, b: Option<FrameDesc>, c: Option<FrameDesc>)
    requires SameRule(a, b) && SameRule(b, c)
    ensures SameRule(a, c)
  {
  }

  /** Rows added beyond `x` leave the record found for `x` untouched. */
  lemma {:induction false} LaterRowsStable(t: seq<FrameDesc>, es: seq<FrameDesc>, x: u32)
    requires StrictlySorted(t) && Ascending(es) && Follows(t, es)
    requires forall i :: 0 <= i < |es| ==> x < es[i].loc
    ensures Governing(AddAll(t, es), x) == Governing(t, x)
    decreases |es|
  {
    if es != [] {
      AddStep(t, es);
      AddRecordGoverns(t, es[0], x);
      LaterRowsStable(AddRecord(t, es[0]), es[1..], x);
    }
  }

  lemma {:induction false} AddAllConcat(t: seq<FrameDesc>, a: seq<FrameDesc>, b: seq<FrameDesc>)
    ensures AddAll(t, a + b) == AddAll(AddAll(t, a), b)
    decreases |a|
  {
    if a == [] {
      assert a + b == b;
    } else {
      assert (a + b)[0] == a[0] && (a + b)[1..] == a[1..] + b;
      AddAllConcat(AddRecord(t, a[0]), a[1..], b);
    }
  }

  lemma {:induction false} AddAllGrowth(t: seq<FrameDesc>, es: seq<FrameDesc>)
    ensures |t| <= |AddAll(t, es)| <= |t| + |es|
    decreases |es|
  {
    if es != [] {
      AddAllGrowth(AddRecord(t, es[0]), es[1..]);
    }
  }

  /** All of `es` is absorbed by the last record of `t`. */
  ghost predicate Absorbed(t: seq<FrameDesc>, es: seq<FrameDesc>) {
    && t != []
    && forall i :: 0 <= i < |es| ==> es[i].Rule() == t[|t| - 1].Rule() && es[i].loc != t[|t| - 1].loc
  }

  /** Either everything was absorbed and the table is as before, or the last
      record is one of the new ones and carries their end. */
  lemma {:induction false} LastRecordOwner(t: seq<FrameDesc>, es: seq<FrameDesc>, start: u32, end: u32)
    requires es != []
    requires forall i :: 0 <= i < |es| ==> es[i].locEnd == end && start <= es[i].loc
    ensures var t' := AddAll(t, es);
      if Absorbed(t, es) then t' == t
      else t' != [] && t'[|t'| - 1].locEnd == end && start <= t'[|t'| - 1].loc
    decreases |es|
  {
    var t' := AddRecord(t, es[0]);
    if Absorbed(t, [es[0]]) {
      assert es[0] == [es[0]][0];
      assert t' == t;
      if |es| > 1 {
        LastRecordOwner(t, es[1..], start, end);
        assert Absorbed(t, es[1..]) == Absorbed(t, es) by {
          assert forall i :: 0 < i < |es| ==> es[i] == es[1..][i - 1];
        }
      } else {
        assert es == [es[0]];
      }
    } else {
      assert !Absorbed(t, es) by {
        assert Absorbed(t, es) ==> Absorbed(t, [es[0]]);
      }
      assert t'[|t'| - 1] == es[0];
      OwnerKept(t', es[1..], start, end);
    }
  }

  lemma {:induction false} OwnerKept(t: seq<FrameDesc>, es: seq<FrameDesc>, start: u32, end: u32)
    requires t != [] && t[|t| - 1].locEnd == end && start <= t[|t| - 1].loc
    requires forall i :: 0 <= i < |es| ==> es[i].locEnd == end && start <= es[i].loc
    ensures var t' := AddAll(t, es); t' != [] && t'[|t'| - 1].locEnd == end && start <= t'[|t'| - 1].loc
    decreases |es|
  {
    if es != [] {
      OwnerKept(AddRecord(t, es[0]), es[1..], start, end);
    }
  }

  /** Every record is one of the rows it was built from. */
  lemma {:induction false} RecordsAreRows(t: seq<FrameDesc>, es: seq<FrameDesc>)
    ensures forall r :: r in AddAll(t, es) ==> r in t || r in es
    decreases |es|
  {
    if es != [] {
      RecordsAreRows(AddRecord(t, es[0]), es[1..]);
    }
  }
}
