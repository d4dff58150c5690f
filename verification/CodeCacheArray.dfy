/** The published libraries, and the lookup of the frame rule for a pc. */
module LibraryList {
  import opened Words
  import opened Options
  import opened FrameTable
  import opened CodeCaching

  const MAX_NATIVE_LIBS := 2048

  /** The rule assumed where no table applies: the saved frame pointer and the
      return address lie where rbp points. */
  const DEFAULT_FRAME := FrameDesc(0, 0xffff_ffff, PackCfa(REG_FP, 2 * STACK_SLOT), -2 * STACK_SLOT)

  function FirstContaining(libs: seq<Lib>, a: u64): Option<Lib> {
    if libs == [] then None
    else if libs[0].Contains(a) then Some(libs[0])
    else FirstContaining(libs[1..], a)
  }

  /** The record that governs a pc. */
  function FrameAt(libs: seq<Lib>, pc: u64): FrameDesc {
    match FirstContaining(libs, pc)
    case None => DEFAULT_FRAME
    case Some(lib) =>
      match lib.FrameDescFor(pc)
      case None => DEFAULT_FRAME
      case Some(f) => f
  }

  /** The pc lies outside the bounds, the upper one exclusive, of the first `n` libraries. */
  ghost predicate OutsideFirst(libs: seq<Lib>, n: nat, pc: u64)
    requires n <= |libs|
  {
    forall j :: 0 <= j < n ==> pc < libs[j].minAddress || libs[j].maxAddress <= pc
  }

  /** The record for a pc, by the bounds alone: at the first library that they say holds
      it, what is found in that library's table for the pc's distance from its text base;
      the default one where nothing is found or no bounds hold the pc. */
  ghost predicate IsFrameFor(libs: seq<Lib>, pc: u64, f: FrameDesc) {
    && (OutsideFirst(libs, |libs|, pc) ==> f == DEFAULT_FRAME)
    && forall i :: 0 <= i < |libs| && OutsideFirst(libs, i, pc) && libs[i].minAddress <= pc < libs[i].maxAddress ==>
         f == match FindFrameDesc(libs[i].table, U32(pc - libs[i].textBase)) case Some(d) => d case None => DEFAULT_FRAME
  }

  lemma FrameAtBounds(libs: seq<Lib>, pc: u64)
    ensures IsFrameFor(libs, pc, FrameAt(libs, pc))
  {
    hide FindFrameDesc, DEFAULT_FRAME, FirstContaining;
    forall i | 0 <= i < |libs| && OutsideFirst(libs, i, pc) && libs[i].minAddress <= pc < libs[i].maxAddress
      ensures FirstContaining(libs, pc) == Some(libs[i])
    {
      FirstContainingAt(libs, i, pc);
    }
    if OutsideFirst(libs, |libs|, pc) {
      FirstContainingNone(libs, pc);
    }
  }

  lemma {:induction false} FirstContainingAt(libs: seq<Lib>, k: nat, a: u64)
    requires k < |libs| && libs[k].Contains(a)
    requires forall i :: 0 <= i < k ==> !libs[i].Contains(a)
    ensures FirstContaining(libs, a) == Some(libs[k])
    decreases k
  {
    if k > 0 {
      FirstContainingAt(libs[1..], k - 1, a);
    }
  }

  lemma {:induction false} FirstContainingNone(libs: seq<Lib>, a: u64)
    requires forall i :: 0 <= i < |libs| ==> !libs[i].Contains(a)
    ensures FirstContaining(libs, a) == None
    decreases |libs|
  {
    if libs != [] {
      FirstContainingNone(libs[1..], a);
    }
  }

  class CodeCacheArray {
    const libs: array<CodeCache?>
    var count: nat

    ghost predicate Valid()
      reads this, libs, libs[..]
    {
      && libs.Length == MAX_NATIVE_LIBS
      && count <= MAX_NATIVE_LIBS
      && forall i :: 0 <= i < count ==> libs[i] != null && libs[i].TableValid()
    }

    /** The unwind tables of the libraries. */
    ghost function Tables(): set<object>
      reads this, libs, libs[..]
    {
      set i | 0 <= i < count && i < libs.Length && libs[i] != null && libs[i].dwarfTable != null :: libs[i].dwarfTable
    }

    ghost function View(i: nat): Lib
      requires Valid() && i < count
      reads this, libs, libs[..], Tables()
    {
      assert libs[i].dwarfTable != null ==> libs[i].dwarfTable in Tables();
      libs[i].View()
    }

    /** The libraries a reader sees. */
    ghost function Libs(): (s: seq<Lib>)
      requires Valid()
      reads this, libs, libs[..], Tables()
      ensures |s| == count && forall i :: 0 <= i < count ==> s[i] == View(i)
    {
      LibsUpTo(count)
    }

    ghost function LibsUpTo(n: nat): (s: seq<Lib>)
      requires Valid() && n <= count
      reads this, libs, libs[..], Tables()
      ensures |s| == n && forall i :: 0 <= i < n ==> s[i] == View(i)
    {
      if n == 0 then [] else LibsUpTo(n - 1) + [View(n - 1)]
    }

    constructor ()
      ensures Valid() && fresh(libs) && count == 0
    {
      libs := new CodeCache?[MAX_NATIVE_LIBS](_ => null);
      count := 0;
    }

    /** Appends a library; the caller checks that there is room. */
    method Add(lib: CodeCache)
      requires Valid() && lib.TableValid() && count < MAX_NATIVE_LIBS
      modifies `count, libs
      ensures Valid() && Libs() == old(Libs()) + [old(lib.View())]
    {
      var index := count;
      ghost var before := Libs();
      ghost var view := lib.View();
      libs[index] := lib;
      count := index + 1;
      assert View(index) == view;
      forall i | 0 <= i < index ensures View(i) == before[i] {
        assert libs[i] == old(libs[i]);
      }
    }

    method FindLibraryByAddress(address: u64) returns (r: CodeCache?)
      requires Valid()
      ensures match FirstContaining(old(Libs()), address)
        case None => r == null
        case Some(lib) => r != null && r.TableValid() && r.View() == lib
    {
      var n := count;
      var i := 0;
      while i < n
        invariant i <= n
        invariant forall j :: 0 <= j < i ==> !Libs()[j].Contains(address)
      {
        assert Libs()[i] == View(i);
        if libs[i].minAddress <= address && address < libs[i].maxAddress {
          FirstContainingAt(Libs(), i, address);
          return libs[i];
        }
        i := i + 1;
      }
      FirstContainingNone(Libs(), address);
      return null;
    }

    /** The record that governs a pc, or the default one. */
    method FindFrame(pc: u64) returns (f: FrameDesc)
      requires Valid()
      ensures f == FrameAt(old(Libs()), pc)
      ensures IsFrameFor(old(Libs()), pc, f)
    {
      FrameAtBounds(Libs(), pc);
      hide FindFrameDesc, DEFAULT_FRAME, IsFrameFor;
      f := DEFAULT_FRAME;
      var lib := FindLibraryByAddress(pc);
      if lib != null {
        var found := lib.FindFrameDesc(pc);
        if found.Some? {
          f := found.value;
        }
      }
    }
  }
}
