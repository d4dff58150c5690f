/** Symbols and unwind tables of the loaded libraries, and the binary searches
    over them. */
module CodeCaching {
  import opened Words
  import opened Options
  import opened FrameTable

  type Name = seq<u8>

  datatype CodeBlob = CodeBlob(start: u64, end: u64, name: Name) {
    predicate Contains(a: u64) { start <= a < end }
  }

  // ----- the unwind table index -----

  /** The binary search of the table, from one pair of bounds. */
  function Search(t: seq<FrameDesc>, low: int, high: int, x: u32): Option<FrameDesc>
    requires 0 <= low <= high + 1 <= |t|
    decreases high - low + 1
  {
    if low <= high then
      var mid := (low + high) / 2;
      if t[mid].loc < x then Search(t, mid + 1, high, x)
      else if t[mid].loc > x then Search(t, low, mid - 1, x)
      else Some(t[mid])
    else if low == 0 then None
    else if x > t[low - 1].locEnd then None
    else Some(t[low - 1])
  }

  /** One comparison of the binary search. */
  lemma SearchNarrows(t: seq<FrameDesc>, low: int, high: int, x: u32)
    requires 0 <= low <= high < |t|
    ensures var mid := (low + high) / 2;
      Search(t, low, high, x)
      == if t[mid].loc < x then Search(t, mid + 1, high, x)
         else if t[mid].loc > x then Search(t, low, mid - 1, x)
         else Some(t[mid])
  {
  }

  function FindFrameDesc(t: seq<FrameDesc>, x: u32): Option<FrameDesc> {
    Search(t, 0, |t| - 1, x)
  }

  lemma {:induction false} GoverningIndex(t: seq<FrameDesc>, j: nat, x: u32)
    requires j < |t| && t[j].loc <= x
    requires forall i :: j < i < |t| ==> x < t[i].loc
    ensures Governing(t, x) == Some(t[j])
    decreases |t|
  {
    if j < |t| - 1 {
      GoverningIndex(t[..|t| - 1], j, x);
    }
  }

  lemma {:induction false} SearchIsLookup(t: seq<FrameDesc>, low: int, high: int, x: u32)
    requires StrictlySorted(t) && forall i :: 0 <= i < |t| ==> t[i].loc <= t[i].locEnd
    requires 0 <= low <= high + 1 <= |t|
    requires forall i :: 0 <= i < low ==> t[i].loc < x
    requires forall i :: high < i < |t| ==> x < t[i].loc
    ensures Search(t, low, high, x) == Lookup(t, x)
    decreases high - low + 1
  {
    hide Governing, Search;
    if low <= high {
      SearchNarrows(t, low, high, x);
      var mid := (low + high) / 2;
      if t[mid].loc < x {
        SearchIsLookup(t, mid + 1, high, x);
      } else if t[mid].loc > x {
        SearchIsLookup(t, low, mid - 1, x);
      } else {
        GoverningIndex(t, mid, x);
      }
    } else {
      SearchStops(t, low, high, x);
    }
  }

  /** Where the search stops, the governing record is the one before. */
  lemma SearchStops(t: seq<FrameDesc>, low: int, high: int, x: u32)
    requires 0 <= low == high + 1 <= |t|
    requires forall i :: 0 <= i < low ==> t[i].loc < x
    requires forall i :: high < i < |t| ==> x < t[i].loc
    ensures Search(t, low, high, x) == Lookup(t, x)
  {
    hide Governing;
    if low > 0 {
      GoverningIndex(t, low - 1, x);
    } else {
      GoverningBeyond(t, x);
    }
  }

  /** On a searchable table the binary search is the linear lookup, for every target. */
  lemma FindFrameDescIsLookup(t: seq<FrameDesc>, x: u32)
    requires StrictlySorted(t) && forall i :: 0 <= i < |t| ==> t[i].loc <= t[i].locEnd
    ensures FindFrameDesc(t, x) == Lookup(t, x)
  {
    SearchIsLookup(t, 0, |t| - 1, x);
  }

  // ----- the symbol index -----

  /** By start address, longer symbols first. */
  predicate InOrder(a: CodeBlob, b: CodeBlob) {
    a.start < b.start || (a.start == b.start && a.end >= b.end)
  }

  ghost predicate SortedBlobs(s: seq<CodeBlob>) {
    forall i, j :: 0 <= i < j < |s| ==> InOrder(s[i], s[j])
  }

  /** The first blob that contains the address. */
  function FindBlob(s: seq<CodeBlob>, a: u64): Option<CodeBlob> {
    if s == [] then None
    else if s[0].Contains(a) then Some(s[0])
    else FindBlob(s[1..], a)
  }

  /** How many leading blobs end at or before the address. */
  function Ended(s: seq<CodeBlob>, a: u64): (n: nat)
    ensures n <= |s|
  {
    if s == [] || s[0].end > a then 0 else 1 + Ended(s[1..], a)
  }

  function BlobSearch(s: seq<CodeBlob>, low: int, high: int, a: u64, libName: Name): Name
    requires 0 <= low <= high + 1 <= |s|
    decreases high - low + 1
  {
    if low <= high then
      var mid := (low + high) / 2;
      if s[mid].end <= a then BlobSearch(s, mid + 1, high, a, libName)
      else if s[mid].start > a then BlobSearch(s, low, mid - 1, a, libName)
      else s[mid].name
    else Predecessor(s, low, a, libName)
  }

  lemma BlobSearchNarrows(s: seq<CodeBlob>, low: int, high: int, a: u64, libName: Name)
    requires 0 <= low <= high < |s|
    ensures var mid := (low + high) / 2;
      BlobSearch(s, low, high, a, libName)
      == if s[mid].end <= a then BlobSearch(s, mid + 1, high, a, libName)
         else if s[mid].start > a then BlobSearch(s, low, mid - 1, a, libName)
         else s[mid].name
  {
  }

  lemma BlobSearchStops(s: seq<CodeBlob>, low: int, high: int, a: u64, libName: Name)
    requires 0 <= low == high + 1 <= |s|
    ensures BlobSearch(s, low, high, a, libName) == Predecessor(s, low, a, libName)
  {
  }

  /** The name for an address in no blob: that of the blob before it when the
      address touches its end or it has no size, and the library's otherwise. */
  function Predecessor(s: seq<CodeBlob>, n: int, a: u64, libName: Name): Name
    requires 0 <= n <= |s|
  {
    if n > 0 && (s[n - 1].start == s[n - 1].end || s[n - 1].end == a) then s[n - 1].name else libName
  }

  /** What a linear search answers: the containing blob's name, or else the
      name for an address after the blobs that end before it. */
  function LinearName(s: seq<CodeBlob>, a: u64, libName: Name): Name {
    match FindBlob(s, a)
    case Some(b) => b.name
    case None => Predecessor(s, Ended(s, a), a, libName)
  }

  /** The name for an address, by the blobs' bounds alone: the name of one that holds it;
      where none does, that of the last one that ended by then, if it touches the address
      or has no size; and the library's otherwise. */
  ghost predicate IsNameFor(s: seq<CodeBlob>, a: u64, libName: Name, r: Name) {
    && (forall i :: 0 <= i < |s| && s[i].start <= a < s[i].end ==> r == s[i].name)
    && (OutsideAll(s, a) ==>
          && (forall i :: 0 <= i < |s| && LastBefore(s, i, a) ==>
                r == if s[i].end == a || s[i].start == s[i].end then s[i].name else libName)
          && ((forall i :: 0 <= i < |s| ==> a < s[i].end) ==> r == libName))
  }

  ghost predicate OutsideAll(s: seq<CodeBlob>, a: u64) {
    forall i :: 0 <= i < |s| ==> a < s[i].start || s[i].end <= a
  }

  /** Blob `i` has ended by the address, and none behind it has. */
  ghost predicate LastBefore(s: seq<CodeBlob>, i: nat, a: u64)
    requires i < |s|
  {
    s[i].end <= a && forall j :: i < j < |s| ==> a < s[j].end
  }

  lemma NameByBounds(s: seq<CodeBlob>, a: u64, libName: Name)
    requires Separated(s)
    ensures IsNameFor(s, a, libName, LinearName(s, a, libName))
  {
    hide FindBlob, Ended;
    forall i | 0 <= i < |s| && s[i].start <= a < s[i].end ensures LinearName(s, a, libName) == s[i].name {
      FindBlobAt(s, i, a);
    }
    if OutsideAll(s, a) {
      FindBlobNone(s, a);
      forall i | 0 <= i < |s| && LastBefore(s, i, a) ensures Ended(s, a) == i + 1 {
        EndedAt(s, i + 1, a);
      }
      if forall i :: 0 <= i < |s| ==> a < s[i].end {
        EndedAt(s, 0, a);
      }
    }
  }

  /** Blobs in order, none reaching into a later one. */
  ghost predicate Separated(s: seq<CodeBlob>) {
    && (forall i :: 0 <= i < |s| ==> s[i].start <= s[i].end)
    && (forall i, j :: 0 <= i < j < |s| ==> s[i].end <= s[j].start)
  }

  /** Pairwise disjoint, with no empty blob at the start of a non-empty one. */
  ghost predicate Disjoint(s: seq<CodeBlob>) {
    && (forall i :: 0 <= i < |s| ==> s[i].start <= s[i].end)
    && (forall i, j :: 0 <= i < j < |s| ==>
          && (s[i].end <= s[j].start || s[j].end <= s[i].start)
          && (s[i].start == s[j].start ==> s[i].end == s[j].end))
  }

  /** Non-empty blobs are pairwise disjoint; empty ones may lie anywhere. */
  ghost predicate Apart(s: seq<CodeBlob>) {
    && (forall i :: 0 <= i < |s| ==> s[i].start <= s[i].end)
    && (forall i, j :: 0 <= i < j < |s| && s[i].start < s[i].end && s[j].start < s[j].end ==>
          s[i].end <= s[j].start || s[j].end <= s[i].start)
  }

  lemma SortedDisjointSeparated(s: seq<CodeBlob>)
    requires SortedBlobs(s) && Disjoint(s)
    ensures Separated(s)
  {
  }

  /** Disjointness does not depend on the order of the blobs. */
  lemma DisjointReordered(s: seq<CodeBlob>, r: seq<CodeBlob>)
    requires multiset(r) == multiset(s) && Disjoint(s)
    ensures Disjoint(r)
  {
    forall i | 0 <= i < |r| ensures r[i].start <= r[i].end {
      assert r[i] in multiset(s);
    }
    forall i, j | 0 <= i < j < |r|
      ensures r[i].end <= r[j].start || r[j].end <= r[i].start
      ensures r[i].start == r[j].start ==> r[i].end == r[j].end
    {
      assert r[i] in multiset(s) && r[j] in multiset(s);
      if r[i] == r[j] {
        Twice(r, i, j);
        var a, b := Repeated(s, r[i]);
        assert s[a].end <= s[b].start;
      }
    }
  }

  lemma ApartReordered(s: seq<CodeBlob>, r: seq<CodeBlob>)
    requires multiset(r) == multiset(s) && Apart(s)
    ensures Apart(r)
  {
    forall i | 0 <= i < |r| ensures r[i].start <= r[i].end {
      assert r[i] in multiset(s);
    }
    forall i, j | 0 <= i < j < |r| && r[i].start < r[i].end && r[j].start < r[j].end
      ensures r[i].end <= r[j].start || r[j].end <= r[i].start
    {
      assert r[i] in multiset(s) && r[j] in multiset(s);
      if r[i] == r[j] {
        Twice(r, i, j);
        var a, b := Repeated(s, r[i]);
        assert false;
      }
    }
  }

  lemma Twice(r: seq<CodeBlob>, i: nat, j: nat)
    requires i < j < |r| && r[i] == r[j]
    ensures multiset(r)[r[i]] >= 2
  {
    assert r == r[..j] + r[j..];
    assert r[i] in r[..j] && r[j] in r[j..];
  }

  lemma {:induction false} Repeated(s: seq<CodeBlob>, b: CodeBlob) returns (i: nat, j: nat)
    requires multiset(s)[b] >= 2
    ensures i < j < |s| && s[i] == b == s[j]
    decreases |s|
  {
    var n := |s| - 1;
    assert s == s[..n] + [s[n]];
    if s[n] == b {
      assert b in multiset(s[..n]);
      j := n;
      i :| 0 <= i < n && s[i] == b;
    } else {
      i, j := Repeated(s[..n], b);
    }
  }

  /** A linear search finds the same blob in any order. */
  lemma FindReordered(s: seq<CodeBlob>, r: seq<CodeBlob>, a: u64)
    requires multiset(r) == multiset(s) && Apart(s)
    ensures FindBlob(r, a) == FindBlob(s, a)
  {
    FindBlobIsMember(s, a);
    FindBlobIsMember(r, a);
    if FindBlob(s, a).Some? {
      var b := FindBlob(s, a).value;
      assert b in multiset(r);
      var k :| 0 <= k < |r| && r[k] == b;
      assert FindBlob(r, a).Some?;
    }
    assert forall b :: b in r ==> b in multiset(s);
    if FindBlob(s, a).Some? && FindBlob(r, a).Some? {
      assert FindBlob(r, a).value in multiset(s);
      SameContainer(s, FindBlob(s, a).value, FindBlob(r, a).value, a);
    }
  }

  lemma SameContainer(s: seq<CodeBlob>, b: CodeBlob, b': CodeBlob, a: u64)
    requires Apart(s) && b in s && b' in s && b.Contains(a) && b'.Contains(a)
    ensures b == b'
  {
  }

  lemma {:induction false} FindBlobIsMember(s: seq<CodeBlob>, a: u64)
    ensures match FindBlob(s, a)
      case Some(b) => b in s && b.Contains(a)
      case None => forall b :: b in s ==> !b.Contains(a)
    decreases |s|
  {
    if s != [] {
      FindBlobIsMember(s[1..], a);
    }
  }

  /** After sorting disjoint blobs, the binary search names the blob that the linear
      search found before, and otherwise follows the rule for addresses in no blob. */
  lemma SortedSearchIsFind(s: seq<CodeBlob>, r: seq<CodeBlob>, a: u64, libName: Name)
    requires multiset(r) == multiset(s) && SortedBlobs(r) && Disjoint(s)
    ensures BlobSearch(r, 0, |r| - 1, a, libName)
      == match FindBlob(s, a) case Some(b) => b.name case None => Predecessor(r, Ended(r, a), a, libName)
  {
    hide BlobSearch, FindBlob, Ended, Predecessor;
    DisjointReordered(s, r);
    SortedDisjointSeparated(r);
    BlobSearchIsLinear(r, 0, |r| - 1, a, libName);
    FindReordered(s, r, a);
  }

  lemma {:induction false} FindBlobAt(s: seq<CodeBlob>, k: nat, a: u64)
    requires k < |s| && s[k].Contains(a)
    requires forall i :: 0 <= i < k ==> !s[i].Contains(a)
    ensures FindBlob(s, a) == Some(s[k])
    decreases k
  {
    if k > 0 {
      FindBlobAt(s[1..], k - 1, a);
    }
  }

  lemma {:induction false} FindBlobNone(s: seq<CodeBlob>, a: u64)
    requires forall i :: 0 <= i < |s| ==> !s[i].Contains(a)
    ensures FindBlob(s, a) == None
    decreases |s|
  {
    if s != [] {
      FindBlobNone(s[1..], a);
    }
  }

  lemma {:induction false} EndedAt(s: seq<CodeBlob>, n: nat, a: u64)
    requires n <= |s|
    requires forall i :: 0 <= i < n ==> s[i].end <= a
    requires n < |s| ==> a < s[n].end
    ensures Ended(s, a) == n
    decreases n
  {
    if n > 0 {
      EndedAt(s[1..], n - 1, a);
    }
  }

  lemma LinearNameFound(s: seq<CodeBlob>, a: u64, libName: Name)
    requires FindBlob(s, a).Some?
    ensures LinearName(s, a, libName) == FindBlob(s, a).value.name
  {
  }

  lemma {:induction false} BlobSearchIsLinear(s: seq<CodeBlob>, low: int, high: int, a: u64, libName: Name)
    requires Separated(s) && 0 <= low <= high + 1 <= |s|
    requires forall i :: 0 <= i < low ==> s[i].end <= a
    requires forall i :: high < i < |s| ==> a < s[i].start
    ensures BlobSearch(s, low, high, a, libName) == LinearName(s, a, libName)
    decreases high - low + 1
  {
    hide FindBlob, Ended, Predecessor, BlobSearch, LinearName;
    if low <= high {
      BlobSearchNarrows(s, low, high, a, libName);
      var mid := (low + high) / 2;
      if s[mid].end <= a {
        assert forall i :: 0 <= i < mid ==> s[i].end <= s[mid].start;
        BlobSearchIsLinear(s, mid + 1, high, a, libName);
      } else if s[mid].start > a {
        assert forall i :: mid < i < |s| ==> s[mid].end <= s[i].start;
        BlobSearchIsLinear(s, low, mid - 1, a, libName);
      } else {
        assert forall i :: 0 <= i < mid ==> s[i].end <= s[mid].start;
        FindBlobAt(s, mid, a);
        LinearNameFound(s, a, libName);
      }
    } else {
      BlobSearchEnds(s, low, high, a, libName);
    }
  }

  lemma BlobSearchEnds(s: seq<CodeBlob>, low: int, high: int, a: u64, libName: Name)
    requires 0 <= low == high + 1 <= |s|
    requires forall i :: 0 <= i < low ==> s[i].end <= a
    requires forall i :: high < i < |s| ==> a < s[i].start <= s[i].end
    ensures BlobSearch(s, low, high, a, libName) == LinearName(s, a, libName)
  {
    hide FindBlob, Ended, Predecessor;
    FindBlobNone(s, a);
    EndedAt(s, low, a);
  }

  /** How many leading blobs start at or before the address. */
  function Started(s: seq<CodeBlob>, a: u64): (n: nat)
    ensures n <= |s|
  {
    if s == [] || s[0].start > a then 0 else 1 + Started(s[1..], a)
  }

  lemma {:induction false} StartedAt(s: seq<CodeBlob>, n: nat, a: u64)
    requires n <= |s|
    requires forall i :: 0 <= i < n ==> s[i].start <= a
    requires n < |s| ==> a < s[n].start
    ensures Started(s, a) == n
    decreases n
  {
    if n > 0 {
      StartedAt(s[1..], n - 1, a);
    }
  }

  /** Of the midpoints that halving `[low, high]` probes, the first one inside
      `[k, e]` is `k`. */
  predicate FirstProbe(low: int, high: int, k: int, e: int)
    requires low <= k <= e <= high
    decreases high - low
  {
    var mid := (low + high) / 2;
    if mid < k then FirstProbe(mid + 1, high, k, e)
    else if mid > e then FirstProbe(low, mid - 1, k, e)
    else mid == k
  }

  /** The blobs around a container at `k`, up to the last one that starts at or
      before the address: before it, ended; behind it, empty ones; then later ones. */
  ghost predicate Surrounded(s: seq<CodeBlob>, k: int, e: int, a: u64) {
    && 0 <= k <= e < |s| && s[k].Contains(a)
    && (forall i :: 0 <= i < k ==> s[i].end <= a)
    && (forall i :: k < i <= e ==> s[i].start == s[i].end <= a)
    && (forall i :: e < i < |s| ==> a < s[i].start <= s[i].end)
  }

  lemma {:induction false} ProbeDecides(s: seq<CodeBlob>, low: int, high: int, k: int, e: int, a: u64, libName: Name)
    requires Surrounded(s, k, e, a) && 0 <= low <= k <= e <= high < |s|
    ensures BlobSearch(s, low, high, a, libName) == if FirstProbe(low, high, k, e) then s[k].name else s[e].name
    decreases high - low
  {
    hide BlobSearch;
    BlobSearchNarrows(s, low, high, a, libName);
    var mid := (low + high) / 2;
    if mid < k {
      ProbeDecides(s, mid + 1, high, k, e, a, libName);
    } else if mid > e {
      ProbeDecides(s, low, mid - 1, k, e, a, libName);
    } else if mid > k {
      PastContainer(s, mid + 1, high, k, e, a, libName);
    }
  }

  /** Once the search has passed the container, it ends behind the last empty blob. */
  lemma {:induction false} PastContainer(s: seq<CodeBlob>, low: int, high: int, k: int, e: int, a: u64, libName: Name)
    requires Surrounded(s, k, e, a) && k < e && k < low <= e + 1 && e <= high < |s|
    ensures BlobSearch(s, low, high, a, libName) == s[e].name
    decreases high - low + 1
  {
    hide BlobSearch;
    if low > high {
      BlobSearchStops(s, low, high, a, libName);
    } else {
      BlobSearchNarrows(s, low, high, a, libName);
      var mid := (low + high) / 2;
      if mid <= e {
        PastContainer(s, mid + 1, high, k, e, a, libName);
      } else {
        PastContainer(s, low, mid - 1, k, e, a, libName);
      }
    }
  }

  /** In a sorted array the container has such surroundings. */
  lemma ContainerSurrounded(s: seq<CodeBlob>, k: nat, a: u64) returns (e: nat)
    requires SortedBlobs(s) && Apart(s) && k < |s| && s[k].Contains(a)
    ensures Surrounded(s, k, e, a) && Started(s, a) == e + 1 && Ended(s, a) == k
  {
    e := k;
    while e + 1 < |s| && s[e + 1].start <= a
      invariant k <= e < |s| && s[e].start <= a
    {
      e := e + 1;
    }
    forall i | 0 <= i < k ensures s[i].end <= a {
      assert InOrder(s[i], s[k]);
    }
    forall i | k < i <= e ensures s[i].start == s[i].end <= a {
      assert InOrder(s[k], s[i]) && (i < e ==> InOrder(s[i], s[e]));
    }
    forall i | e < i < |s| ensures a < s[i].start <= s[i].end {
      assert i > e + 1 ==> InOrder(s[e + 1], s[i]);
    }
    forall i | 0 <= i <= e ensures s[i].start <= a {
      assert i < e ==> InOrder(s[i], s[e]);
    }
    StartedAt(s, e + 1, a);
    EndedAt(s, k, a);
  }

  /** Where no blob contains the address, sorting is enough. */
  lemma {:induction false} SearchWithoutContainer(s: seq<CodeBlob>, low: int, high: int, a: u64, libName: Name)
    requires SortedBlobs(s) && 0 <= low <= high + 1 <= |s|
    requires forall i :: 0 <= i < |s| ==> s[i].start <= s[i].end && !s[i].Contains(a)
    requires forall i :: 0 <= i < low ==> s[i].end <= a
    requires forall i :: high < i < |s| ==> a < s[i].start
    ensures BlobSearch(s, low, high, a, libName) == Predecessor(s, Ended(s, a), a, libName)
    decreases high - low + 1
  {
    hide BlobSearch, Ended, Predecessor;
    if low > high {
      BlobSearchStops(s, low, high, a, libName);
      EndedAt(s, low, a);
    } else {
      BlobSearchNarrows(s, low, high, a, libName);
      var mid := (low + high) / 2;
      if s[mid].end <= a {
        forall i | 0 <= i < mid ensures s[i].end <= a {
          assert InOrder(s[i], s[mid]);
        }
        SearchWithoutContainer(s, mid + 1, high, a, libName);
      } else {
        forall i | mid < i < |s| ensures a < s[i].start {
          assert InOrder(s[mid], s[i]);
        }
        SearchWithoutContainer(s, low, mid - 1, a, libName);
      }
    }
  }

  /** The exact answer, with empty symbols anywhere: after sorting, the binary search
      names the blob that the linear search found before if and only if the first
      midpoint that falls on it or on an empty symbol behind it falls on it, a matter
      of indices alone; otherwise it names the last of those empty symbols. */
  lemma SortedSearchExact(s: seq<CodeBlob>, r: seq<CodeBlob>, a: u64, libName: Name)
    requires multiset(r) == multiset(s) && SortedBlobs(r) && Apart(s)
    ensures
      match FindBlob(s, a)
      case None => BlobSearch(r, 0, |r| - 1, a, libName) == Predecessor(r, Ended(r, a), a, libName)
      case Some(b) =>
        var k, e := Ended(r, a), Started(r, a) - 1;
        && 0 <= k <= e <= |r| - 1
        && r[k] == b
        && BlobSearch(r, 0, |r| - 1, a, libName) == if FirstProbe(0, |r| - 1, k, e) then b.name else r[e].name
  {
    hide BlobSearch, FindBlob, Ended, Started, Predecessor, FirstProbe;
    ApartReordered(s, r);
    FindReordered(s, r, a);
    FindBlobIsMember(r, a);
    match FindBlob(s, a)
    case None => SearchWithoutContainer(r, 0, |r| - 1, a, libName);
    case Some(b) =>
      var k :| 0 <= k < |r| && r[k] == b;
      var e := ContainerSurrounded(r, k, a);
      ProbeDecides(r, 0, |r| - 1, k, e, a, libName);
  }

  /** Sorting alone is not enough: an empty symbol at the start of another one
      hides it from the binary search, while the linear search finds it. */
  lemma EmptyBlobHides(big: Name, small: Name, libName: Name)
    requires big != small
    ensures var s := [CodeBlob(100, 110, big), CodeBlob(100, 100, small), CodeBlob(100, 100, small)];
      && SortedBlobs(s)
      && FindBlob(s, 105) == Some(s[0])
      && BlobSearch(s, 0, 2, 105, libName) == small != s[0].name
  {
  }

  /** The library sort, with the only two properties its callers may use: the
      order of equal elements is not one of them. */
  method QSort(s: seq<CodeBlob>) returns (r: seq<CodeBlob>)
    ensures SortedBlobs(r) && multiset(r) == multiset(s)
  {
    r := [];
    for i := 0 to |s|
      invariant SortedBlobs(r) && multiset(r) == multiset(s[..i])
    {
      assert s[..i + 1] == s[..i] + [s[i]];
      r := Insert(r, s[i]);
    }
    assert s[..|s|] == s;
  }

  method Insert(r: seq<CodeBlob>, b: CodeBlob) returns (r': seq<CodeBlob>)
    requires SortedBlobs(r)
    ensures SortedBlobs(r') && multiset(r') == multiset(r) + multiset{b}
  {
    var k := 0;
    while k < |r| && InOrder(r[k], b)
      invariant k <= |r| && forall i :: 0 <= i < k ==> InOrder(r[i], b)
    {
      k := k + 1;
    }
    r' := r[..k] + [b] + r[k..];
    assert r == r[..k] + r[k..];
    InsertSorted(r, b, k);
  }

  lemma InsertSorted(r: seq<CodeBlob>, b: CodeBlob, k: nat)
    requires SortedBlobs(r) && k <= |r|
    requires forall i :: 0 <= i < k ==> InOrder(r[i], b)
    requires k < |r| ==> !InOrder(r[k], b)
    ensures SortedBlobs(r[..k] + [b] + r[k..])
  {
  }

  const NO_MIN_ADDRESS: u64 := 0xffff_ffff_ffff_ffff
  const NO_MAX_ADDRESS: u64 := 0

  /** What an unwinder needs of a published library. */
  datatype Lib = Lib(minAddress: u64, maxAddress: u64, textBase: u64, table: seq<FrameDesc>) {
    predicate Contains(a: u64) { minAddress <= a < maxAddress }

    function FrameDescFor(pc: u64): Option<FrameDesc> {
      FindFrameDesc(table, U32(pc - textBase))
    }
  }

  /** Non-printable characters, as `signed char`, become question marks, and the others stay. */
  function Printable(name: Name): (r: Name)
    ensures |r| == |name| && forall i :: 0 <= i < |r| ==> 0x20 <= r[i] < 0x80
    ensures forall i :: 0 <= i < |r| ==> r[i] == name[i] || (r[i] == 0x3f && (name[i] < 0x20 || 0x80 <= name[i]))
  {
    seq(|name|, i requires 0 <= i < |name| => if 0x20 <= name[i] < 0x80 then name[i] else 0x3f)
  }

  class CodeCache {
    const name: Name
    var minAddress: u64
    var maxAddress: u64
    var textBase: u64
    var dwarfTable: array?<FrameDesc>
    var dwarfTableLength: nat
    var capacity: nat
    var count: nat
    var blobs: array<CodeBlob>

    ghost predicate Valid()
      reads this
    {
      && 0 < capacity == blobs.Length
      && count <= capacity
      && TableValid()
    }

    ghost predicate TableValid()
      reads this
    {
      if dwarfTable == null then dwarfTableLength == 0 else dwarfTableLength <= dwarfTable.Length
    }

    ghost function Blobs(): seq<CodeBlob>
      requires Valid()
      reads this, blobs
    {
      blobs[..count]
    }

    ghost function Table(): seq<FrameDesc>
      requires TableValid()
      reads this, dwarfTable
    {
      if dwarfTable == null then [] else dwarfTable[..dwarfTableLength]
    }

    ghost function View(): Lib
      requires TableValid()
      reads this, dwarfTable
    {
      Lib(minAddress, maxAddress, textBase, Table())
    }

    constructor (name: Name, minAddress: u64, maxAddress: u64)
      ensures Valid() && fresh(blobs) && this.name == name && Blobs() == []
      ensures View() == Lib(minAddress, maxAddress, 0, [])
    {
      this.name, this.minAddress, this.maxAddress := name, minAddress, maxAddress;
      textBase := 0;
      dwarfTable, dwarfTableLength := null, 0;
      capacity, count := 1000, 0;
      blobs := new CodeBlob[1000](_ => CodeBlob(0, 0, []));
    }

    method Expand()
      requires Valid()
      modifies `capacity, `blobs
      ensures Valid() && fresh(blobs) && capacity == 2 * old(capacity) && Blobs() == old(Blobs())
    {
      var bigger := new CodeBlob[capacity * 2](_ => CodeBlob(0, 0, []));
      forall i | 0 <= i < count {
        bigger[i] := blobs[i];
      }
      capacity := capacity * 2;
      blobs := bigger;
    }

    method Add(start: u64, length: int, symbol: Name, updateBounds: bool)
      requires Valid()
      modifies `capacity, `blobs, `count, `minAddress, `maxAddress, blobs
      ensures Valid() && (blobs == old(blobs) || fresh(blobs))
      ensures var end := U64(start + length);
        && Blobs() == old(Blobs()) + [CodeBlob(start, end, Printable(symbol))]
        && minAddress == (if updateBounds && start < old(minAddress) then start else old(minAddress))
        && maxAddress == (if updateBounds && end > old(maxAddress) then end else old(maxAddress))
    {
      var copy := symbol;
      for k := 0 to |copy|
        invariant |copy| == |symbol|
        invariant forall j :: 0 <= j < |copy| ==> copy[j] == if j < k then Printable(symbol)[j] else symbol[j]
      {
        if I8(copy[k]) < 0x20 {
          copy := copy[k := 0x3f];
        }
      }
      assert copy == Printable(symbol);
      if count >= capacity {
        Expand();
      }
      var end := U64(start + length);
      assert blobs[..count] == old(Blobs());
      blobs[count] := CodeBlob(start, end, copy);
      count := count + 1;
      if updateBounds {
        UpdateBounds(start, end);
      }
    }

    method UpdateBounds(start: u64, end: u64)
      modifies `minAddress, `maxAddress
      ensures minAddress == (if start < old(minAddress) then start else old(minAddress))
      ensures maxAddress == (if end > old(maxAddress) then end else old(maxAddress))
    {
      if start < minAddress {
        minAddress := start;
      }
      if end > maxAddress {
        maxAddress := end;
      }
    }

    method Sort()
      requires Valid()
      modifies `minAddress, `maxAddress, blobs
      ensures Valid()
      ensures SortedBlobs(Blobs()) && multiset(Blobs()) == multiset(old(Blobs()))
      ensures forall i, j :: 0 <= i < j < |Blobs()| ==>
        Blobs()[i].start < Blobs()[j].start || (Blobs()[i].start == Blobs()[j].start && Blobs()[i].end >= Blobs()[j].end)
      ensures minAddress == (if count > 0 && old(minAddress) == NO_MIN_ADDRESS then Blobs()[0].start else old(minAddress))
      ensures maxAddress == (if count > 0 && old(maxAddress) == NO_MAX_ADDRESS then Blobs()[count - 1].end else old(maxAddress))
    {
      if count == 0 {
        return;
      }
      var sorted := QSort(blobs[..count]);
      assert |sorted| == |multiset(sorted)| == |multiset(blobs[..count])| == count;
      forall i | 0 <= i < count {
        blobs[i] := sorted[i];
      }
      assert blobs[..count] == sorted;
      if minAddress == NO_MIN_ADDRESS {
        minAddress := blobs[0].start;
      }
      if maxAddress == NO_MAX_ADDRESS {
        maxAddress := blobs[count - 1].end;
      }
    }

    /** Linear search. */
    method Find(address: u64) returns (r: Option<CodeBlob>)
      requires Valid()
      ensures r == FindBlob(Blobs(), address)
      ensures match r
        case None => forall j :: 0 <= j < count ==> address < blobs[j].start || blobs[j].end <= address
        case Some(b) =>
          exists i :: 0 <= i < count && b == blobs[i] && b.start <= address < b.end
            && forall j :: 0 <= j < i ==> address < blobs[j].start || blobs[j].end <= address
    {
      var i := 0;
      while i < count
        invariant i <= count
        invariant forall j :: 0 <= j < i ==> !blobs[j].Contains(address)
      {
        if blobs[i].start <= address && address < blobs[i].end {
          FindBlobAt(Blobs(), i, address);
          return Some(blobs[i]);
        }
        i := i + 1;
      }
      FindBlobNone(Blobs(), address);
      return None;
    }

    method BinarySearch(address: u64) returns (r: Name)
      requires Valid()
      ensures r == BlobSearch(Blobs(), 0, count - 1, address, name)
      ensures Separated(Blobs()) ==> r == LinearName(Blobs(), address, name)
      ensures Separated(Blobs()) ==> IsNameFor(Blobs(), address, name, r)
    {
      hide LinearName, Separated, BlobSearch, IsNameFor;
      ghost var s := Blobs();
      if Separated(s) {
        NameByBounds(s, address, name);
        BlobSearchIsLinear(s, 0, count - 1, address, name);
      }
      var low, high := 0, count - 1;
      while low <= high
        invariant 0 <= low <= high + 1 <= count
        invariant BlobSearch(s, low, high, address, name) == BlobSearch(s, 0, count - 1, address, name)
        decreases high - low + 1
      {
        BlobSearchNarrows(s, low, high, address, name);
        var mid := (low + high) / 2;
        if blobs[mid].end <= address {
          low := mid + 1;
        } else if blobs[mid].start > address {
          high := mid - 1;
        } else {
          return blobs[mid].name;
        }
      }
      BlobSearchStops(s, low, high, address, name);
      if low > 0 && (blobs[low - 1].start == blobs[low - 1].end || blobs[low - 1].end == address) {
        return blobs[low - 1].name;
      }
      return name;
    }

    method SetTextBase(base: u64)
      modifies `textBase
      ensures textBase == base
    {
      textBase := base;
    }

    method SetDwarfTable(table: array<FrameDesc>, length: nat)
      requires length <= table.Length
      modifies `dwarfTable, `dwarfTableLength
      ensures TableValid() && Table() == table[..length]
    {
      dwarfTable, dwarfTableLength := table, length;
    }

    method FindFrameDesc(pc: u64) returns (r: Option<FrameDesc>)
      requires TableValid()
      ensures r == old(View()).FrameDescFor(pc)
    {
      var target := U32(pc - textBase);
      ghost var t := Table();
      var low, high := 0, dwarfTableLength - 1;
      while low <= high
        invariant 0 <= low <= high + 1 <= dwarfTableLength
        invariant Search(t, low, high, target) == Search(t, 0, |t| - 1, target)
        decreases high - low + 1
      {
        hide Search;
        SearchNarrows(t, low, high, target);
        var mid := (low + high) / 2;
        assert t[mid] == dwarfTable[mid];
        if dwarfTable[mid].loc < target {
          low := mid + 1;
        } else if dwarfTable[mid].loc > target {
          high := mid - 1;
        } else {
          return Some(dwarfTable[mid]);
        }
      }
      if low <= 0 {
        return None;
      }
      var f := dwarfTable[low - 1];
      assert t[low - 1] == f;
      if target > f.locEnd {
        return None;
      }
      return Some(f);
    }
  }
}
