/**
 * The region list behind `GuestMemoryMmap` (src/mmap.rs): its construction by a check of adjacent
 * pairs, its lookup by binary search, and its persistent updates.
 */
module RegionMap {
  import opened Words

  /** A region is a handle: guest base address, length, and the address of its bytes in the remote
      process. Cloning an `Arc` clones the handle, so two maps holding equal handles share bytes. */
  datatype Region = Region(base: u64, len: u64, host: u64)

  datatype MapError = InvalidGuestRegion | NoMemoryRegion | MemoryRegionOverlap | UnsortedMemoryRegions

  predicate ValidRegion(r: Region) {
    && 0 < r.len
    && r.base + r.len < U64_LIMIT
    && 0 < r.host && r.host + r.len <= U64_LIMIT
  }

  /** `GuestRegionMmap::new` over a mapping of `len` bytes at `host`. */
  function NewRegion(host: u64, len: u64, base: u64): (r: Outcome<Region, MapError>)
    requires 0 < len && 0 < host && host + len <= U64_LIMIT
    ensures r.Ok? <==> ValidRegion(Region(base, len, host))
    ensures r.Ok? ==> r.value == Region(base, len, host)
    ensures !r.Ok? ==> r == Err(InvalidGuestRegion)
  {
    if base + len >= U64_LIMIT then Err(InvalidGuestRegion) else Ok(Region(base, len, host))
  }

  function LastAddr(r: Region): int {
    r.base + r.len - 1
  }

  predicate Contains(r: Region, a: int) {
    r.base <= a < r.base + r.len
  }

  predicate Disjoint(r: Region, s: Region) {
    LastAddr(r) < s.base || LastAddr(s) < r.base
  }

  predicate AllValid(rs: seq<Region>) {
    forall i :: 0 <= i < |rs| ==> ValidRegion(rs[i])
  }

  /** Every earlier region ends before every later one starts. */
  predicate Ordered(rs: seq<Region>) {
    forall i, j :: 0 <= i < j < |rs| ==> LastAddr(rs[i]) < rs[j].base
  }

  /** The invariant of a map; the empty map satisfies it. */
  predicate ValidMap(m: seq<Region>) {
    AllValid(m) && Ordered(m)
  }

  predicate SortedByStart(rs: seq<Region>) {
    forall i, j :: 0 <= i < j < |rs| ==> rs[i].base <= rs[j].base
  }

  // ---------------------------------------------------------------------------------------------
  // Construction: a check of adjacent pairs establishes the global order
  // ---------------------------------------------------------------------------------------------

  function PairError(prev: Region, next: Region): Option<MapError> {
    if prev.base > next.base then Some(UnsortedMemoryRegions)
    else if LastAddr(prev) >= next.base then Some(MemoryRegionOverlap)
    else None
  }

  /** The error of the first bad window from position `i` on, if any. */
  function FirstPairError(rs: seq<Region>, i: nat): Option<MapError>
    decreases |rs| - i
  {
    if i + 1 >= |rs| then None
    else if PairError(rs[i], rs[i + 1]).Some? then PairError(rs[i], rs[i + 1])
    else FirstPairError(rs, i + 1)
  }

  function BuildMap(rs: seq<Region>): Outcome<seq<Region>, MapError> {
    if rs == [] then Err(NoMemoryRegion)
    else match FirstPairError(rs, 0)
      case Some(e) => Err(e)
      case None => Ok(rs)
  }

  predicate OrderedFrom(rs: seq<Region>, k: nat) {
    forall i, j :: k <= i < j < |rs| ==> LastAddr(rs[i]) < rs[j].base
  }

  lemma {:induction false} FirstPairErrorNone(rs: seq<Region>, k: nat)
    requires AllValid(rs)
    ensures FirstPairError(rs, k).None? <==> OrderedFrom(rs, k)
    decreases |rs| - k
  {
    if k + 1 < |rs| {
      FirstPairErrorNone(rs, k + 1);
      if FirstPairError(rs, k).None? {
        forall j | k < j < |rs|
          ensures LastAddr(rs[k]) < rs[j].base
        {
          if j > k + 1 {
            assert LastAddr(rs[k + 1]) < rs[j].base;
          }
        }
      }
    }
  }

  lemma {:induction false} FirstPairErrorKind(rs: seq<Region>, k: nat)
    ensures FirstPairError(rs, k) in {None, Some(UnsortedMemoryRegions), Some(MemoryRegionOverlap)}
    ensures SortedByStart(rs) ==> FirstPairError(rs, k) != Some(UnsortedMemoryRegions)
    decreases |rs| - k
  {
    if k + 1 < |rs| {
      FirstPairErrorKind(rs, k + 1);
    }
  }

  /** Local check gives the global invariant, and nothing valid is refused. */
  lemma BuildMapIff(rs: seq<Region>)
    requires AllValid(rs)
    ensures BuildMap(rs).Ok? <==> rs != [] && Ordered(rs)
    ensures BuildMap(rs).Ok? ==> BuildMap(rs).value == rs && ValidMap(rs)
    ensures BuildMap(rs) == Err(NoMemoryRegion) <==> rs == []
    ensures rs != [] && SortedByStart(rs) && !Ordered(rs) ==> BuildMap(rs) == Err(MemoryRegionOverlap)
  {
    FirstPairErrorNone(rs, 0);
    FirstPairErrorKind(rs, 0);
  }

  /** Up to region `i` each region ends before the next one starts. */
  predicate CleanUpTo(rs: seq<Region>, i: int) {
    forall j :: 0 <= j < i && j + 1 < |rs| ==> LastAddr(rs[j]) < rs[j + 1].base
  }

  /** The next region starts below this one. */
  predicate UnsortedAt(rs: seq<Region>, i: int) {
    0 <= i && i + 1 < |rs| && rs[i].base > rs[i + 1].base
  }

  /** The next region starts inside this one. */
  predicate OverlapAt(rs: seq<Region>, i: int) {
    0 <= i && i + 1 < |rs| && rs[i].base <= rs[i + 1].base <= LastAddr(rs[i])
  }

  lemma {:induction false} FirstErrorAfter(rs: seq<Region>, i: nat)
    requires CleanUpTo(rs, i) && i < |rs|
    ensures FirstPairError(rs, 0) == FirstPairError(rs, i)
  {
    if i > 0 {
      FirstErrorAfter(rs, i - 1);
    }
  }

  lemma {:induction false} FirstErrorAt(rs: seq<Region>, k: nat) returns (i: nat)
    requires CleanUpTo(rs, k) && FirstPairError(rs, k).Some?
    ensures i + 1 < |rs| && CleanUpTo(rs, i) && FirstPairError(rs, k) == PairError(rs[i], rs[i + 1])
    decreases |rs| - k
  {
    if PairError(rs[k], rs[k + 1]).Some? {
      i := k;
    } else {
      i := FirstErrorAt(rs, k + 1);
    }
  }

  /** Which error a list gives, for every list: that of the first bad neighbours, and whether these are out of order
      or overlap. */
  lemma BuildMapErrors(rs: seq<Region>)
    ensures BuildMap(rs) == Err(UnsortedMemoryRegions) <==> exists i :: UnsortedAt(rs, i) && CleanUpTo(rs, i)
    ensures BuildMap(rs) == Err(MemoryRegionOverlap) <==> exists i :: OverlapAt(rs, i) && CleanUpTo(rs, i)
    ensures BuildMap(rs) == Err(NoMemoryRegion) <==> rs == []
    ensures BuildMap(rs) == Ok(rs) <==> rs != [] && CleanUpTo(rs, |rs|)
  {
    forall i | CleanUpTo(rs, i) && (UnsortedAt(rs, i) || OverlapAt(rs, i))
      ensures BuildMap(rs) == Err(if UnsortedAt(rs, i) then UnsortedMemoryRegions else MemoryRegionOverlap)
      ensures !CleanUpTo(rs, |rs|)
    {
      FirstErrorAfter(rs, i);
    }
    if FirstPairError(rs, 0).Some? {
      var i := FirstErrorAt(rs, 0);
      assert UnsortedAt(rs, i) || OverlapAt(rs, i);
    } else {
      NoErrorClean(rs, 0);
    }
  }

  lemma {:induction false} NoErrorClean(rs: seq<Region>, k: nat)
    requires FirstPairError(rs, k).None?
    ensures forall j :: k <= j && j + 1 < |rs| ==> LastAddr(rs[j]) < rs[j + 1].base
    decreases |rs| - k
  {
    if k + 1 < |rs| {
      NoErrorClean(rs, k + 1);
    }
  }

  /** `GuestMemoryMmap::from_arc_regions`: the loop over windows of two. */
  method FromArcRegions(rs: seq<Region>) returns (r: Outcome<seq<Region>, MapError>)
    ensures r == BuildMap(rs)
    ensures r == Err(UnsortedMemoryRegions) <==> exists i :: UnsortedAt(rs, i) && CleanUpTo(rs, i)
    ensures r == Err(MemoryRegionOverlap) <==> exists i :: OverlapAt(rs, i) && CleanUpTo(rs, i)
    ensures r == Err(NoMemoryRegion) <==> rs == []
    ensures r == Ok(rs) <==> rs != [] && CleanUpTo(rs, |rs|)
  {
    BuildMapErrors(rs);
    if |rs| == 0 {
      return Err(NoMemoryRegion);
    }
    var i := 0;
    while i + 1 < |rs|
      invariant 0 <= i < |rs|
      invariant FirstPairError(rs, 0) == FirstPairError(rs, i)
    {
      var prev, next := rs[i], rs[i + 1];
      if prev.base > next.base {
        return Err(UnsortedMemoryRegions);
      }
      if LastAddr(prev) >= next.base {
        return Err(MemoryRegionOverlap);
      }
      i := i + 1;
    }
    return Ok(rs);
  }

  // ---------------------------------------------------------------------------------------------
  // Lookup
  // ---------------------------------------------------------------------------------------------

  function LookupFrom(m: seq<Region>, a: int, i: nat): (r: Option<Region>)
    ensures r.Some? ==> r.value in m && Contains(r.value, a)
    decreases |m| - i
  {
    if i >= |m| then None
    else if Contains(m[i], a) then Some(m[i])
    else LookupFrom(m, a, i + 1)
  }

  /** Linear scan: the reference against which the binary search is proved. */
  function Lookup(m: seq<Region>, a: int): Option<Region> {
    LookupFrom(m, a, 0)
  }

  predicate Mapped(m: seq<Region>, a: int) {
    Lookup(m, a).Some?
  }

  lemma {:induction false} LookupMiss(m: seq<Region>, a: int, i: nat)
    ensures LookupFrom(m, a, i).None? <==> forall j :: i <= j < |m| ==> !Contains(m[j], a)
    decreases |m| - i
  {
    if i < |m| {
      LookupMiss(m, a, i + 1);
    }
  }

  /** At most one region contains an address, so a hit determines the answer. */
  lemma LookupHit(m: seq<Region>, r: Region, a: int)
    requires ValidMap(m) && r in m && Contains(r, a)
    ensures Lookup(m, a) == Some(r)
  {
    var i :| 0 <= i < |m| && m[i] == r;
    LookupMiss(m, a, 0);
    var s := Lookup(m, a).value;
    var j :| 0 <= j < |m| && m[j] == s;
    if i != j {
      assert false;
    }
  }

  lemma MappedIff(m: seq<Region>, a: int)
    requires ValidMap(m)
    ensures Mapped(m, a) <==> exists r :: r in m && Contains(r, a)
    ensures Mapped(m, a) ==> 0 <= a < U64_LIMIT - 1
  {
    if r :| r in m && Contains(r, a) {
      LookupHit(m, r, a);
    }
  }

  /** `slice::binary_search_by_key` over the start addresses. */
  method BinarySearchByStart(m: seq<Region>, key: u64) returns (found: bool, index: nat)
    requires ValidMap(m)
    ensures index <= |m|
    ensures found ==> index < |m| && m[index].base == key
    ensures !found ==> forall i :: 0 <= i < index ==> m[i].base < key
    ensures !found ==> forall i :: index <= i < |m| ==> key < m[i].base
  {
    var lo, hi := 0, |m|;
    while lo < hi
      invariant 0 <= lo <= hi <= |m|
      invariant forall i :: 0 <= i < lo ==> m[i].base < key
      invariant forall i :: hi <= i < |m| ==> key < m[i].base
    {
      var mid := lo + (hi - lo) / 2;
      assert forall i :: 0 <= i < mid ==> LastAddr(m[i]) < m[mid].base;
      assert forall i :: mid < i < |m| ==> LastAddr(m[mid]) < m[i].base;
      if m[mid].base == key {
        return true, mid;
      } else if m[mid].base < key {
        lo := mid + 1;
      } else {
        hi := mid;
      }
    }
    return false, lo;
  }

  /** `GuestMemoryMmap::find_region`: the fast lookup agrees with the linear scan. */
  method FindRegion(m: seq<Region>, addr: u64) returns (r: Option<Region>)
    requires ValidMap(m)
    ensures r == Lookup(m, addr)
  {
    var found, x := BinarySearchByStart(m, addr);
    if found {
      r := Some(m[x]);
      LookupHit(m, m[x], addr);
    } else if x > 0 && addr <= LastAddr(m[x - 1]) {
      r := Some(m[x - 1]);
      LookupHit(m, m[x - 1], addr);
    } else {
      r := None;
      forall i | 0 <= i < |m|
        ensures !Contains(m[i], addr)
      {
        if i + 1 < x {
          assert LastAddr(m[i]) < m[x - 1].base;
        }
      }
      LookupMiss(m, addr, 0);
    }
  }

  /** `GuestMemoryRegion::to_region_addr`. */
  function ToRegionAddr(r: Region, addr: u64): Option<u64> {
    if addr < r.base then None
    else if addr - r.base < r.len then Some(addr - r.base)
    else None
  }

  /** `GuestMemory::to_region_addr`: the `unwrap` cannot fail, and start plus offset is the address. */
  method TranslateAddr(m: seq<Region>, addr: u64) returns (r: Option<(Region, u64)>)
    requires ValidMap(m)
    ensures r.Some? <==> exists s :: s in m && Contains(s, addr)
    ensures r.Some? ==> r.value.0 in m && r.value.1 < r.value.0.len && r.value.0.base + r.value.1 == addr
  {
    var region := FindRegion(m, addr);
    MappedIff(m, addr);
    match region
    case None => r := None;
    case Some(s) =>
      var off := ToRegionAddr(s, addr);
      r := Some((s, off.value));
  }

  // ---------------------------------------------------------------------------------------------
  // Insertion
  // ---------------------------------------------------------------------------------------------

  /** Where a stable sort puts a new last element: after every start not above its own. */
  function InsertPos(m: seq<Region>, r: Region, i: nat): (k: nat)
    requires i <= |m|
    ensures i <= k <= |m|
    ensures k < |m| ==> r.base < m[k].base
    ensures forall j :: i <= j < k ==> m[j].base <= r.base
    decreases |m| - i
  {
    if i == |m| || r.base < m[i].base then i else InsertPos(m, r, i + 1)
  }

  function InsertAt(m: seq<Region>, k: nat, r: Region): (s: seq<Region>)
    requires k <= |m|
    ensures |s| == |m| + 1 && s[k] == r
    ensures forall i :: 0 <= i < k ==> s[i] == m[i]
    ensures forall i :: k < i < |s| ==> s[i] == m[i - 1]
  {
    m[..k] + [r] + m[k..]
  }

  /** `sort_by_key(start_addr)` on the first `n` elements, as a stable insertion sort. */
  function SortByStart(rs: seq<Region>, n: nat): seq<Region>
    requires n <= |rs|
  {
    if n == 0 then []
    else
      var s := SortByStart(rs, n - 1);
      InsertAt(s, InsertPos(s, rs[n - 1], 0), rs[n - 1])
  }

  lemma InsertAtSorted(m: seq<Region>, k: nat, r: Region)
    requires SortedByStart(m) && k <= |m|
    requires k < |m| ==> r.base < m[k].base
    requires forall j :: 0 <= j < k ==> m[j].base <= r.base
    ensures SortedByStart(InsertAt(m, k, r))
  {
  }

  lemma {:induction false} SortByStartSorts(rs: seq<Region>, n: nat)
    requires n <= |rs|
    ensures SortedByStart(SortByStart(rs, n))
  {
    if n > 0 {
      SortByStartSorts(rs, n - 1);
      var s := SortByStart(rs, n - 1);
      InsertAtSorted(s, InsertPos(s, rs[n - 1], 0), rs[n - 1]);
    }
  }

  /** The first `n` elements, regardless of their order. */
  ghost function Bag(rs: seq<Region>, n: nat): multiset<Region>
    requires n <= |rs|
  {
    if n == 0 then multiset{} else Bag(rs, n - 1) + multiset{rs[n - 1]}
  }

  lemma {:induction false} BagIs(rs: seq<Region>, n: nat)
    requires n <= |rs|
    ensures Bag(rs, n) == multiset(rs[..n])
  {
    if n > 0 {
      BagIs(rs, n - 1);
      assert rs[..n] == rs[..n - 1] + [rs[n - 1]];
    }
  }

  lemma BagOfAll(rs: seq<Region>)
    ensures Bag(rs, |rs|) == multiset(rs)
  {
    BagIs(rs, |rs|);
    assert rs[..|rs|] == rs;
  }

  lemma InsertAtMultiset(s: seq<Region>, k: nat, x: Region)
    requires k <= |s|
    ensures multiset(InsertAt(s, k, x)) == multiset(s) + multiset{x}
  {
    assert s == s[..k] + s[k..];
    assert multiset(s[..k] + [x] + s[k..]) == multiset(s[..k]) + multiset([x]) + multiset(s[k..]);
  }

  lemma InsertAtBag(s: seq<Region>, k: nat, x: Region)
    requires k <= |s|
    ensures Bag(InsertAt(s, k, x), |s| + 1) == Bag(s, |s|) + multiset{x}
  {
    BagOfAll(InsertAt(s, k, x));
    BagOfAll(s);
    InsertAtMultiset(s, k, x);
  }

  lemma SortStepBag(rs: seq<Region>, n: nat)
    requires 0 < n <= |rs| && |SortByStart(rs, n - 1)| == n - 1
    ensures |SortByStart(rs, n)| == n
    ensures Bag(SortByStart(rs, n), n) == Bag(SortByStart(rs, n - 1), n - 1) + multiset{rs[n - 1]}
  {
    var s := SortByStart(rs, n - 1);
    InsertAtBag(s, InsertPos(s, rs[n - 1], 0), rs[n - 1]);
  }

  lemma {:induction false} SortByStartBag(rs: seq<Region>, n: nat)
    requires n <= |rs|
    ensures |SortByStart(rs, n)| == n && Bag(SortByStart(rs, n), n) == Bag(rs, n)
  {
    if n > 0 {
      SortByStartBag(rs, n - 1);
      SortStepBag(rs, n);
    }
  }

  lemma SortByStartPermutes(rs: seq<Region>)
    ensures multiset(SortByStart(rs, |rs|)) == multiset(rs)
  {
    var t := SortByStart(rs, |rs|);
    SortByStartBag(rs, |rs|);
    BagOfAll(rs);
    BagOfAll(t);
  }

  lemma TailMultiset<T>(p: seq<T>, q: seq<T>)
    requires p != [] && q != [] && p[0] == q[0] && multiset(p) == multiset(q)
    ensures multiset(p[1..]) == multiset(q[1..])
  {
    assert p == [p[0]] + p[1..] && q == [q[0]] + q[1..];
    assert multiset(p[1..]) == multiset(p) - multiset{p[0]};
  }

  lemma SameMembers<T>(p: seq<T>, q: seq<T>)
    requires multiset(p) == multiset(q)
    ensures |p| == |q|
    ensures forall x :: x in p <==> x in q
  {
    assert |p| == |multiset(p)| == |multiset(q)| == |q|;
    forall x
      ensures x in p <==> x in q
    {
      assert x in p <==> x in multiset(p);
    }
  }

  lemma SameHead(p: seq<Region>, q: seq<Region>)
    requires ValidMap(p) && SortedByStart(q) && p != [] && q != []
    requires p[0] in q && q[0] in p
    ensures p[0] == q[0]
  {
  }

  /** A valid map is the only sorted permutation of its regions. */
  lemma {:induction false} SortedPermutationUnique(p: seq<Region>, q: seq<Region>)
    requires ValidMap(p) && SortedByStart(q) && multiset(p) == multiset(q)
    ensures p == q
  {
    SameMembers(p, q);
    if p != [] {
      SameHead(p, q);
      TailMultiset(p, q);
      SortedPermutationUnique(p[1..], q[1..]);
      assert p == [p[0]] + p[1..] && q == [q[0]] + q[1..];
    }
  }

  lemma SortedOfValid(m: seq<Region>)
    requires ValidMap(m)
    ensures SortedByStart(m)
  {
  }

  lemma TailMembers(p: seq<Region>)
    requires ValidMap(p) && p != []
    ensures forall x :: x in p[1..] <==> x in p && x != p[0]
  {
  }

  /** A valid map is determined by its set of regions. */
  lemma {:induction false} ValidMapUnique(p: seq<Region>, q: seq<Region>)
    requires ValidMap(p) && ValidMap(q) && forall x :: x in p <==> x in q
    ensures p == q
  {
    if |p| > 0 {
      assert p[0] in q;
    }
    if |q| > 0 {
      assert q[0] in p;
    }
    if |p| > 0 {
      SortedOfValid(q);
      SameHead(p, q);
      TailMembers(p);
      TailMembers(q);
      ValidMapUnique(p[1..], q[1..]);
      assert p == [p[0]] + p[1..] && q == [q[0]] + q[1..];
    }
  }

  lemma AllValidPermutation(p: seq<Region>, q: seq<Region>)
    requires AllValid(p) && multiset(p) == multiset(q)
    ensures AllValid(q)
  {
    SameMembers(p, q);
    forall i | 0 <= i < |q|
      ensures ValidRegion(q[i])
    {
      assert q[i] in p;
    }
  }

  lemma SortedPermutationsBuildAlike(p: seq<Region>, q: seq<Region>)
    requires AllValid(p) && SortedByStart(p) && SortedByStart(q) && multiset(p) == multiset(q)
    ensures BuildMap(p) == BuildMap(q)
  {
    SameMembers(p, q);
    AllValidPermutation(p, q);
    BuildMapIff(p);
    BuildMapIff(q);
    if Ordered(p) {
      SortedPermutationUnique(p, q);
    } else if Ordered(q) {
      SortedPermutationUnique(q, p);
    }
  }

  /** Which sorting algorithm `sort_by_key` uses, stable or not, cannot be observed. */
  lemma SortChoiceImmaterial(rs: seq<Region>, p: seq<Region>)
    requires AllValid(rs) && SortedByStart(p) && multiset(p) == multiset(rs)
    ensures BuildMap(p) == BuildMap(SortByStart(rs, |rs|))
  {
    SortByStartSorts(rs, |rs|);
    SortByStartPermutes(rs);
    AllValidPermutation(rs, p);
    SortedPermutationsBuildAlike(p, SortByStart(rs, |rs|));
  }

  /** `GuestMemoryMmap::insert_region`: push, sort by start address, check adjacent pairs. */
  function InsertRegion(m: seq<Region>, r: Region): Outcome<seq<Region>, MapError> {
    BuildMap(SortByStart(m + [r], |m| + 1))
  }

  lemma {:induction false} SortOfSorted(rs: seq<Region>, m: seq<Region>, n: nat)
    requires n <= |m| <= |rs| && rs[..|m|] == m && SortedByStart(m)
    ensures SortByStart(rs, n) == m[..n]
  {
    if n > 0 {
      SortOfSorted(rs, m, n - 1);
      assert rs[n - 1] == m[n - 1];
      assert InsertPos(m[..n - 1], m[n - 1], 0) == n - 1;
    }
  }

  lemma InsertShape(m: seq<Region>, r: Region) returns (k: nat)
    requires SortedByStart(m)
    ensures k <= |m| && (k < |m| ==> r.base < m[k].base)
    ensures forall j :: 0 <= j < k ==> m[j].base <= r.base
    ensures SortByStart(m + [r], |m| + 1) == InsertAt(m, k, r)
  {
    k := InsertPos(m, r, 0);
    assert (m + [r])[..|m|] == m == m[..|m|];
    SortOfSorted(m + [r], m, |m|);
  }

  predicate MeetsNone(m: seq<Region>, r: Region) {
    forall i :: 0 <= i < |m| ==> Disjoint(m[i], r)
  }

  lemma InsertOrdered(m: seq<Region>, k: nat, r: Region)
    requires ValidMap(m) && ValidRegion(r) && k <= |m|
    requires k < |m| ==> r.base < m[k].base
    requires forall j :: 0 <= j < k ==> m[j].base <= r.base
    ensures Ordered(InsertAt(m, k, r)) <==> MeetsNone(m, r)
  {
    var s := InsertAt(m, k, r);
    if Ordered(s) {
      forall i | 0 <= i < |m|
        ensures Disjoint(m[i], r)
      {
        if i < k {
          assert LastAddr(s[i]) < s[k].base;
        } else {
          assert LastAddr(s[k]) < s[i + 1].base;
        }
      }
    }
    if MeetsNone(m, r) {
      forall i, j | 0 <= i < j < |s|
        ensures LastAddr(s[i]) < s[j].base
      {
        if i == k {
          assert Disjoint(m[j - 1], r) && (k < j - 1 ==> LastAddr(m[k]) < m[j - 1].base);
        } else if j == k {
          assert Disjoint(m[i], r);
        }
      }
    }
  }

  /** Insertion succeeds exactly when the new region meets no old one; it adds that region alone,
      and the only error is an overlap. */
  lemma InsertIff(m: seq<Region>, r: Region)
    requires ValidMap(m) && ValidRegion(r)
    ensures InsertRegion(m, r).Ok? <==> MeetsNone(m, r)
    ensures InsertRegion(m, r).Ok? ==> ValidMap(InsertRegion(m, r).value)
    ensures InsertRegion(m, r).Ok? ==> forall x :: x in InsertRegion(m, r).value <==> x in m || x == r
    ensures !InsertRegion(m, r).Ok? ==> InsertRegion(m, r) == Err(MemoryRegionOverlap)
  {
    SortedOfValid(m);
    var k := InsertShape(m, r);
    var s := InsertAt(m, k, r);
    InsertAtSorted(m, k, r);
    InsertOrdered(m, k, r);
    BuildMapIff(s);
    InsertAtMembers(m, k, r);
  }

  lemma InsertAtMembers(m: seq<Region>, k: nat, r: Region)
    requires k <= |m|
    ensures forall x :: x in InsertAt(m, k, r) <==> x in m || x == r
  {
  }

  /** The same on a cloned vector: push, sort, then the loop over windows. */
  method InsertRegionIntoClone(m: seq<Region>, r: Region) returns (o: Outcome<seq<Region>, MapError>)
    requires ValidMap(m) && ValidRegion(r)
    ensures o == InsertRegion(m, r)
    ensures o.Ok? <==> MeetsNone(m, r)
    ensures o.Ok? ==> ValidMap(o.value) && forall x :: x in o.value <==> x in m || x == r
    ensures !o.Ok? ==> o == Err(MemoryRegionOverlap)
  {
    var regions := m;
    regions := regions + [r];
    regions := SortByStart(regions, |regions|);
    o := FromArcRegions(regions);
    InsertIff(m, r);
  }

  // ---------------------------------------------------------------------------------------------
  // Removal
  // ---------------------------------------------------------------------------------------------

  function IndexOfStart(m: seq<Region>, base: u64, i: nat): (k: nat)
    requires i <= |m|
    ensures i <= k <= |m|
    ensures k < |m| ==> m[k].base == base
    ensures forall j :: i <= j < k ==> m[j].base != base
    decreases |m| - i
  {
    if i == |m| || m[i].base == base then i else IndexOfStart(m, base, i + 1)
  }

  function RemoveAt(m: seq<Region>, k: nat): (s: seq<Region>)
    requires k < |m|
    ensures |s| == |m| - 1
    ensures forall i :: 0 <= i < k ==> s[i] == m[i]
    ensures forall i :: k <= i < |s| ==> s[i] == m[i + 1]
  {
    m[..k] + m[k + 1..]
  }

  function RemoveRegion(m: seq<Region>, base: u64, size: u64): Outcome<(seq<Region>, Region), MapError> {
    var k := IndexOfStart(m, base, 0);
    if k < |m| && m[k].len == size then Ok((RemoveAt(m, k), m[k])) else Err(InvalidGuestRegion)
  }

  /** `GuestMemoryMmap::remove_region`, by binary search. */
  method RemoveRegionBySearch(m: seq<Region>, base: u64, size: u64)
    returns (r: Outcome<(seq<Region>, Region), MapError>)
    requires ValidMap(m)
    ensures r == RemoveRegion(m, base, size)
  {
    var found, index := BinarySearchByStart(m, base);
    if found {
      var k := IndexOfStart(m, base, 0);
      assert k == index;
      if m[index].len == size {
        return Ok((RemoveAt(m, index), m[index]));
      }
    }
    return Err(InvalidGuestRegion);
  }

  lemma StartIsUnique(m: seq<Region>, r: Region)
    requires ValidMap(m) && r in m
    ensures IndexOfStart(m, r.base, 0) < |m| && m[IndexOfStart(m, r.base, 0)] == r
  {
  }

  /** Removal succeeds exactly when a region with that start and size is mapped, and takes out that
      region alone. */
  lemma RemoveIff(m: seq<Region>, base: u64, size: u64)
    requires ValidMap(m)
    ensures RemoveRegion(m, base, size).Ok? <==> exists r :: r in m && r.base == base && r.len == size
    ensures RemoveRegion(m, base, size).Ok? ==>
              var (m', r) := RemoveRegion(m, base, size).value;
              && ValidMap(m') && r in m && r.base == base && r.len == size
              && (forall x :: x in m' <==> x in m && x != r)
              && MeetsNone(m', r)
    ensures !RemoveRegion(m, base, size).Ok? ==> RemoveRegion(m, base, size) == Err(InvalidGuestRegion)
  {
  }

  // ---------------------------------------------------------------------------------------------
  // Map algebra
  // ---------------------------------------------------------------------------------------------

  function ThenInsert(o: Outcome<seq<Region>, MapError>, r: Region): Outcome<seq<Region>, MapError> {
    match o
    case Ok(m) => InsertRegion(m, r)
    case Err(e) => Err(e)
    case Panic => Panic
  }

  lemma MeetsNoneMembers(m: seq<Region>, p: seq<Region>, r: Region, s: Region)
    requires forall x :: x in p <==> x in m || x == r
    ensures MeetsNone(p, s) <==> MeetsNone(m, s) && Disjoint(r, s)
  {
    if MeetsNone(p, s) {
      assert r in p;
      forall i | 0 <= i < |m| ensures Disjoint(m[i], s) { assert m[i] in p; }
    }
    if MeetsNone(m, s) && Disjoint(r, s) {
      forall i | 0 <= i < |p| ensures Disjoint(p[i], s) { assert p[i] in p; }
    }
  }

  lemma InsertTwice(m: seq<Region>, r: Region, s: Region)
    requires ValidMap(m) && ValidRegion(r) && ValidRegion(s)
    ensures var o := ThenInsert(InsertRegion(m, r), s);
            if MeetsNone(m, r) && MeetsNone(m, s) && Disjoint(r, s)
            then o.Ok? && ValidMap(o.value) && forall x :: x in o.value <==> x in m || x == r || x == s
            else o == Err(MemoryRegionOverlap)
  {
    InsertIff(m, r);
    if MeetsNone(m, r) {
      var mr := InsertRegion(m, r).value;
      InsertIff(mr, s);
      MeetsNoneMembers(m, mr, r, s);
    }
  }

  /** Two insertions commute, success or failure alike. */
  lemma InsertsCommute(m: seq<Region>, r: Region, s: Region)
    requires ValidMap(m) && ValidRegion(r) && ValidRegion(s)
    ensures ThenInsert(InsertRegion(m, r), s) == ThenInsert(InsertRegion(m, s), r)
  {
    InsertTwice(m, r, s);
    InsertTwice(m, s, r);
    if MeetsNone(m, r) && MeetsNone(m, s) && Disjoint(r, s) {
      ValidMapUnique(ThenInsert(InsertRegion(m, r), s).value, ThenInsert(InsertRegion(m, s), r).value);
    }
  }

  /** Removing a just-inserted region restores the map. */
  lemma InsertThenRemove(m: seq<Region>, r: Region)
    requires ValidMap(m) && ValidRegion(r) && InsertRegion(m, r).Ok?
    ensures RemoveRegion(InsertRegion(m, r).value, r.base, r.len) == Ok((m, r))
  {
    InsertIff(m, r);
    var p := InsertRegion(m, r).value;
    StartIsUnique(p, r);
    RemoveIff(p, r.base, r.len);
    assert !Disjoint(r, r);
    ValidMapUnique(m, RemoveRegion(p, r.base, r.len).value.0);
  }

  /** Re-inserting a removed region restores the map. */
  lemma RemoveThenInsert(m: seq<Region>, base: u64, size: u64)
    requires ValidMap(m) && RemoveRegion(m, base, size).Ok?
    ensures var (q, r) := RemoveRegion(m, base, size).value; InsertRegion(q, r) == Ok(m)
  {
    RemoveIff(m, base, size);
    var (q, r) := RemoveRegion(m, base, size).value;
    InsertIff(q, r);
    ValidMapUnique(m, InsertRegion(q, r).value);
  }

  // ---------------------------------------------------------------------------------------------
  // Runs of updates
  // ---------------------------------------------------------------------------------------------

  datatype MapOp = Insert(region: Region) | Remove(base: u64, size: u64)

  predicate ValidOp(op: MapOp) {
    op.Insert? ==> ValidRegion(op.region)
  }

  function ApplyOp(m: seq<Region>, op: MapOp): Outcome<seq<Region>, MapError> {
    match op
    case Insert(r) => InsertRegion(m, r)
    case Remove(base, size) =>
      match RemoveRegion(m, base, size)
      case Ok(p) => Ok(p.0)
      case Err(e) => Err(e)
      case Panic => Panic
  }

  /** A caller that keeps its map whenever an update is refused. */
  function ApplyOrKeep(m: seq<Region>, op: MapOp): seq<Region> {
    match ApplyOp(m, op)
    case Ok(q) => q
    case _ => m
  }

  /** The map after the first `n` updates. */
  function RunOps(m: seq<Region>, ops: seq<MapOp>, n: nat): seq<Region>
    requires n <= |ops|
  {
    Fold(ApplyOrKeep, m, ops, n)
  }

  function Elements(m: seq<Region>): set<Region> {
    set r | r in m
  }

  function ApplyToSet(t: set<Region>, op: MapOp): set<Region> {
    match op
    case Insert(r) => if forall x :: x in t ==> Disjoint(x, r) then t + {r} else t
    case Remove(base, size) => set x | x in t && !(x.base == base && x.len == size)
  }

  /** The same updates on a plain set of regions. */
  function RunOnSet(s: set<Region>, ops: seq<MapOp>, n: nat): set<Region>
    requires n <= |ops|
  {
    Fold(ApplyToSet, s, ops, n)
  }

  lemma ApplyOpValid(m: seq<Region>, op: MapOp)
    requires ValidMap(m) && ValidOp(op)
    ensures ApplyOp(m, op).Ok? ==> ValidMap(ApplyOp(m, op).value)
    ensures !ApplyOp(m, op).Panic?
  {
    match op
    case Insert(r) => InsertIff(m, r);
    case Remove(base, size) => RemoveIff(m, base, size);
  }

  lemma InsertOnSet(p: seq<Region>, r: Region)
    requires ValidMap(p) && ValidRegion(r)
    ensures (forall x :: x in Elements(p) ==> Disjoint(x, r)) <==> InsertRegion(p, r).Ok?
    ensures InsertRegion(p, r).Ok? ==> Elements(InsertRegion(p, r).value) == Elements(p) + {r}
  {
    InsertIff(p, r);
    if !MeetsNone(p, r) {
      var i :| 0 <= i < |p| && !Disjoint(p[i], r);
      assert p[i] in Elements(p);
    }
  }

  lemma RemoveOnSet(p: seq<Region>, base: u64, size: u64)
    requires ValidMap(p)
    ensures var rest := set x | x in Elements(p) && !(x.base == base && x.len == size);
            rest == if RemoveRegion(p, base, size).Ok? then Elements(RemoveRegion(p, base, size).value.0)
                    else Elements(p)
  {
  }

  lemma ApplyOnSet(p: seq<Region>, op: MapOp)
    requires ValidMap(p) && ValidOp(op)
    ensures ValidMap(ApplyOrKeep(p, op)) && Elements(ApplyOrKeep(p, op)) == ApplyToSet(Elements(p), op)
  {
    ApplyOpValid(p, op);
    match op
    case Insert(r) => InsertOnSet(p, r);
    case Remove(base, size) => RemoveOnSet(p, base, size);
  }

  /** Every run keeps the map sorted and disjoint, and the list is always a sorted listing of the set
      that the same run builds; by `ValidMapUnique` it is the only one. */
  lemma {:induction false} RunRefinesSet(m: seq<Region>, ops: seq<MapOp>, n: nat)
    requires ValidMap(m) && n <= |ops| && forall i :: 0 <= i < |ops| ==> ValidOp(ops[i])
    ensures ValidMap(RunOps(m, ops, n))
    ensures Elements(RunOps(m, ops, n)) == RunOnSet(Elements(m), ops, n)
  {
    if n > 0 {
      RunRefinesSet(m, ops, n - 1);
      ApplyOnSet(RunOps(m, ops, n - 1), ops[n - 1]);
    }
  }

  // ---------------------------------------------------------------------------------------------
  // Folds over the regions
  // ---------------------------------------------------------------------------------------------

  /** `GuestMemory::map_and_fold` over the first `n` regions. */
  function MapAndFold<T>(m: seq<Region>, n: nat, init: T, mapf: (nat, Region) -> T, foldf: (T, T) -> T): T
    requires n <= |m|
  {
    if n == 0 then init else foldf(MapAndFold(m, n - 1, init, mapf, foldf), mapf(n - 1, m[n - 1]))
  }

  const PAIR_OF: (nat, Region) -> seq<(nat, Region)> := (i, r: Region) => [(i, r)]
  const APPEND: (seq<(nat, Region)>, seq<(nat, Region)>) -> seq<(nat, Region)> := (x, y) => x + y
  const SIZE_OF: (nat, Region) -> int := (i, r: Region) => r.len
  const LAST_OF: (nat, Region) -> int := (i, r: Region) => LastAddr(r)
  const PLUS: (int, int) -> int := (x: int, y: int) => x + y
  const MAX: (int, int) -> int := (x: int, y: int) => Max(x, y)

  /** The fold visits every region once, in order, with its index. */
  lemma {:induction false} FoldsInOrder(m: seq<Region>, n: nat)
    requires n <= |m|
    ensures |MapAndFold(m, n, [], PAIR_OF, APPEND)| == n
    ensures forall i :: 0 <= i < n ==> MapAndFold(m, n, [], PAIR_OF, APPEND)[i] == (i, m[i])
  {
    if n > 0 {
      FoldsInOrder(m, n - 1);
      assert MapAndFold(m, n, [], PAIR_OF, APPEND)
          == MapAndFold(m, n - 1, [], PAIR_OF, APPEND) + [(n - 1, m[n - 1])];
    }
  }

  /** The sum of the region lengths after `n` steps of the fold. */
  function SizeUpTo(m: seq<Region>, n: nat): int
    requires n <= |m|
  {
    MapAndFold(m, n, 0, SIZE_OF, PLUS)
  }

  /** `GuestMemory::last_addr`, after `n` steps of the fold. */
  function LastAddrUpTo(m: seq<Region>, n: nat): int
    requires n <= |m|
  {
    MapAndFold(m, n, 0, LAST_OF, MAX)
  }

  predicate MappedUpTo(m: seq<Region>, n: nat, a: int)
    requires n <= |m|
  {
    exists i :: 0 <= i < n && Contains(m[i], a)
  }

  ghost function AddressesUpTo(m: seq<Region>, n: nat): set<int>
    requires n <= |m|
  {
    set a | 0 <= a < U64_LIMIT && MappedUpTo(m, n, a)
  }

  ghost function Addresses(r: Region): set<int> {
    set a | 0 <= a < U64_LIMIT && Contains(r, a)
  }

  lemma {:induction false} AddressesCard(r: Region)
    requires r.base + r.len < U64_LIMIT
    ensures |Addresses(r)| == r.len
    decreases r.len
  {
    if r.len == 0 {
      assert Addresses(r) == {};
    } else {
      var s := r.(len := r.len - 1);
      AddressesCard(s);
      assert Addresses(r) == Addresses(s) + {LastAddr(r)};
    }
  }

  lemma {:induction false} LastAddrUpToIs(m: seq<Region>, n: nat)
    requires ValidMap(m) && 0 < n <= |m|
    ensures LastAddrUpTo(m, n) == LastAddr(m[n - 1])
  {
    if n == 1 {
      assert LastAddrUpTo(m, 0) == 0;
    } else {
      LastAddrUpToIs(m, n - 1);
      assert LastAddr(m[n - 2]) < m[n - 1].base;
    }
    assert LastAddrUpTo(m, n) == MAX(LastAddrUpTo(m, n - 1), LAST_OF(n - 1, m[n - 1]));
  }

  lemma AddressesGrow(m: seq<Region>, n: nat)
    requires ValidMap(m) && 0 < n <= |m|
    ensures |AddressesUpTo(m, n)| == |AddressesUpTo(m, n - 1)| + m[n - 1].len
  {
    var before, added := AddressesUpTo(m, n - 1), Addresses(m[n - 1]);
    assert AddressesUpTo(m, n) == before + added;
    assert before !! added;
    AddressesCard(m[n - 1]);
  }

  lemma SizeStep(m: seq<Region>, n: nat)
    requires 0 < n <= |m|
    ensures SizeUpTo(m, n) == SizeUpTo(m, n - 1) + m[n - 1].len
  {
  }

  /** At every step of the fold the sum is the number of addresses seen so far and fits in 64 bits. */
  lemma {:induction false} SizeConservation(m: seq<Region>, n: nat)
    requires ValidMap(m) && n <= |m|
    ensures SizeUpTo(m, n) == |AddressesUpTo(m, n)|
    ensures n == 0 ==> SizeUpTo(m, n) == 0
    ensures n > 0 ==> 0 < SizeUpTo(m, n) <= LastAddrUpTo(m, n) + 1 < U64_LIMIT
  {
    if n == 0 {
      assert AddressesUpTo(m, n) == {};
    } else {
      SizeConservation(m, n - 1);
      LastAddrUpToIs(m, n);
      if n > 1 {
        LastAddrUpToIs(m, n - 1);
        assert LastAddr(m[n - 2]) < m[n - 1].base;
      }
      AddressesGrow(m, n);
      SizeStep(m, n);
    }
  }

  /** After the last step the addresses seen are the mapped ones. */
  lemma AllAddressesSeen(m: seq<Region>, a: int)
    requires ValidMap(m)
    ensures a in AddressesUpTo(m, |m|) <==> Mapped(m, a)
  {
    LookupMiss(m, a, 0);
    if i :| 0 <= i < |m| && Contains(m[i], a) {
      assert MappedUpTo(m, |m|, a);
    }
  }

  /** `last_addr` is the greatest mapped address. */
  lemma LastAddrIsGreatest(m: seq<Region>)
    requires ValidMap(m) && m != []
    ensures Mapped(m, LastAddrUpTo(m, |m|))
    ensures forall a :: Mapped(m, a) ==> a <= LastAddrUpTo(m, |m|)
  {
    var last := m[|m| - 1];
    LastAddrUpToIs(m, |m|);
    LookupHit(m, last, LastAddr(last));
    forall a | Mapped(m, a)
      ensures a <= LastAddr(last)
    {
      var r := Lookup(m, a).value;
      var i :| 0 <= i < |m| && m[i] == r;
    }
  }
}
