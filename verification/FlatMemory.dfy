/**
 * Guest reads and writes (the blanket `Bytes<GuestAddress>` of src/guest_memory.rs) refine one flat
 * memory indexed by guest address, however many regions an access spans.
 */
module FlatMemory {
  import opened Words
  import opened RegionMap
  import opened RemoteMem
  import opened SpanAccess

  /** The remote address that holds the byte of guest address `a`. */
  function HostOf(m: seq<Region>, a: int): int
    requires Mapped(m, a)
  {
    var r := Lookup(m, a).value;
    r.host + (a - r.base)
  }

  /** Two regions never share a byte of the remote process. */
  ghost predicate DisjointBacking(m: seq<Region>) {
    forall r, s {:trigger r in m, s in m} :: r in m && s in m && r != s ==> Apart(r.host, r.len, s.host, s.len)
  }

  /** Every byte of every region can be accessed. */
  ghost predicate Backed(m: seq<Region>, mem: Memory) {
    forall r :: r in m ==> Accessible(mem, r.host, r.len)
  }

  /** The whole guest range `[addr, addr + n)` is mapped. */
  ghost predicate AllMapped(m: seq<Region>, addr: int, n: nat) {
    forall a :: addr <= a < addr + n ==> Mapped(m, a)
  }

  /** The whole guest range is mapped and accessible. */
  ghost predicate Hosted(m: seq<Region>, mem: Memory, addr: int, n: nat) {
    forall a :: addr <= a < addr + n ==> Mapped(m, a) && HostOf(m, a) in mem
  }

  /** Before the count and before the first hole the range meets a byte that cannot be accessed. */
  ghost predicate Broken(m: seq<Region>, mem: Memory, addr: int, count: nat) {
    exists n: nat :: n <= count && AllMapped(m, addr, n) && !Hosted(m, mem, addr, n)
  }

  /** The mapped addresses of `[addr, addr + n)` are backed by different remote bytes. */
  ghost predicate Distinct(m: seq<Region>, addr: int, n: nat) {
    forall a, b :: addr <= a < addr + n && addr <= b < addr + n && a != b && Mapped(m, a) && Mapped(m, b) ==>
      HostOf(m, a) != HostOf(m, b)
  }

  /** No other guest address shares a remote byte with `[addr, addr + n)`. */
  ghost predicate Unshared(m: seq<Region>, addr: int, n: nat) {
    forall a, b :: addr <= a < addr + n && a != b && Mapped(m, a) && Mapped(m, b) ==> HostOf(m, a) != HostOf(m, b)
  }

  /** The guest's memory as one map from guest address to byte. */
  ghost function Flat(m: seq<Region>, mem: Memory): Memory {
    map a | 0 <= a < U64_LIMIT && Mapped(m, a) && HostOf(m, a) in mem :: mem[HostOf(m, a)]
  }

  lemma BackedHost(m: seq<Region>, mem: Memory, a: int)
    requires Backed(m, mem) && Mapped(m, a)
    ensures HostOf(m, a) in mem
  {
  }

  lemma BackedUnbroken(m: seq<Region>, mem: Memory, addr: int, count: nat)
    requires Backed(m, mem)
    ensures !Broken(m, mem, addr, count)
  {
    forall n: nat | AllMapped(m, addr, n)
      ensures Hosted(m, mem, addr, n)
    {
      forall a | addr <= a < addr + n ensures HostOf(m, a) in mem { BackedHost(m, mem, a); }
    }
  }

  lemma DisjointUnshared(m: seq<Region>, addr: int, n: nat)
    requires DisjointBacking(m)
    ensures Unshared(m, addr, n)
  {
    forall a, b | addr <= a < addr + n && a != b && Mapped(m, a) && Mapped(m, b)
      ensures HostOf(m, a) != HostOf(m, b)
    {
      var r, s := Lookup(m, a).value, Lookup(m, b).value;
      assert r != s ==> Apart(r.host, r.len, s.host, s.len);
    }
  }

  // ---------------------------------------------------------------------------------------------
  // Writing
  // ---------------------------------------------------------------------------------------------

  /** `mem` with `n` bytes of `data`, from index `i` on, laid down at remote address `at`. */
  function WriteFrom(mem: Memory, at: int, data: seq<byte>, i: nat, n: nat): (mem': Memory)
    requires i + n <= |data|
    ensures mem'.Keys == mem.Keys
  {
    map h | h in mem :: if at <= h < at + n then data[i + (h - at)] else mem[h]
  }

  /** A transfer of `n` bytes of `data`, from index `i` on, into the remote process: all of it or an error. */
  function Transfer(mem: Memory, at: int, data: seq<byte>, i: nat, n: nat): (Memory, Outcome<nat, Error>)
    requires i + n <= |data|
  {
    if Accessible(mem, at, n) then (WriteFrom(mem, at, data, i, n), Ok(n)) else (mem, Err(RemoteMemError(Rw)))
  }

  /** The closure of `write` over a region whose own `write` stops at the region's end, as the `Bytes`
      contract says and as `VolatileSlice::write` does. */
  function WriteClamped(buf: seq<byte>, mem: Memory, o: nat, a: nat, r: Region): (Memory, Outcome<nat, Error>) {
    if o > |buf| then (mem, Panic)
    else if a >= r.len then (mem, Err(InvalidBackendAddress))
    else Transfer(mem, r.host + a, buf, o, Min(|buf| - o, r.len - a))
  }

  function WriteClosure(buf: seq<byte>): Callback<Memory> {
    (mem: Memory, o: nat, l: nat, a: nat, r: Region) => WriteClamped(buf, mem, o, a, r)
  }

  function GuestWrite(m: seq<Region>, mem: Memory, buf: seq<byte>, addr: u64): Run<Memory> {
    AccessAll(m, |buf|, addr, WriteClosure(buf), mem)
  }

  /** The byte at remote address `h` after `n` bytes of `data`, from index `i` on, are stored one after another at
      guest addresses from `addr` on: the last store that reaches `h` decides. */
  ghost function ByteAfter(m: seq<Region>, mem: Memory, addr: int, data: seq<byte>, i: nat, n: nat, h: int): byte
    requires i + n <= |data| && h in mem
    decreases n
  {
    if n == 0 then mem[h]
    else if Mapped(m, addr + n - 1) && HostOf(m, addr + n - 1) == h then data[i + n - 1]
    else ByteAfter(m, mem, addr, data, i, n - 1, h)
  }

  /** The reference for a write: the bytes stored one at a time, with no regard to regions or pieces. */
  ghost function WriteEach(m: seq<Region>, mem: Memory, addr: int, data: seq<byte>, i: nat, n: nat): (mem': Memory)
    requires i + n <= |data|
    ensures mem'.Keys == mem.Keys
  {
    map h | h in mem :: ByteAfter(m, mem, addr, data, i, n, h)
  }

  lemma WriteRangeSlice(mem: Memory, at: int, data: seq<byte>, i: nat, n: nat)
    requires i + n <= |data|
    ensures WriteRange(mem, at, data[i..i + n]) == WriteFrom(mem, at, data, i, n)
  {
  }

  /** Inside one region guest addresses and remote addresses advance together. */
  lemma RegionIsLinear(m: seq<Region>, r: Region, start: int, a: int)
    requires ValidMap(m) && Lookup(m, start) == Some(r) && start <= a < r.base + r.len
    ensures Mapped(m, a) && HostOf(m, a) == HostOf(m, start) + (a - start)
  {
    LookupHit(m, r, a);
  }

  /** The guest range `[addr, addr + n)` is one contiguous range of the remote process. */
  ghost predicate HostContiguous(m: seq<Region>, addr: int, n: nat) {
    forall a :: addr <= a < addr + n ==> Mapped(m, addr) && Mapped(m, a) && HostOf(m, a) == HostOf(m, addr) + (a - addr)
  }

  /** An access that ends inside the region it starts in is contiguous. */
  lemma OneRegionContiguous(m: seq<Region>, addr: int, n: nat)
    requires ValidMap(m) && Mapped(m, addr)
    requires var r := Lookup(m, addr).value; addr + n <= r.base + r.len
    ensures HostContiguous(m, addr, n)
  {
    var r := Lookup(m, addr).value;
    forall a | addr <= a < addr + n
      ensures Mapped(m, a) && HostOf(m, a) == HostOf(m, addr) + (a - addr)
    {
      RegionIsLinear(m, r, addr, a);
    }
  }

  lemma {:induction false} ByteAfterMore(m: seq<Region>, mem: Memory, addr: int, data: seq<byte>, i: nat, n: nat,
                                         k: nat, h: int)
    requires i + n + k <= |data| && h in mem && Mapped(m, addr + n) && HostContiguous(m, addr + n, k)
    ensures ByteAfter(m, mem, addr, data, i, n + k, h)
         == var at := HostOf(m, addr + n);
            if at <= h < at + k then data[i + n + (h - at)] else ByteAfter(m, mem, addr, data, i, n, h)
    decreases k
  {
    if k > 0 {
      ByteAfterMore(m, mem, addr, data, i, n, k - 1, h);
      assert Mapped(m, addr + n + k - 1);
    }
  }

  /** Laying down the next contiguous piece extends what was stored byte by byte. */
  lemma EachMore(m: seq<Region>, mem: Memory, addr: int, data: seq<byte>, i: nat, n: nat, k: nat)
    requires i + n + k <= |data| && Mapped(m, addr + n) && HostContiguous(m, addr + n, k)
    ensures WriteFrom(WriteEach(m, mem, addr, data, i, n), HostOf(m, addr + n), data, i + n, k)
         == WriteEach(m, mem, addr, data, i, n + k)
  {
    forall h | h in mem
      ensures WriteFrom(WriteEach(m, mem, addr, data, i, n), HostOf(m, addr + n), data, i + n, k)[h]
           == WriteEach(m, mem, addr, data, i, n + k)[h]
    {
      ByteAfterMore(m, mem, addr, data, i, n, k, h);
    }
  }

  lemma EachNone(m: seq<Region>, mem: Memory, addr: int, data: seq<byte>, i: nat)
    requires i <= |data|
    ensures WriteEach(m, mem, addr, data, i, 0) == mem
  {
  }

  /** One contiguous transfer is the bytes stored one at a time. */
  lemma ContiguousEach(m: seq<Region>, mem: Memory, buf: seq<byte>, addr: int)
    requires Mapped(m, addr) && HostContiguous(m, addr, |buf|)
    ensures WriteFrom(mem, HostOf(m, addr), buf, 0, |buf|) == WriteEach(m, mem, addr, buf, 0, |buf|)
  {
    EachNone(m, mem, addr, buf, 0);
    EachMore(m, mem, addr, buf, 0, 0, |buf|);
  }

  lemma WriteRangeAll(mem: Memory, at: int, data: seq<byte>)
    ensures WriteFrom(mem, at, data, 0, |data|) == WriteRange(mem, at, data)
  {
  }

  /** The remote address `h` backs a guest address in `[addr, addr + n)`. */
  ghost predicate Backs(m: seq<Region>, addr: int, n: nat, h: int) {
    exists a :: addr <= a < addr + n && Mapped(m, a) && HostOf(m, a) == h
  }

  /** Every remote byte afterwards is a byte stored at a guest address it backs, or it did not change. */
  lemma {:induction false} EachOrigin(m: seq<Region>, mem: Memory, addr: int, data: seq<byte>, i: nat, n: nat, h: int)
    requires i + n <= |data| && h in mem
    ensures !Backs(m, addr, n, h) ==> ByteAfter(m, mem, addr, data, i, n, h) == mem[h]
    ensures Backs(m, addr, n, h) ==>
              exists a :: addr <= a < addr + n && Mapped(m, a) && HostOf(m, a) == h
                          && ByteAfter(m, mem, addr, data, i, n, h) == data[i + (a - addr)]
    decreases n
  {
    if n > 0 {
      EachOrigin(m, mem, addr, data, i, n - 1, h);
      var last := addr + n - 1;
      if !(Mapped(m, last) && HostOf(m, last) == h) {
        assert Backs(m, addr, n, h) <==> Backs(m, addr, n - 1, h);
      }
    }
  }

  /** Bytes stored at addresses that do not share their remote bytes are all there afterwards. */
  lemma EachHolds(m: seq<Region>, mem: Memory, addr: int, data: seq<byte>, i: nat, n: nat, a: int)
    requires i + n <= |data| && Distinct(m, addr, n) && addr <= a < addr + n && Mapped(m, a) && HostOf(m, a) in mem
    ensures ByteAfter(m, mem, addr, data, i, n, HostOf(m, a)) == data[i + (a - addr)]
  {
    EachOrigin(m, mem, addr, data, i, n, HostOf(m, a));
  }

  lemma EachAt(m: seq<Region>, mem: Memory, addr: u64, data: seq<byte>, i: nat, n: nat, a: int)
    requires i + n <= |data| && Unshared(m, addr, n) && Mapped(m, a) && HostOf(m, a) in mem
    ensures ByteAfter(m, mem, addr, data, i, n, HostOf(m, a))
         == if addr <= a < addr + n then data[i + (a - addr)] else mem[HostOf(m, a)]
  {
    if addr <= a < addr + n {
      EachHolds(m, mem, addr, data, i, n, a);
    } else {
      EachOrigin(m, mem, addr, data, i, n, HostOf(m, a));
    }
  }

  /** In terms of the flat memory the stores replace exactly `[addr, addr + n)`. */
  lemma EachIsFlat(m: seq<Region>, mem: Memory, addr: u64, data: seq<byte>, i: nat, n: nat)
    requires i + n <= |data| && Unshared(m, addr, n)
    ensures Flat(m, WriteEach(m, mem, addr, data, i, n)) == WriteRange(Flat(m, mem), addr, data[i..i + n])
  {
    var mem1 := WriteEach(m, mem, addr, data, i, n);
    var flat0, flat1 := Flat(m, mem), Flat(m, mem1);
    WriteRangeSlice(flat0, addr, data, i, n);
    assert flat1.Keys == flat0.Keys;
    forall a | a in flat1
      ensures flat1[a] == WriteFrom(flat0, addr, data, i, n)[a]
    {
      EachAt(m, mem, addr, data, i, n, a);
    }
  }

  lemma AllIsFlat(m: seq<Region>, mem: Memory, addr: u64, data: seq<byte>)
    requires Unshared(m, addr, |data|)
    ensures Flat(m, WriteEach(m, mem, addr, data, 0, |data|)) == WriteRange(Flat(m, mem), addr, data)
  {
    EachIsFlat(m, mem, addr, data, 0, |data|);
    assert data[0..0 + |data|] == data;
  }

  lemma PieceIsTransfer(m: seq<Region>, buf: seq<byte>, addr: u64, mem: Memory, o: nat, l: nat, a: nat, r: Region)
    requires ValidMap(m) && Reachable(m, |buf|, addr, o, l, a, r)
    ensures Mapped(m, addr + o) && HostOf(m, addr + o) == r.host + a && HostContiguous(m, addr + o, l)
    ensures o + l <= |buf| && (l == 0 ==> o == |buf|) && l == PieceLen(m, |buf|, addr, o)
    ensures o + l == |buf| || PieceStart(m, addr, o + l)
    ensures WriteClamped(buf, mem, o, a, r) == Transfer(mem, HostOf(m, addr + o), buf, o, l)
  {
    ReachablePiece(m, |buf|, addr, o, l, a, r);
    OneRegionContiguous(m, addr + o, l);
  }

  /** The piece that starts after `o` bytes is the first one with a byte that cannot be accessed. */
  ghost predicate StopsAt(m: seq<Region>, mem: Memory, addr: int, count: nat, o: nat) {
    && o < count && PieceStart(m, addr, o) && Mapped(m, addr + o)
    && Hosted(m, mem, addr, o) && !Hosted(m, mem, addr, o + PieceLen(m, count, addr, o))
  }

  /** There is at most one such piece. */
  lemma StopUnique(m: seq<Region>, mem: Memory, addr: int, count: nat, o: nat, k: nat)
    requires ValidMap(m) && StopsAt(m, mem, addr, count, o) && StopsAt(m, mem, addr, count, k)
    ensures o == k
  {
    if o < k {
      StopBefore(m, mem, addr, count, o, k);
    } else if k < o {
      StopBefore(m, mem, addr, count, k, o);
    }
  }

  lemma StopBefore(m: seq<Region>, mem: Memory, addr: int, count: nat, o: nat, k: nat)
    requires ValidMap(m) && o < k && StopsAt(m, mem, addr, count, o)
    ensures !StopsAt(m, mem, addr, count, k)
  {
    var r := Lookup(m, addr + o).value;
    if addr + k < r.base + r.len {
      LookupHit(m, r, addr + k);
    } else {
      assert Hosted(m, mem, addr, k) ==> Hosted(m, mem, addr, o + PieceLen(m, count, addr, o));
    }
  }

  lemma PieceRefused(m: seq<Region>, mem: Memory, addr: int, count: nat, o: nat)
    requires o < count && PieceStart(m, addr, o) && Mapped(m, addr + o) && Hosted(m, mem, addr, o)
    requires HostContiguous(m, addr + o, PieceLen(m, count, addr, o))
    requires !Accessible(mem, HostOf(m, addr + o), PieceLen(m, count, addr, o))
    ensures StopsAt(m, mem, addr, count, o) && Broken(m, mem, addr, count)
  {
    var l, at := PieceLen(m, count, addr, o), HostOf(m, addr + o);
    HostedMore(m, mem, addr, o, l);
    var h :| at <= h < at + l && h !in mem;
    assert HostOf(m, addr + o + (h - at)) == h;
  }

  lemma HostedMore(m: seq<Region>, mem: Memory, addr: int, n: nat, k: nat)
    requires Hosted(m, mem, addr, n) && Mapped(m, addr + n) && HostContiguous(m, addr + n, k)
    ensures Accessible(mem, HostOf(m, addr + n), k) ==> Hosted(m, mem, addr, n + k)
    ensures !Accessible(mem, HostOf(m, addr + n), k) ==>
              forall count: nat :: n + k <= count ==> Broken(m, mem, addr, count)
  {
    var at := HostOf(m, addr + n);
    if h :| at <= h < at + k && h !in mem {
      assert AllMapped(m, addr, n + k);
      var a := addr + n + (h - at);
      assert Mapped(m, a) && HostOf(m, a) == h;
      assert !Hosted(m, mem, addr, n + k);
    }
  }

  /** Every piece before the first one with an inaccessible byte reached memory, and nothing else did. */
  ghost predicate PrefixWritten(m: seq<Region>, mem0: Memory, mem1: Memory, buf: seq<byte>, addr: u64) {
    exists o: nat :: StopsAt(m, mem0, addr, |buf|, o) && mem1 == WriteEach(m, mem0, addr, buf, 0, o)
  }

  /** The outcome the `Bytes` contract promises for a write. */
  ghost predicate GoodWrite(m: seq<Region>, mem: Memory, buf: seq<byte>, addr: u64, run: Run<Memory>) {
    if Mapped(m, addr) then
      && run.result.Ok? && IsRun(m, addr, |buf|, run.result.value)
      && Hosted(m, mem, addr, run.result.value)
      && run.state == WriteEach(m, mem, addr, buf, 0, run.result.value)
    else
      run.result == Err(InvalidGuestAddress(addr)) && run.state == mem
  }

  ghost function WriteInv(m: seq<Region>, mem: Memory, buf: seq<byte>, addr: u64): (Memory, nat) -> bool {
    (mem1: Memory, o: nat) =>
      && o <= |buf| && (o == |buf| || PieceStart(m, addr, o))
      && Hosted(m, mem, addr, o) && mem1 == WriteEach(m, mem, addr, buf, 0, o)
  }

  ghost function WriteFailed(m: seq<Region>, mem: Memory, buf: seq<byte>, addr: u64): (Memory, Error) -> bool {
    (mem1: Memory, e: Error) =>
      e == RemoteMemError(Rw) && Broken(m, mem, addr, |buf|) && PrefixWritten(m, mem, mem1, buf, addr)
  }

  /** Nothing was left to write. */
  ghost function WriteIdle(m: seq<Region>, mem: Memory, buf: seq<byte>, addr: u64): (Memory, nat) -> bool {
    (mem1: Memory, o: nat) => WriteInv(m, mem, buf, addr)(mem1, o) && o == |buf|
  }

  lemma WriteStored(m: seq<Region>, mem: Memory, buf: seq<byte>, addr: u64, mem1: Memory, o: nat, l: nat)
    requires o + l <= |buf| && WriteInv(m, mem, buf, addr)(mem1, o) && (o + l == |buf| || PieceStart(m, addr, o + l))
    requires Mapped(m, addr + o) && HostContiguous(m, addr + o, l) && Accessible(mem, HostOf(m, addr + o), l)
    ensures WriteInv(m, mem, buf, addr)(WriteFrom(mem1, HostOf(m, addr + o), buf, o, l), o + l)
  {
    HostedMore(m, mem, addr, o, l);
    EachMore(m, mem, addr, buf, 0, o, l);
  }

  lemma WriteRefused(m: seq<Region>, mem: Memory, buf: seq<byte>, addr: u64, mem1: Memory, o: nat, l: nat)
    requires o + l <= |buf| && WriteInv(m, mem, buf, addr)(mem1, o)
    requires Mapped(m, addr + o) && HostContiguous(m, addr + o, l) && l == PieceLen(m, |buf|, addr, o)
    requires !Accessible(mem, HostOf(m, addr + o), l)
    ensures WriteFailed(m, mem, buf, addr)(mem1, RemoteMemError(Rw))
  {
    PieceRefused(m, mem, addr, |buf|, o);
    assert PrefixWritten(m, mem, mem1, buf, addr);
  }

  lemma WriteServed(m: seq<Region>, mem: Memory, buf: seq<byte>, addr: u64, mem1: Memory, o: nat, l: nat)
    requires o + l <= |buf| && WriteInv(m, mem, buf, addr)(mem1, o)
    requires Mapped(m, addr + o) && HostContiguous(m, addr + o, l) && (l == 0 ==> o == |buf|)
    requires l == PieceLen(m, |buf|, addr, o) && (o + l == |buf| || PieceStart(m, addr, o + l))
    ensures GoodAnswer(Transfer(mem1, HostOf(m, addr + o), buf, o, l), o, l,
                       WriteInv(m, mem, buf, addr), WriteIdle(m, mem, buf, addr),
                       WriteFailed(m, mem, buf, addr))
  {
    if Accessible(mem, HostOf(m, addr + o), l) {
      WriteStored(m, mem, buf, addr, mem1, o, l);
    } else {
      WriteRefused(m, mem, buf, addr, mem1, o, l);
    }
  }

  lemma WriteAnswer(m: seq<Region>, mem: Memory, buf: seq<byte>, addr: u64,
                    mem1: Memory, o: nat, l: nat, a: nat, r: Region)
    requires ValidMap(m)
    requires Reachable(m, |buf|, addr, o, l, a, r) && WriteInv(m, mem, buf, addr)(mem1, o)
    ensures GoodAnswer(WriteClamped(buf, mem1, o, a, r), o, l,
                       WriteInv(m, mem, buf, addr), WriteIdle(m, mem, buf, addr),
                       WriteFailed(m, mem, buf, addr))
  {
    PieceIsTransfer(m, buf, addr, mem1, o, l, a, r);
    WriteServed(m, mem, buf, addr, mem1, o, l);
  }

  lemma WriteKeeps(m: seq<Region>, mem: Memory, buf: seq<byte>, addr: u64)
    requires ValidMap(m)
    ensures StepKeeps(m, |buf|, addr, WriteClosure(buf), WriteInv(m, mem, buf, addr), WriteIdle(m, mem, buf, addr),
                      WriteFailed(m, mem, buf, addr))
  {
    var inv, failed := WriteInv(m, mem, buf, addr), WriteFailed(m, mem, buf, addr);
    forall mem1, o: nat, l: nat, a: nat, r | Reachable(m, |buf|, addr, o, l, a, r) && inv(mem1, o)
      ensures GoodAnswer(WriteClosure(buf)(mem1, o, l, a, r), o, l, inv, WriteIdle(m, mem, buf, addr), failed)
    {
      WriteAnswer(m, mem, buf, addr, mem1, o, l, a, r);
    }
  }

  /** A completed run meets no inaccessible byte. */
  lemma HostedUnbroken(m: seq<Region>, mem: Memory, addr: int, count: nat, k: nat)
    requires IsRun(m, addr, count, k) && Hosted(m, mem, addr, k)
    ensures !Broken(m, mem, addr, count)
  {
    forall n: nat | n <= count && AllMapped(m, addr, n)
      ensures Hosted(m, mem, addr, n)
    {
      assert k < count && addr + k < addr + n ==> !Mapped(m, addr + k);
    }
  }

  lemma WriteRuns(m: seq<Region>, mem: Memory, buf: seq<byte>, addr: u64)
    requires ValidMap(m)
    ensures Delivers(m, |buf|, addr, mem, 0, GuestWrite(m, mem, buf, addr),
                     WriteInv(m, mem, buf, addr), WriteIdle(m, mem, buf, addr), WriteFailed(m, mem, buf, addr))
  {
    EachNone(m, mem, addr, buf, 0);
    WriteKeeps(m, mem, buf, addr);
    AccessRule(m, |buf|, addr, WriteClosure(buf), mem, addr, 0,
               WriteInv(m, mem, buf, addr), WriteIdle(m, mem, buf, addr), WriteFailed(m, mem, buf, addr));
  }

  /** Whatever the map and whatever can be accessed: a write stores the whole mapped run byte by byte, or, exactly
      when that run meets an inaccessible byte, it fails after storing a prefix. */
  lemma WriteDelivers(m: seq<Region>, mem: Memory, buf: seq<byte>, addr: u64)
    requires ValidMap(m)
    ensures var run := GuestWrite(m, mem, buf, addr);
            if Mapped(m, addr) && Broken(m, mem, addr, |buf|)
            then run.result == Err(RemoteMemError(Rw)) && PrefixWritten(m, mem, run.state, buf, addr)
            else GoodWrite(m, mem, buf, addr, run)
  {
    WriteRuns(m, mem, buf, addr);
    UnmappedStart(m, |buf|, addr, WriteClosure(buf), mem);
    var run := GuestWrite(m, mem, buf, addr);
    if run.result.Ok? {
      HostedUnbroken(m, mem, addr, |buf|, run.result.value);
    }
  }

  /** Guest writes refine the flat memory: `n` is the buffer length cut at the first hole, and where no other
      guest address shares the remote bytes the flat memory changes on `[addr, addr + n)` only. */
  lemma WriteRefinesFlat(m: seq<Region>, mem: Memory, buf: seq<byte>, addr: u64)
    requires ValidMap(m)
    ensures var run := GuestWrite(m, mem, buf, addr);
            if !Mapped(m, addr) then
              run.result == Err(InvalidGuestAddress(addr)) && run.state == mem
            else if Broken(m, mem, addr, |buf|) then
              run.result == Err(RemoteMemError(Rw))
            else
              && run.result.Ok? && IsRun(m, addr, |buf|, run.result.value)
              && (Unshared(m, addr, run.result.value) ==>
                    Flat(m, run.state) == WriteRange(Flat(m, mem), addr, buf[..run.result.value]))
  {
    var run := GuestWrite(m, mem, buf, addr);
    WriteDelivers(m, mem, buf, addr);
    if run.result.Ok? && Unshared(m, addr, run.result.value) {
      EachIsFlat(m, mem, addr, buf, 0, run.result.value);
      assert buf[0..run.result.value] == buf[..run.result.value];
    }
  }

  lemma RunUnique(m: seq<Region>, addr: int, count: nat, j: nat, k: nat)
    requires IsRun(m, addr, count, j) && IsRun(m, addr, count, k)
    ensures j == k
  {
  }

  /** All of the remote address space, zero everywhere but at `spot`. */
  ghost function Marked(spot: int): Memory {
    map a: int | 0 <= a < U64_LIMIT && InSpace(a) :: if a == spot then 1 else 0
  }

  predicate InSpace(a: int) {
    0 <= a < U64_LIMIT
  }

  lemma MarkedBacked(m: seq<Region>, spot: int)
    requires ValidMap(m)
    ensures Backed(m, Marked(spot))
  {
  }

  /** The buffer that is zero everywhere but at index `k`. */
  function Pulse(n: nat, k: int): seq<byte> {
    seq(n, i => if i == k then 1 else 0)
  }

  /** A pulse written over zeros is one at its place and zero elsewhere. */
  lemma PulseInZeros(mem: Memory, at: int, n: nat, len: nat, k: nat, x: int)
    requires x in mem && mem[x] == 0 && k < len <= n
    ensures WriteRange(mem, at, Pulse(n, k)[..len])[x] == if x == at + k then 1 else 0
  {
  }

  /** A single one written at `a` shows up at `b` as well when they share a remote byte. */
  lemma PulseTellsApart(m: seq<Region>, mem1: Memory, addr: u64, n: nat, k: nat, a: int, b: int)
    requires ValidMap(m) && k <= n && addr <= a < addr + k && a != b && Mapped(m, a) && Mapped(m, b)
    requires Flat(m, mem1) == WriteRange(Flat(m, Marked(-1)), addr, Pulse(n, a - addr)[..k])
    ensures HostOf(m, a) != HostOf(m, b)
  {
    var flat0 := Flat(m, Marked(-1));
    ZeroAt(m, a);
    ZeroAt(m, b);
    PulseInZeros(flat0, addr, n, k, a - addr, a);
    PulseInZeros(flat0, addr, n, k, a - addr, b);
  }

  lemma ZeroAt(m: seq<Region>, a: int)
    requires ValidMap(m) && Mapped(m, a)
    ensures a in Flat(m, Marked(-1)) && Flat(m, Marked(-1))[a] == 0
  {
    MarkedBacked(m, -1);
    BackedHost(m, Marked(-1), a);
    MappedIff(m, a);
  }

  /** The condition is exact: for all contents of memory and buffer the write is one write of the flat memory if
      and only if no other guest address shares the bytes written. */
  lemma WriteFlatExact(m: seq<Region>, addr: u64, n: nat, k: nat)
    requires ValidMap(m) && Mapped(m, addr) && IsRun(m, addr, n, k)
    ensures (forall mem, buf :: |buf| == n && Backed(m, mem) ==>
               Flat(m, GuestWrite(m, mem, buf, addr).state) == WriteRange(Flat(m, mem), addr, buf[..k]))
       <==> Unshared(m, addr, k)
  {
    if Unshared(m, addr, k) {
      forall mem, buf: seq<byte> | |buf| == n && Backed(m, mem)
        ensures Flat(m, GuestWrite(m, mem, buf, addr).state) == WriteRange(Flat(m, mem), addr, buf[..k])
      {
        BackedUnbroken(m, mem, addr, n);
        WriteRefinesFlat(m, mem, buf, addr);
        RunUnique(m, addr, n, k, GuestWrite(m, mem, buf, addr).result.value);
      }
    }
    if forall mem, buf :: |buf| == n && Backed(m, mem) ==>
         Flat(m, GuestWrite(m, mem, buf, addr).state) == WriteRange(Flat(m, mem), addr, buf[..k]) {
      MarkedBacked(m, -1);
      forall a, b | addr <= a < addr + k && a != b && Mapped(m, a) && Mapped(m, b)
        ensures HostOf(m, a) != HostOf(m, b)
      {
        var buf := Pulse(n, a - addr);
        assert |buf| == n;
        PulseTellsApart(m, GuestWrite(m, Marked(-1), buf, addr).state, addr, n, k, a, b);
      }
    }
  }

  // ---------------------------------------------------------------------------------------------
  // Reading
  // ---------------------------------------------------------------------------------------------

  /** A transfer of `n` bytes out of the remote process into the buffer at index `o`: all of it or an error. */
  function Fetch(mem: Memory, at: int, buf: seq<byte>, o: nat, n: nat): (seq<byte>, Outcome<nat, Error>)
    requires o + n <= |buf|
  {
    if Accessible(mem, at, n) then (Patch(buf, o, ReadRange(mem, at, n)), Ok(n)) else (buf, Err(RemoteMemError(Rw)))
  }

  /** The closure of `read` over a region whose own `read` stops at the region's end; the buffer keeps its length. */
  function ReadClamped(mem: Memory, count: nat, buf: seq<byte>, o: nat, a: nat, r: Region)
    : (seq<byte>, Outcome<nat, Error>)
  {
    if |buf| != count || o > count then (buf, Panic)
    else if a >= r.len then (buf, Err(InvalidBackendAddress))
    else Fetch(mem, r.host + a, buf, o, Min(count - o, r.len - a))
  }

  function ReadClosure(mem: Memory, count: nat): Callback<seq<byte>> {
    (buf: seq<byte>, o: nat, l: nat, a: nat, r: Region) => ReadClamped(mem, count, buf, o, a, r)
  }

  function GuestRead(m: seq<Region>, mem: Memory, buf: seq<byte>, addr: u64): Run<seq<byte>> {
    AccessAll(m, |buf|, addr, ReadClosure(mem, |buf|), buf)
  }

  /** The first `o` bytes of the buffer come from guest memory at `addr`; the others are untouched. */
  ghost predicate Filled(m: seq<Region>, mem: Memory, buf0: seq<byte>, buf1: seq<byte>, addr: int, o: nat) {
    && |buf1| == |buf0| && o <= |buf0|
    && (forall a :: addr <= a < addr + o ==>
          Mapped(m, a) && HostOf(m, a) in mem && buf1[a - addr] == mem[HostOf(m, a)])
    && buf1[o..] == buf0[o..]
  }

  lemma FilledNextPiece(m: seq<Region>, mem: Memory, buf0: seq<byte>, buf1: seq<byte>, addr: u64, o: nat, l: nat)
    requires Filled(m, mem, buf0, buf1, addr, o) && o + l <= |buf0|
    requires Mapped(m, addr + o) && HostContiguous(m, addr + o, l) && Accessible(mem, HostOf(m, addr + o), l)
    ensures Filled(m, mem, buf0, Patch(buf1, o, ReadRange(mem, HostOf(m, addr + o), l)), addr, o + l)
  {
    var at := HostOf(m, addr + o);
    var buf2 := Patch(buf1, o, ReadRange(mem, at, l));
    forall a | addr + o <= a < addr + o + l
      ensures Mapped(m, a) && HostOf(m, a) in mem && buf2[a - addr] == mem[HostOf(m, a)]
    {
      assert HostOf(m, a) == at + (a - addr - o);
    }
    assert forall i :: o + l <= i < |buf0| ==> buf2[i] == buf1[i] == buf1[o..][i - o] == buf0[i];
  }

  lemma FilledHosted(m: seq<Region>, mem: Memory, buf0: seq<byte>, buf1: seq<byte>, addr: int, o: nat)
    requires Filled(m, mem, buf0, buf1, addr, o)
    ensures Hosted(m, mem, addr, o)
  {
  }

  /** Every piece before the first one with an inaccessible byte was filled, and the rest of the buffer is untouched. */
  ghost predicate PrefixFilled(m: seq<Region>, mem: Memory, buf0: seq<byte>, buf1: seq<byte>, addr: int) {
    exists o: nat :: StopsAt(m, mem, addr, |buf0|, o) && Filled(m, mem, buf0, buf1, addr, o)
  }

  ghost function ReadInv(m: seq<Region>, mem: Memory, buf: seq<byte>, addr: u64): (seq<byte>, nat) -> bool {
    (buf1: seq<byte>, o: nat) => Filled(m, mem, buf, buf1, addr, o) && (o == |buf| || PieceStart(m, addr, o))
  }

  ghost function ReadIdle(m: seq<Region>, mem: Memory, buf: seq<byte>, addr: u64): (seq<byte>, nat) -> bool {
    (buf1: seq<byte>, o: nat) => ReadInv(m, mem, buf, addr)(buf1, o) && o == |buf|
  }

  ghost function ReadFailed(m: seq<Region>, mem: Memory, buf: seq<byte>, addr: u64): (seq<byte>, Error) -> bool {
    (buf1: seq<byte>, e: Error) =>
      e == RemoteMemError(Rw) && Broken(m, mem, addr, |buf|) && PrefixFilled(m, mem, buf, buf1, addr)
  }

  lemma ReadServed(m: seq<Region>, mem: Memory, buf: seq<byte>, addr: u64, buf1: seq<byte>, o: nat, l: nat)
    requires o + l <= |buf| && ReadInv(m, mem, buf, addr)(buf1, o)
    requires Mapped(m, addr + o) && HostContiguous(m, addr + o, l) && (l == 0 ==> o == |buf|)
    requires l == PieceLen(m, |buf|, addr, o) && (o + l == |buf| || PieceStart(m, addr, o + l))
    ensures |buf1| == |buf|
    ensures GoodAnswer(Fetch(mem, HostOf(m, addr + o), buf1, o, l), o, l,
                       ReadInv(m, mem, buf, addr), ReadIdle(m, mem, buf, addr),
                       ReadFailed(m, mem, buf, addr))
  {
    if Accessible(mem, HostOf(m, addr + o), l) {
      FilledNextPiece(m, mem, buf, buf1, addr, o, l);
    } else {
      FilledHosted(m, mem, buf, buf1, addr, o);
      PieceRefused(m, mem, addr, |buf|, o);
      assert PrefixFilled(m, mem, buf, buf1, addr);
    }
  }

  lemma PieceIsFetch(m: seq<Region>, mem: Memory, buf: seq<byte>, addr: u64, o: nat, l: nat, a: nat, r: Region)
    requires ValidMap(m) && Reachable(m, |buf|, addr, o, l, a, r)
    ensures Mapped(m, addr + o) && HostOf(m, addr + o) == r.host + a && HostContiguous(m, addr + o, l)
    ensures o + l <= |buf| && (l == 0 ==> o == |buf|) && l == PieceLen(m, |buf|, addr, o)
    ensures o + l == |buf| || PieceStart(m, addr, o + l)
    ensures ReadClamped(mem, |buf|, buf, o, a, r) == Fetch(mem, HostOf(m, addr + o), buf, o, l)
  {
    ReachablePiece(m, |buf|, addr, o, l, a, r);
    OneRegionContiguous(m, addr + o, l);
  }

  lemma ReadAnswer(m: seq<Region>, mem: Memory, buf: seq<byte>, addr: u64,
                   buf1: seq<byte>, o: nat, l: nat, a: nat, r: Region)
    requires ValidMap(m)
    requires Reachable(m, |buf|, addr, o, l, a, r) && ReadInv(m, mem, buf, addr)(buf1, o)
    ensures GoodAnswer(ReadClamped(mem, |buf|, buf1, o, a, r), o, l,
                       ReadInv(m, mem, buf, addr), ReadIdle(m, mem, buf, addr),
                       ReadFailed(m, mem, buf, addr))
  {
    PieceIsFetch(m, mem, buf1, addr, o, l, a, r);
    ReadServed(m, mem, buf, addr, buf1, o, l);
  }

  lemma ReadKeeps(m: seq<Region>, mem: Memory, buf: seq<byte>, addr: u64)
    requires ValidMap(m)
    ensures StepKeeps(m, |buf|, addr, ReadClosure(mem, |buf|), ReadInv(m, mem, buf, addr), ReadIdle(m, mem, buf, addr),
                      ReadFailed(m, mem, buf, addr))
  {
    var inv, failed := ReadInv(m, mem, buf, addr), ReadFailed(m, mem, buf, addr);
    forall buf1, o: nat, l: nat, a: nat, r | Reachable(m, |buf|, addr, o, l, a, r) && inv(buf1, o)
      ensures GoodAnswer(ReadClosure(mem, |buf|)(buf1, o, l, a, r), o, l, inv, ReadIdle(m, mem, buf, addr), failed)
    {
      ReadAnswer(m, mem, buf, addr, buf1, o, l, a, r);
    }
  }

  /** The outcome the `Bytes` contract promises for a read. */
  ghost predicate GoodRead(m: seq<Region>, mem: Memory, buf: seq<byte>, addr: u64, run: Run<seq<byte>>) {
    if Mapped(m, addr) then
      && run.result.Ok? && IsRun(m, addr, |buf|, run.result.value)
      && Filled(m, mem, buf, run.state, addr, run.result.value)
    else
      run.result == Err(InvalidGuestAddress(addr)) && run.state == buf
  }

  lemma ReadRuns(m: seq<Region>, mem: Memory, buf: seq<byte>, addr: u64)
    requires ValidMap(m)
    ensures Delivers(m, |buf|, addr, buf, 0, GuestRead(m, mem, buf, addr),
                     ReadInv(m, mem, buf, addr), ReadIdle(m, mem, buf, addr), ReadFailed(m, mem, buf, addr))
  {
    ReadKeeps(m, mem, buf, addr);
    AccessRule(m, |buf|, addr, ReadClosure(mem, |buf|), buf, addr, 0,
               ReadInv(m, mem, buf, addr), ReadIdle(m, mem, buf, addr), ReadFailed(m, mem, buf, addr));
  }

  /** The mirror statement for reads. */
  lemma ReadDelivers(m: seq<Region>, mem: Memory, buf: seq<byte>, addr: u64)
    requires ValidMap(m)
    ensures var run := GuestRead(m, mem, buf, addr);
            if Mapped(m, addr) && Broken(m, mem, addr, |buf|)
            then run.result == Err(RemoteMemError(Rw)) && PrefixFilled(m, mem, buf, run.state, addr)
            else GoodRead(m, mem, buf, addr, run)
  {
    ReadRuns(m, mem, buf, addr);
    UnmappedStart(m, |buf|, addr, ReadClosure(mem, |buf|), buf);
    var run := GuestRead(m, mem, buf, addr);
    if run.result.Ok? {
      FilledHosted(m, mem, buf, run.state, addr, run.result.value);
      HostedUnbroken(m, mem, addr, |buf|, run.result.value);
    }
  }

  lemma FilledIsFlat(m: seq<Region>, mem: Memory, buf0: seq<byte>, buf1: seq<byte>, addr: u64, n: nat)
    requires ValidMap(m) && Filled(m, mem, buf0, buf1, addr, n)
    ensures Accessible(Flat(m, mem), addr, n)
    ensures buf1 == ReadRange(Flat(m, mem), addr, n) + buf0[n..]
  {
    var flat := Flat(m, mem);
    forall a | addr <= a < addr + n
      ensures a in flat && flat[a] == buf1[a - addr]
    {
      MappedIff(m, a);
    }
    assert buf1[..n] == ReadRange(flat, addr, n);
    assert buf1 == buf1[..n] + buf1[n..];
  }

  /** Guest reads refine the flat memory: the filled prefix is the flat memory's own range. */
  lemma ReadRefinesFlat(m: seq<Region>, mem: Memory, buf: seq<byte>, addr: u64)
    requires ValidMap(m)
    ensures var run := GuestRead(m, mem, buf, addr);
            if !Mapped(m, addr) then
              run.result == Err(InvalidGuestAddress(addr)) && run.state == buf
            else if Broken(m, mem, addr, |buf|) then
              run.result == Err(RemoteMemError(Rw))
            else
              && run.result.Ok? && IsRun(m, addr, |buf|, run.result.value)
              && Accessible(Flat(m, mem), addr, run.result.value)
              && run.state == ReadRange(Flat(m, mem), addr, run.result.value) + buf[run.result.value..]
  {
    ReadDelivers(m, mem, buf, addr);
    var run := GuestRead(m, mem, buf, addr);
    if run.result.Ok? {
      FilledIsFlat(m, mem, buf, run.state, addr, run.result.value);
    }
  }

  lemma SameBroken(m: seq<Region>, mem0: Memory, mem1: Memory, addr: int, count: nat)
    requires mem0.Keys == mem1.Keys && Broken(m, mem1, addr, count)
    ensures Broken(m, mem0, addr, count)
  {
    var n: nat :| n <= count && AllMapped(m, addr, n) && !Hosted(m, mem1, addr, n);
    assert !Hosted(m, mem0, addr, n);
  }

  lemma FilledFromEach(m: seq<Region>, mem: Memory, buf: seq<byte>, out: seq<byte>, out1: seq<byte>, addr: u64, n: nat)
    requires n <= |buf| && Hosted(m, mem, addr, n) && Distinct(m, addr, n)
    requires Filled(m, WriteEach(m, mem, addr, buf, 0, n), out, out1, addr, n)
    ensures out1 == buf[..n] + out[n..]
  {
    forall i | 0 <= i < n
      ensures out1[i] == buf[i]
    {
      EachHolds(m, mem, addr, buf, 0, n, addr + i);
      assert HostOf(m, addr + i) in mem;
    }
    assert out1 == out1[..n] + out1[n..];
  }

  /** Reading the range just written returns the same count and the bytes written, across any number of
      region boundaries. */
  lemma ReadBackWritten(m: seq<Region>, mem: Memory, buf: seq<byte>, out: seq<byte>, addr: u64)
    requires ValidMap(m) && Mapped(m, addr) && !Broken(m, mem, addr, |buf|) && |out| == |buf|
    ensures var w := GuestWrite(m, mem, buf, addr);
            var r := GuestRead(m, w.state, out, addr);
            && w.result.Ok? && r.result == w.result && w.result.value <= |buf|
            && (Distinct(m, addr, w.result.value) ==> r.state == buf[..w.result.value] + out[w.result.value..])
  {
    WriteDelivers(m, mem, buf, addr);
    var w := GuestWrite(m, mem, buf, addr);
    var n := w.result.value;
    if Broken(m, w.state, addr, |buf|) {
      SameBroken(m, mem, w.state, addr, |buf|);
    }
    ReadDelivers(m, w.state, out, addr);
    var r := GuestRead(m, w.state, out, addr);
    RunUnique(m, addr, |buf|, n, r.result.value);
    if Distinct(m, addr, n) {
      FilledFromEach(m, mem, buf, out, r.state, addr, n);
    }
  }

  lemma ReadBackTellsApart(m: seq<Region>, mem1: Memory, addr: u64, n: nat, k: nat, a: int, b: int)
    requires k <= n && addr <= a < addr + k && addr <= b < addr + k && a != b && Mapped(m, a) && Mapped(m, b)
    requires Filled(m, mem1, Pulse(n, -1), Pulse(n, a - addr)[..k] + Pulse(n, -1)[k..], addr, k)
    ensures HostOf(m, a) != HostOf(m, b)
  {
  }

  /** The condition is exact: what is written is read back for all contents if and only if the addresses written
      do not share remote bytes with one another. */
  lemma ReadBackExact(m: seq<Region>, addr: u64, n: nat, k: nat)
    requires ValidMap(m) && Mapped(m, addr) && IsRun(m, addr, n, k)
    ensures (forall mem, buf, out :: |buf| == n && |out| == n && Backed(m, mem) ==>
               GuestRead(m, GuestWrite(m, mem, buf, addr).state, out, addr).state == buf[..k] + out[k..])
       <==> Distinct(m, addr, k)
  {
    if Distinct(m, addr, k) {
      forall mem, buf: seq<byte>, out: seq<byte> | |buf| == n && |out| == n && Backed(m, mem)
        ensures GuestRead(m, GuestWrite(m, mem, buf, addr).state, out, addr).state == buf[..k] + out[k..]
      {
        BackedUnbroken(m, mem, addr, n);
        ReadBackWritten(m, mem, buf, out, addr);
        WriteDelivers(m, mem, buf, addr);
        RunUnique(m, addr, n, k, GuestWrite(m, mem, buf, addr).result.value);
      }
    }
    if forall mem, buf, out :: |buf| == n && |out| == n && Backed(m, mem) ==>
         GuestRead(m, GuestWrite(m, mem, buf, addr).state, out, addr).state == buf[..k] + out[k..] {
      forall a, b | addr <= a < addr + k && addr <= b < addr + k && a != b && Mapped(m, a) && Mapped(m, b)
        ensures HostOf(m, a) != HostOf(m, b)
      {
        var buf, out := Pulse(n, a - addr), Pulse(n, -1);
        ReadOfPulse(m, addr, n, k, buf, out);
        ReadBackTellsApart(m, GuestWrite(m, Marked(-1), buf, addr).state, addr, n, k, a, b);
      }
    }
  }

  lemma ReadOfRun(m: seq<Region>, mem: Memory, out: seq<byte>, addr: u64, n: nat, k: nat)
    requires ValidMap(m) && Mapped(m, addr) && IsRun(m, addr, n, k) && |out| == n
    requires GuestRead(m, mem, out, addr).result.Ok?
    ensures Filled(m, mem, out, GuestRead(m, mem, out, addr).state, addr, k)
  {
    ReadDelivers(m, mem, out, addr);
    RunUnique(m, addr, n, k, GuestRead(m, mem, out, addr).result.value);
  }

  lemma ReadOfPulse(m: seq<Region>, addr: u64, n: nat, k: nat, buf: seq<byte>, out: seq<byte>)
    requires ValidMap(m) && Mapped(m, addr) && IsRun(m, addr, n, k) && |buf| == |out| == n
    ensures Backed(m, Marked(-1))
    ensures var mem1 := GuestWrite(m, Marked(-1), buf, addr).state;
            Filled(m, mem1, out, GuestRead(m, mem1, out, addr).state, addr, k)
  {
    MarkedBacked(m, -1);
    BackedUnbroken(m, Marked(-1), addr, n);
    ReadBackWritten(m, Marked(-1), buf, out, addr);
    var w := GuestWrite(m, Marked(-1), buf, addr);
    ReadOfRun(m, w.state, out, addr, n, k);
  }

  // ---------------------------------------------------------------------------------------------
  // The operations on a running process
  // ---------------------------------------------------------------------------------------------

  /** `Bytes<GuestAddress>::write`. */
  method Write(p: RemoteProcess, m: seq<Region>, buf: seq<byte>, addr: u64) returns (r: Outcome<nat, Error>)
    requires ValidMap(m)
    modifies p
    ensures !Mapped(m, addr) ==> r == Err(InvalidGuestAddress(addr)) && p.mem == old(p.mem)
    ensures Mapped(m, addr) && Broken(m, old(p.mem), addr, |buf|) ==>
              r == Err(RemoteMemError(Rw)) && PrefixWritten(m, old(p.mem), p.mem, buf, addr)
    ensures Mapped(m, addr) && !Broken(m, old(p.mem), addr, |buf|) ==>
              && r.Ok? && IsRun(m, addr, |buf|, r.value)
              && p.mem == WriteEach(m, old(p.mem), addr, buf, 0, r.value)
              && (Unshared(m, addr, r.value) ==>
                    Flat(m, p.mem) == WriteRange(Flat(m, old(p.mem)), addr, buf[..r.value]))
  {
    WriteDelivers(m, p.mem, buf, addr);
    WriteRefinesFlat(m, p.mem, buf, addr);
    var run := TryAccess(m, |buf|, addr, WriteClosure(buf), p.mem);
    p.mem := run.state;
    r := run.result;
  }

  /** `Bytes<GuestAddress>::write_slice`: complete, or an error that tells how much was written. */
  method WriteSlice(p: RemoteProcess, m: seq<Region>, buf: seq<byte>, addr: u64) returns (r: Outcome<(), Error>)
    requires ValidMap(m)
    modifies p
    ensures r.Ok? <==> Mapped(m, addr) && Hosted(m, old(p.mem), addr, |buf|)
    ensures r.Ok? ==>
              && p.mem == WriteEach(m, old(p.mem), addr, buf, 0, |buf|)
              && (Unshared(m, addr, |buf|) ==> Flat(m, p.mem) == WriteRange(Flat(m, old(p.mem)), addr, buf))
    ensures !Mapped(m, addr) ==> r == Err(InvalidGuestAddress(addr)) && p.mem == old(p.mem)
    ensures Mapped(m, addr) && Broken(m, old(p.mem), addr, |buf|) ==>
              r == Err(RemoteMemError(Rw)) && PrefixWritten(m, old(p.mem), p.mem, buf, addr)
    ensures !r.Ok? && Mapped(m, addr) && !Broken(m, old(p.mem), addr, |buf|) ==>
              && r.Err? && r.error.PartialBuffer? && r.error.expected == |buf|
              && IsRun(m, addr, |buf|, r.error.completed)
              && p.mem == WriteEach(m, old(p.mem), addr, buf, 0, r.error.completed)
  {
    ghost var mem0 := p.mem;
    var res := Write(p, m, buf, addr);
    if Mapped(m, addr) && Hosted(m, mem0, addr, |buf|) {
      HostedUnbroken(m, mem0, addr, |buf|, |buf|);
    }
    match res
    case Err(e) => r := Err(e);
    case Ok(n) =>
      if n != |buf| {
        return Err(PartialBuffer(|buf|, n));
      }
      assert buf[..n] == buf;
      UnbrokenHosted(m, mem0, addr, n);
      r := Ok(());
  }

  lemma UnbrokenHosted(m: seq<Region>, mem: Memory, addr: int, n: nat)
    requires AllMapped(m, addr, n) && !Broken(m, mem, addr, n)
    ensures Hosted(m, mem, addr, n)
  {
  }

  /** `Bytes<GuestAddress>::read`, into a buffer whose old contents are `buf`. */
  method Read(p: RemoteProcess, m: seq<Region>, buf: seq<byte>, addr: u64)
    returns (out: seq<byte>, r: Outcome<nat, Error>)
    requires ValidMap(m)
    ensures !Mapped(m, addr) ==> r == Err(InvalidGuestAddress(addr)) && out == buf
    ensures Mapped(m, addr) && Broken(m, p.mem, addr, |buf|) ==>
              r == Err(RemoteMemError(Rw)) && PrefixFilled(m, p.mem, buf, out, addr)
    ensures Mapped(m, addr) && !Broken(m, p.mem, addr, |buf|) ==>
              && r.Ok? && IsRun(m, addr, |buf|, r.value)
              && Accessible(Flat(m, p.mem), addr, r.value)
              && out == ReadRange(Flat(m, p.mem), addr, r.value) + buf[r.value..]
  {
    ReadDelivers(m, p.mem, buf, addr);
    ReadRefinesFlat(m, p.mem, buf, addr);
    var run := TryAccess(m, |buf|, addr, ReadClosure(p.mem, |buf|), buf);
    out, r := run.state, run.result;
  }
}
