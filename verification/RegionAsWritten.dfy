/**
 * `GuestRegionMmap::write` and `read` (src/mmap.rs) as they stand: only the first byte is checked
 * against the region, and the whole remaining buffer goes to the remote process in one transfer.
 */
module RegionAsWritten {
  import opened Words
  import opened RegionMap
  import opened RemoteMem
  import opened SpanAccess
  import opened FlatMemory

  function RegionWrite(buf: seq<byte>, mem: Memory, o: nat, a: nat, r: Region): (Memory, Outcome<nat, Error>) {
    if o > |buf| then (mem, Panic)
    else if a >= r.len then (mem, Err(InvalidGuestAddress(a)))
    else Transfer(mem, r.host + a, buf, o, |buf| - o)
  }

  function RegionWriteClosure(buf: seq<byte>): Callback<Memory> {
    (mem: Memory, o: nat, l: nat, a: nat, r: Region) => RegionWrite(buf, mem, o, a, r)
  }

  function WriteAsWritten(m: seq<Region>, mem: Memory, buf: seq<byte>, addr: u64): Run<Memory> {
    AccessAll(m, |buf|, addr, RegionWriteClosure(buf), mem)
  }

  /** The loop runs once: one transfer from the first byte's remote address. */
  lemma WriteIsOneTransfer(m: seq<Region>, mem: Memory, buf: seq<byte>, addr: u64)
    requires ValidMap(m) && Mapped(m, addr) && |buf| < U64_LIMIT
    ensures var run := WriteAsWritten(m, mem, buf, addr);
            (run.state, run.result) == Transfer(mem, HostOf(m, addr), buf, 0, |buf|)
  {
  }

  lemma ContiguousAccessible(m: seq<Region>, mem: Memory, addr: int, n: nat)
    requires Backed(m, mem) && Mapped(m, addr) && HostContiguous(m, addr, n)
    ensures Accessible(mem, HostOf(m, addr), n)
  {
    var at := HostOf(m, addr);
    forall h | at <= h < at + n
      ensures h in mem
    {
      var a := addr + (h - at);
      assert Mapped(m, a) && HostOf(m, a) == h;
      BackedHost(m, mem, a);
    }
  }

  lemma ContiguousHosted(m: seq<Region>, mem: Memory, addr: int, n: nat)
    requires Backed(m, mem) && HostContiguous(m, addr, n)
    ensures Hosted(m, mem, addr, n)
  {
    forall a | addr <= a < addr + n
      ensures Mapped(m, a) && HostOf(m, a) in mem
    {
      BackedHost(m, mem, a);
    }
  }

  lemma ContiguousWriteGood(m: seq<Region>, mem: Memory, buf: seq<byte>, addr: u64)
    requires ValidMap(m) && Backed(m, mem) && Mapped(m, addr) && HostContiguous(m, addr, |buf|)
    requires |buf| < U64_LIMIT
    ensures GoodWrite(m, mem, buf, addr, WriteAsWritten(m, mem, buf, addr))
  {
    WriteIsOneTransfer(m, mem, buf, addr);
    ContiguousAccessible(m, mem, addr, |buf|);
    ContiguousEach(m, mem, buf, addr);
    ContiguousHosted(m, mem, addr, |buf|);
    assert IsRun(m, addr, |buf|, |buf|);
  }

  /** The single one in the transfer sits where byte `a` of the guest should be. */
  lemma PulseFinds(m: seq<Region>, addr: u64, n: nat, a: int, at: int)
    requires addr <= a < addr + n && at + (a - addr) in Marked(-1)
    requires WriteFrom(Marked(-1), at, Pulse(n, a - addr), 0, n)
          == WriteEach(m, Marked(-1), addr, Pulse(n, a - addr), 0, n)
    ensures Mapped(m, a) && HostOf(m, a) == at + (a - addr)
  {
    var h, val := at + (a - addr), Pulse(n, a - addr);
    assert WriteFrom(Marked(-1), at, val, 0, n)[h] == val[a - addr] == 1;
    EachOrigin(m, Marked(-1), addr, val, 0, n, h);
  }

  lemma GoodWriteContiguous(m: seq<Region>, addr: u64, n: u64, a: int)
    requires ValidMap(m) && Mapped(m, addr) && addr <= a < addr + n
    requires GoodWrite(m, Marked(-1), Pulse(n, a - addr), addr, WriteAsWritten(m, Marked(-1), Pulse(n, a - addr), addr))
    ensures Mapped(m, a) && HostOf(m, a) == HostOf(m, addr) + (a - addr)
  {
    WriteIsOneTransfer(m, Marked(-1), Pulse(n, a - addr), addr);
    PulseFinds(m, addr, n, a, HostOf(m, addr));
  }

  /** A write at a mapped address meets the `Bytes` contract for all contents of memory and buffer exactly
      when its remote range is contiguous; a write at an unmapped address always does. */
  lemma WriteAsWrittenExact(m: seq<Region>, addr: u64, n: u64)
    requires ValidMap(m)
    ensures (forall mem, buf :: |buf| == n && Backed(m, mem) ==>
               GoodWrite(m, mem, buf, addr, WriteAsWritten(m, mem, buf, addr)))
       <==> !Mapped(m, addr) || HostContiguous(m, addr, n)
  {
    if !Mapped(m, addr) || HostContiguous(m, addr, n) {
      forall mem, buf | |buf| == n && Backed(m, mem)
        ensures GoodWrite(m, mem, buf, addr, WriteAsWritten(m, mem, buf, addr))
      {
        if Mapped(m, addr) {
          ContiguousWriteGood(m, mem, buf, addr);
        } else {
          UnmappedStart(m, |buf|, addr, RegionWriteClosure(buf), mem);
        }
      }
    }
    if Mapped(m, addr) && forall mem, buf :: |buf| == n && Backed(m, mem) ==>
         GoodWrite(m, mem, buf, addr, WriteAsWritten(m, mem, buf, addr)) {
      MarkedBacked(m, -1);
      forall a | addr <= a < addr + n
        ensures Mapped(m, a) && HostOf(m, a) == HostOf(m, addr) + (a - addr)
      {
        var buf := Pulse(n, a - addr);
        assert GoodWrite(m, Marked(-1), buf, addr, WriteAsWritten(m, Marked(-1), buf, addr));
        GoodWriteContiguous(m, addr, n, a);
      }
    }
  }

  /** Two adjacent regions backed by distant mappings. */
  const DISTANT: seq<Region> := [Region(0x1000, 0x1000, 0x10000), Region(0x2000, 0x1000, 0x50000)]

  lemma DistantHosts()
    ensures ValidMap(DISTANT)
    ensures Mapped(DISTANT, 0x1fff) && HostOf(DISTANT, 0x1fff) == 0x10fff
    ensures Mapped(DISTANT, 0x2000) && HostOf(DISTANT, 0x2000) == 0x50000
  {
    LookupHit(DISTANT, DISTANT[0], 0x1fff);
    LookupHit(DISTANT, DISTANT[1], 0x2000);
  }

  /** Two bytes written across the boundary are reported as written, and the second one never reaches the second
      region, although all of both regions can be accessed and they share no byte. */
  lemma CrossingWriteMisses(mem: Memory)
    requires Accessible(mem, 0x10000, 0x2000) && Accessible(mem, 0x50000, 0x1000) && mem[0x50000] == 0
    ensures var run := WriteAsWritten(DISTANT, mem, [7, 7], 0x1fff);
            && ValidMap(DISTANT) && DisjointBacking(DISTANT) && Backed(DISTANT, mem)
            && run.result == Ok(2)
            && Mapped(DISTANT, 0x2000) && HostOf(DISTANT, 0x2000) in run.state
            && run.state[HostOf(DISTANT, 0x2000)] == 0
  {
    DistantHosts();
    WriteIsOneTransfer(DISTANT, mem, [7, 7], 0x1fff);
    assert Accessible(mem, 0x10fff, 2);
  }

  // ---------------------------------------------------------------------------------------------
  // Reading
  // ---------------------------------------------------------------------------------------------

  function RegionRead(mem: Memory, count: nat, buf: seq<byte>, o: nat, a: nat, r: Region)
    : (seq<byte>, Outcome<nat, Error>)
  {
    if |buf| != count || o > count then (buf, Panic)
    else if a >= r.len then (buf, Err(InvalidGuestAddress(a)))
    else Fetch(mem, r.host + a, buf, o, count - o)
  }

  function RegionReadClosure(mem: Memory, count: nat): Callback<seq<byte>> {
    (buf: seq<byte>, o: nat, l: nat, a: nat, r: Region) => RegionRead(mem, count, buf, o, a, r)
  }

  function ReadAsWritten(m: seq<Region>, mem: Memory, buf: seq<byte>, addr: u64): Run<seq<byte>> {
    AccessAll(m, |buf|, addr, RegionReadClosure(mem, |buf|), buf)
  }

  lemma ReadIsOneTransfer(m: seq<Region>, mem: Memory, buf: seq<byte>, addr: u64)
    requires ValidMap(m) && Mapped(m, addr) && |buf| < U64_LIMIT
    ensures var run := ReadAsWritten(m, mem, buf, addr);
            if Accessible(mem, HostOf(m, addr), |buf|)
            then run.state == ReadRange(mem, HostOf(m, addr), |buf|) && run.result == Ok(|buf|)
            else run.state == buf && run.result == Err(RemoteMemError(Rw))
  {
  }

  lemma ContiguousFilled(m: seq<Region>, mem: Memory, buf: seq<byte>, addr: int)
    requires Mapped(m, addr) && HostContiguous(m, addr, |buf|) && Accessible(mem, HostOf(m, addr), |buf|)
    ensures Filled(m, mem, buf, ReadRange(mem, HostOf(m, addr), |buf|), addr, |buf|)
  {
  }

  lemma ContiguousReadGood(m: seq<Region>, mem: Memory, buf: seq<byte>, addr: u64)
    requires ValidMap(m) && Backed(m, mem) && Mapped(m, addr) && HostContiguous(m, addr, |buf|)
    requires |buf| < U64_LIMIT
    ensures GoodRead(m, mem, buf, addr, ReadAsWritten(m, mem, buf, addr))
  {
    ReadIsOneTransfer(m, mem, buf, addr);
    ContiguousAccessible(m, mem, addr, |buf|);
    ContiguousFilled(m, mem, buf, addr);
    assert IsRun(m, addr, |buf|, |buf|);
  }

  lemma GoodReadContiguous(m: seq<Region>, addr: u64, n: u64, a: int)
    requires ValidMap(m) && Mapped(m, addr) && addr <= a < addr + n
    requires var mem := Marked(HostOf(m, addr) + (a - addr));
             GoodRead(m, mem, Pulse(n, -1), addr, ReadAsWritten(m, mem, Pulse(n, -1), addr))
    ensures Mapped(m, a) && HostOf(m, a) == HostOf(m, addr) + (a - addr)
  {
  }

  /** The mirror statement for reads, with the same condition. */
  lemma ReadAsWrittenExact(m: seq<Region>, addr: u64, n: u64)
    requires ValidMap(m)
    ensures (forall mem, buf :: |buf| == n && Backed(m, mem) ==>
               GoodRead(m, mem, buf, addr, ReadAsWritten(m, mem, buf, addr)))
       <==> !Mapped(m, addr) || HostContiguous(m, addr, n)
  {
    if !Mapped(m, addr) || HostContiguous(m, addr, n) {
      forall mem, buf | |buf| == n && Backed(m, mem)
        ensures GoodRead(m, mem, buf, addr, ReadAsWritten(m, mem, buf, addr))
      {
        if Mapped(m, addr) {
          ContiguousReadGood(m, mem, buf, addr);
        } else {
          UnmappedStart(m, |buf|, addr, RegionReadClosure(mem, |buf|), buf);
        }
      }
    }
    if Mapped(m, addr) && forall mem, buf :: |buf| == n && Backed(m, mem) ==>
         GoodRead(m, mem, buf, addr, ReadAsWritten(m, mem, buf, addr)) {
      forall a | addr <= a < addr + n
        ensures Mapped(m, a) && HostOf(m, a) == HostOf(m, addr) + (a - addr)
      {
        var mem := Marked(HostOf(m, addr) + (a - addr));
        MarkedBacked(m, HostOf(m, addr) + (a - addr));
        assert GoodRead(m, mem, Pulse(n, -1), addr, ReadAsWritten(m, mem, Pulse(n, -1), addr));
        GoodReadContiguous(m, addr, n, a);
      }
    }
  }

  // ---------------------------------------------------------------------------------------------
  // Atomic access through the guest map
  // ---------------------------------------------------------------------------------------------

  /** `Bytes<GuestAddress>::store`: translate the address, then store through the region. The two grants bound
      what the system calls behind it move. */
  method StoreAt(p: RemoteProcess, m: seq<Region>, val: seq<byte>, addr: u64, readGrant: nat, writeGrant: nat)
    returns (r: Outcome<(), Error>)
    requires ValidMap(m)
    modifies p
    ensures !Mapped(m, addr) ==> r == Err(InvalidGuestAddress(addr)) && p.mem == old(p.mem)
    ensures Mapped(m, addr) ==>
              && (r.Panic? <==> !FitsWindow(HostOf(m, addr), |val|))
              && (r.Ok? ==> p.mem == WriteRange(old(p.mem), HostOf(m, addr), val))
              && (r.Panic? || r == Err(RemoteMemError(Rw)) ==> p.mem == old(p.mem))
              && (r.Err? ==> r.error.RemoteMemError? && PrefixStored(old(p.mem), p.mem, HostOf(m, addr), val))
    ensures Mapped(m, addr) ==>
              && p.mem == StoreUnder(old(p.mem), HostOf(m, addr), val, readGrant, writeGrant).0
              && (r.Err? ==>
                    StoreUnder(old(p.mem), HostOf(m, addr), val, readGrant, writeGrant).1 == Err(r.error.cause))
    ensures Mapped(m, addr) && readGrant >= ALG && writeGrant >= ALG && !r.Panic? ==>
              && (r.Ok? <==> Accessible(old(p.mem), Window(HostOf(m, addr)), ALG))
              && (r.Err? ==> r.error == RemoteMemError(Rw))
  {
    MappedIff(m, addr);
    var at := TranslateAddr(m, addr);
    match at
    case None => r := Err(InvalidGuestAddress(addr));
    case Some((region, offset)) =>
      LookupHit(m, region, addr);
      assert ValidRegion(region);
      StoreLeavesPrefix(p.mem, region.host + offset, val, readGrant, writeGrant);
      var stored := p.Store(region.host + offset, val, readGrant, writeGrant);
      r := match stored
           case Ok(_) => Ok(())
           case Err(e) => Err(RemoteMemError(e))
           case Panic => Panic;
  }

  /** `Bytes<GuestAddress>::load`. */
  method LoadAt(p: RemoteProcess, m: seq<Region>, len: nat, addr: u64, grant: nat)
    returns (r: Outcome<seq<byte>, Error>)
    requires ValidMap(m)
    ensures !Mapped(m, addr) ==> r == Err(InvalidGuestAddress(addr))
    ensures Mapped(m, addr) ==>
              && (r.Panic? <==> !FitsWindow(HostOf(m, addr), len))
              && (r.Ok? ==>
                    Accessible(p.mem, HostOf(m, addr), len) && r.value == ReadRange(p.mem, HostOf(m, addr), len))
              && (!r.Panic? ==> (r.Ok? <==> grant >= ALG && Accessible(p.mem, Window(HostOf(m, addr)), ALG)))
              && (r.Err? ==>
                    r.error == RemoteMemError(if grant < ALG && Accessible(p.mem, Window(HostOf(m, addr)), grant)
                                              then ByteCount(grant, ALG) else Rw))
  {
    MappedIff(m, addr);
    var at := TranslateAddr(m, addr);
    match at
    case None => r := Err(InvalidGuestAddress(addr));
    case Some((region, offset)) =>
      LookupHit(m, region, addr);
      assert ValidRegion(region);
      var loaded := p.Load(region.host + offset, len, grant);
      r := match loaded
           case Ok(bytes) => Ok(bytes)
           case Err(e) => Err(RemoteMemError(e))
           case Panic => Panic;
  }

  lemma HostInSpace(m: seq<Region>, a: int)
    requires ValidMap(m) && Mapped(m, a)
    ensures 0 < HostOf(m, a) < U64_LIMIT
  {
    var r := Lookup(m, a).value;
    assert ValidRegion(r);
  }

  /** The bytes stored lie in guest memory and are what the flat memory gained. */
  ghost predicate StoredFlat(m: seq<Region>, mem: Memory, mem1: Memory, addr: u64, val: seq<byte>) {
    Accessible(Flat(m, mem), addr, |val|) && Flat(m, mem1) == WriteRange(Flat(m, mem), addr, val)
  }

  lemma ContiguousInFlat(m: seq<Region>, mem: Memory, addr: int, n: nat)
    requires ValidMap(m) && Backed(m, mem) && HostContiguous(m, addr, n)
    ensures Accessible(Flat(m, mem), addr, n)
  {
    forall a | addr <= a < addr + n
      ensures a in Flat(m, mem)
    {
      assert Mapped(m, a);
      BackedHost(m, mem, a);
      MappedIff(m, a);
    }
  }

  lemma ContiguousStoreFlat(m: seq<Region>, mem: Memory, val: seq<byte>, addr: u64)
    requires ValidMap(m) && Mapped(m, addr) && HostContiguous(m, addr, |val|) && Unshared(m, addr, |val|)
    requires Backed(m, mem)
    ensures StoredFlat(m, mem, WriteRange(mem, HostOf(m, addr), val), addr, val)
  {
    ContiguousEach(m, mem, val, addr);
    WriteRangeAll(mem, HostOf(m, addr), val);
    AllIsFlat(m, mem, addr, val);
    ContiguousInFlat(m, mem, addr, |val|);
  }

  lemma MarkedStored(m: seq<Region>, addr: u64, val: seq<byte>)
    requires ValidMap(m) && Mapped(m, addr) && 0 < HostOf(m, addr) < U64_LIMIT && FitsWindow(HostOf(m, addr), |val|)
    ensures Backed(m, Marked(-1))
    ensures StoreSpec(Marked(-1), HostOf(m, addr), val) == (WriteRange(Marked(-1), HostOf(m, addr), val), Ok(()))
  {
    MarkedBacked(m, -1);
  }

  lemma StoredFlatPoint(m: seq<Region>, addr: u64, n: nat, a: int, b: int)
    requires ValidMap(m) && Mapped(m, addr) && addr <= a < addr + n && Mapped(m, b)
    requires var val := Pulse(n, a - addr);
             StoredFlat(m, Marked(-1), WriteRange(Marked(-1), HostOf(m, addr), val), addr, val)
    ensures Mapped(m, a) && (HostOf(m, b) == HostOf(m, addr) + (a - addr) <==> b == a)
  {
    var val, at := Pulse(n, a - addr), HostOf(m, addr);
    var mem0 := Marked(-1);
    var mem1, flat0 := WriteRange(mem0, at, val), Flat(m, mem0);
    assert a in flat0;
    ZeroAt(m, b);
    assert val[..n] == val;
    PulseInZeros(mem0, at, n, n, a - addr, HostOf(m, b));
    PulseInZeros(flat0, addr, n, n, a - addr, b);
    assert Flat(m, mem1)[b] == mem1[HostOf(m, b)];
  }

  /** Every store that the remote process serves is one write of the flat memory, for all contents, exactly when its
      remote range is contiguous and no other guest address shares it. */
  lemma StoreFlatExact(m: seq<Region>, addr: u64, n: nat)
    requires ValidMap(m) && Mapped(m, addr)
    ensures 0 < HostOf(m, addr) < U64_LIMIT
    ensures (forall mem, val :: |val| == n && Backed(m, mem) && StoreSpec(mem, HostOf(m, addr), val).1.Ok? ==>
               StoredFlat(m, mem, StoreSpec(mem, HostOf(m, addr), val).0, addr, val))
       <==> !FitsWindow(HostOf(m, addr), n) || (HostContiguous(m, addr, n) && Unshared(m, addr, n))
  {
    HostInSpace(m, addr);
    var at: u64 := HostOf(m, addr);
    if HostContiguous(m, addr, n) && Unshared(m, addr, n) {
      forall mem, val | |val| == n && Backed(m, mem) && StoreSpec(mem, at, val).1.Ok?
        ensures StoredFlat(m, mem, StoreSpec(mem, at, val).0, addr, val)
      {
        ContiguousStoreFlat(m, mem, val, addr);
      }
    }
    if FitsWindow(at, n) && forall mem, val :: |val| == n && Backed(m, mem) && StoreSpec(mem, at, val).1.Ok? ==>
         StoredFlat(m, mem, StoreSpec(mem, at, val).0, addr, val) {
      forall a, b | addr <= a < addr + n && Mapped(m, b)
        ensures Mapped(m, a) && (HostOf(m, b) == at + (a - addr) <==> b == a)
      {
        var val := Pulse(n, a - addr);
        MarkedStored(m, addr, val);
        assert StoredFlat(m, Marked(-1), StoreSpec(Marked(-1), at, val).0, addr, val);
        StoredFlatPoint(m, addr, n, a, b);
      }
      forall a | addr <= a < addr + n
        ensures Mapped(m, a) && HostOf(m, a) == at + (a - addr)
      {
        assert Mapped(m, addr);
      }
    }
  }

  ghost predicate LoadedFlat(m: seq<Region>, mem: Memory, addr: u64, n: nat, got: seq<byte>) {
    Accessible(Flat(m, mem), addr, n) && got == ReadRange(Flat(m, mem), addr, n)
  }

  lemma ContiguousLoadFlat(m: seq<Region>, mem: Memory, addr: u64, n: nat)
    requires ValidMap(m) && Mapped(m, addr) && HostContiguous(m, addr, n) && Backed(m, mem)
    ensures Accessible(mem, HostOf(m, addr), n)
    ensures LoadedFlat(m, mem, addr, n, ReadRange(mem, HostOf(m, addr), n))
  {
    ContiguousAccessible(m, mem, addr, n);
    ContiguousInFlat(m, mem, addr, n);
    var flat, at := Flat(m, mem), HostOf(m, addr);
    forall i | 0 <= i < n
      ensures ReadRange(flat, addr, n)[i] == ReadRange(mem, at, n)[i]
    {
      assert HostOf(m, addr + i) == at + i;
    }
  }

  lemma FlatOfMarked(m: seq<Region>, spot: int, a: int)
    requires a in Flat(m, Marked(spot)) && Flat(m, Marked(spot))[a] == 1
    ensures Mapped(m, a) && HostOf(m, a) == spot
  {
  }

  lemma MarkedLoaded(m: seq<Region>, at: u64, n: nat, k: nat)
    requires ValidMap(m) && 0 < at && FitsWindow(at, n) && k < n
    ensures var mem := Marked(at + k);
            && Backed(m, mem) && Accessible(mem, at, n) && LoadSpec(mem, at, n) == Ok(ReadRange(mem, at, n))
            && ReadRange(mem, at, n)[k] == 1
  {
    MarkedBacked(m, at + k);
  }

  lemma LoadedFlatPoint(m: seq<Region>, mem: Memory, addr: u64, n: nat, got: seq<byte>, a: int)
    requires LoadedFlat(m, mem, addr, n, got) && addr <= a < addr + n
    ensures |got| == n && a in Flat(m, mem) && Flat(m, mem)[a] == got[a - addr]
  {
  }

  /** Whatever the contents, a load that the remote process serves returns the flat memory's own range. */
  ghost predicate LoadsFlat(m: seq<Region>, addr: u64, at: u64, n: nat) {
    forall mem :: Backed(m, mem) && LoadSpec(mem, at, n).Ok? ==> LoadedFlat(m, mem, addr, n, LoadSpec(mem, at, n).value)
  }

  lemma ContiguousLoadsFlat(m: seq<Region>, addr: u64, at: u64, n: nat)
    requires ValidMap(m) && Mapped(m, addr) && HostOf(m, addr) == at && HostContiguous(m, addr, n)
    ensures LoadsFlat(m, addr, at, n)
  {
    forall mem | Backed(m, mem) && LoadSpec(mem, at, n).Ok?
      ensures LoadedFlat(m, mem, addr, n, LoadSpec(mem, at, n).value)
    {
      ContiguousLoadFlat(m, mem, addr, n);
    }
  }

  lemma LoadsFlatAt(m: seq<Region>, addr: u64, at: u64, n: nat, a: int)
    requires ValidMap(m) && 0 < at && FitsWindow(at, n) && LoadsFlat(m, addr, at, n) && addr <= a < addr + n
    ensures Mapped(m, a) && HostOf(m, a) == at + (a - addr)
  {
    var mem := Marked(at + (a - addr));
    MarkedLoaded(m, at, n, a - addr);
    LoadedFlatPoint(m, mem, addr, n, LoadSpec(mem, at, n).value, a);
    FlatOfMarked(m, at + (a - addr), a);
  }

  /** The mirror statement for loads; sharing does no harm to them. */
  lemma LoadFlatExact(m: seq<Region>, addr: u64, n: nat)
    requires ValidMap(m) && Mapped(m, addr)
    ensures 0 < HostOf(m, addr) < U64_LIMIT
    ensures LoadsFlat(m, addr, HostOf(m, addr), n) <==> !FitsWindow(HostOf(m, addr), n) || HostContiguous(m, addr, n)
  {
    HostInSpace(m, addr);
    var at: u64 := HostOf(m, addr);
    if HostContiguous(m, addr, n) {
      ContiguousLoadsFlat(m, addr, at, n);
    }
    if FitsWindow(at, n) && LoadsFlat(m, addr, at, n) {
      forall a | addr <= a < addr + n
        ensures Mapped(m, a) && HostOf(m, a) == at + (a - addr)
      {
        LoadsFlatAt(m, addr, at, n, a);
      }
    }
  }

  /** Mappings start on page boundaries, so every access to a multiple of eight inside a region hits the assertion. */
  lemma PageAlignedRegionsPanic(m: seq<Region>, addr: u64, len: nat)
    requires ValidMap(m) && Mapped(m, addr) && 0 < len
    requires var r := Lookup(m, addr).value; r.host % 4096 == 0 && (addr - r.base) % ALG == 0
    ensures !FitsWindow(HostOf(m, addr), len)
  {
  }
}
