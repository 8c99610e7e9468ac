/**
 * Loads and stores in another process's memory (src/remote_mem.rs). A store of at most eight bytes is a
 * read-modify-write of the aligned eight-byte window around it.
 */
module RemoteMem {
  import opened Words

  /** The system call failed, or it moved fewer bytes than it was asked for. */
  datatype RemoteError = Rw | ByteCount(actual: nat, expected: nat)

  /** The bytes of the remote process that can be accessed. */
  type Memory = map<int, byte>

  const ALG: nat := 8

  predicate Accessible(mem: Memory, at: int, n: nat) {
    forall a :: at <= a < at + n ==> a in mem
  }

  function ReadRange(mem: Memory, at: int, n: nat): (s: seq<byte>)
    requires Accessible(mem, at, n)
    ensures |s| == n
  {
    seq(n, i requires 0 <= i < n => mem[at + i])
  }

  function WriteRange(mem: Memory, at: int, bytes: seq<byte>): (mem': Memory)
    ensures mem'.Keys == mem.Keys
  {
    map a | a in mem :: if at <= a < at + |bytes| then bytes[a - at] else mem[a]
  }

  lemma ReadOwnWrite(mem: Memory, at: int, bytes: seq<byte>)
    requires Accessible(mem, at, |bytes|)
    ensures ReadRange(WriteRange(mem, at, bytes), at, |bytes|) == bytes
  {
  }

  function AlignOffset(addr: u64): nat {
    if addr % ALG == 0 then 0 else ALG - addr % ALG
  }

  /** The distance the code steps back from `addr` to reach its window. */
  function StepBack(addr: u64): nat {
    ALG - AlignOffset(addr)
  }

  function Window(addr: u64): int {
    addr - StepBack(addr)
  }

  /** The accesses for which no assertion of the code fails. */
  predicate FitsWindow(addr: u64, len: nat) {
    len == 0 || (addr % ALG != 0 && addr % ALG + len <= ALG)
  }

  /** What a load should return, with no mention of windows except where access can be refused. */
  function LoadSpec(mem: Memory, addr: u64, len: nat): Outcome<seq<byte>, RemoteError> {
    if !FitsWindow(addr, len) then Panic
    else if !Accessible(mem, Window(addr), ALG) then Err(Rw)
    else Ok(ReadRange(mem, addr, len))
  }

  function StoreSpec(mem: Memory, addr: u64, val: seq<byte>): (Memory, Outcome<(), RemoteError>) {
    if !FitsWindow(addr, |val|) then (mem, Panic)
    else if !Accessible(mem, Window(addr), ALG) then (mem, Err(Rw))
    else (WriteRange(mem, addr, val), Ok(()))
  }

  /** `a` lies in the window of the store of `n` bytes at `addr`, beside the value itself. */
  predicate Beside(addr: u64, n: nat, a: int) {
    Window(addr) <= a < Window(addr) + ALG && !(addr <= a < addr + n)
  }

  /** `data` is a window for `val` at `addr`. */
  predicate HoldsValue(addr: u64, val: seq<byte>, data: seq<byte>) {
    && 0 < addr && FitsWindow(addr, |val|) && |data| == ALG && StepBack(addr) + |val| <= ALG
    && forall i :: 0 <= i < |val| ==> data[StepBack(addr) + i] == val[i]
  }

  lemma PatchHolds(addr: u64, val: seq<byte>, data: seq<byte>)
    requires 0 < addr && FitsWindow(addr, |val|) && |data| == ALG
    ensures StepBack(addr) + |val| <= ALG && HoldsValue(addr, val, Patch(data, StepBack(addr), val))
    ensures forall a :: Beside(addr, |val|, a) ==>
              Patch(data, StepBack(addr), val)[a - Window(addr)] == data[a - Window(addr)]
  {
  }

  /** Writing a window back is writing the value alone exactly when memory has the window's other bytes already. */
  lemma WindowWriteExact(mem: Memory, addr: u64, val: seq<byte>, data: seq<byte>)
    requires HoldsValue(addr, val, data) && Accessible(mem, Window(addr), ALG)
    ensures WriteRange(mem, Window(addr), data) == WriteRange(mem, addr, val)
       <==> forall a :: Beside(addr, |val|, a) ==> data[a - Window(addr)] == mem[a]
  {
    var w := Window(addr);
    var got, want := WriteRange(mem, w, data), WriteRange(mem, addr, val);
    forall a | Beside(addr, |val|, a)
      ensures got[a] == data[a - w] && want[a] == mem[a]
    {
    }
    if forall a :: Beside(addr, |val|, a) ==> data[a - w] == mem[a] {
      forall a | a in mem
        ensures got[a] == want[a]
      {
        if addr <= a < addr + |val| {
          assert data[StepBack(addr) + (a - addr)] == val[a - addr];
        } else {
          assert w <= a < w + ALG ==> Beside(addr, |val|, a);
        }
      }
    }
  }

  /** How much of a value of `n` bytes the first `k` bytes of its window cover. */
  function Reached(addr: u64, n: nat, k: nat): (r: nat)
    ensures r <= n
  {
    Max(0, Min(k - StepBack(addr), n))
  }

  /** Writing back only the first `k` bytes of a patched window is writing a prefix of the value. */
  lemma PatchedWindowPrefix(mem: Memory, addr: u64, val: seq<byte>, k: nat)
    requires 0 < addr && FitsWindow(addr, |val|) && Accessible(mem, Window(addr), ALG) && k <= ALG
    ensures StepBack(addr) + |val| <= ALG
    ensures WriteRange(mem, Window(addr), Patch(ReadRange(mem, Window(addr), ALG), StepBack(addr), val)[..k])
         == WriteRange(mem, addr, val[..Reached(addr, |val|, k)])
  {
    var w, c := Window(addr), Reached(addr, |val|, k);
    var data := Patch(ReadRange(mem, w, ALG), StepBack(addr), val);
    var got, want := WriteRange(mem, w, data[..k]), WriteRange(mem, addr, val[..c]);
    forall a | a in mem
      ensures got[a] == want[a]
    {
      if w <= a < w + k {
        PatchedByte(mem, addr, val, a);
      }
    }
  }

  lemma PatchedByte(mem: Memory, addr: u64, val: seq<byte>, a: int)
    requires 0 < addr && FitsWindow(addr, |val|) && Accessible(mem, Window(addr), ALG)
    requires Window(addr) <= a < Window(addr) + ALG
    ensures StepBack(addr) + |val| <= ALG
    ensures Patch(ReadRange(mem, Window(addr), ALG), StepBack(addr), val)[a - Window(addr)]
         == if addr <= a < addr + |val| then val[a - addr] else mem[a]
  {
  }

  /** Writing back all of it is writing the value alone. */
  lemma PatchedWindow(mem: Memory, addr: u64, val: seq<byte>)
    requires 0 < addr && FitsWindow(addr, |val|) && Accessible(mem, Window(addr), ALG)
    ensures StepBack(addr) + |val| <= ALG
    ensures WriteRange(mem, Window(addr), Patch(ReadRange(mem, Window(addr), ALG), StepBack(addr), val))
         == WriteRange(mem, addr, val)
  {
    PatchedWindowPrefix(mem, addr, val, ALG);
    var data := Patch(ReadRange(mem, Window(addr), ALG), StepBack(addr), val);
    assert data[..ALG] == data;
    assert Reached(addr, |val|, ALG) == |val| && val[..|val|] == val;
  }

  /** Some prefix of the value, maybe all or none of it, was stored and nothing else changed. */
  ghost predicate PrefixStored(mem0: Memory, mem1: Memory, addr: u64, val: seq<byte>) {
    exists k :: 0 <= k <= |val| && mem1 == WriteRange(mem0, addr, val[..k])
  }

  /** A load whose system call moves at most `grant` bytes. */
  function LoadUnder(mem: Memory, addr: u64, len: nat, grant: nat): Outcome<seq<byte>, RemoteError> {
    if grant >= ALG || !FitsWindow(addr, len) then LoadSpec(mem, addr, len)
    else if Accessible(mem, Window(addr), grant) then Err(ByteCount(grant, ALG))
    else Err(Rw)
  }

  /** A store whose system calls read at most `readGrant` and write at most `writeGrant` bytes. */
  function StoreUnder(mem: Memory, addr: u64, val: seq<byte>, readGrant: nat, writeGrant: nat)
    : (Memory, Outcome<(), RemoteError>)
  {
    if readGrant < ALG || !FitsWindow(addr, |val|) || !Accessible(mem, Window(addr), ALG) then
      (mem, match LoadUnder(mem, addr, |val|, readGrant)
            case Ok(_) => Ok(())
            case Err(e) => Err(e)
            case Panic => Panic)
    else if writeGrant < ALG then
      (WriteRange(mem, addr, val[..Reached(addr, |val|, writeGrant)]), Err(ByteCount(writeGrant, ALG)))
    else
      StoreSpec(mem, addr, val)
  }

  /** Whatever the system calls move, a store leaves a prefix of its value and nothing else: all of it when it
      succeeds, none of it when it panics, when the call fails or when the read was short. */
  lemma StoreLeavesPrefix(mem: Memory, addr: u64, val: seq<byte>, readGrant: nat, writeGrant: nat)
    ensures var (mem', r) := StoreUnder(mem, addr, val, readGrant, writeGrant);
            && PrefixStored(mem, mem', addr, val)
            && (r.Panic? <==> !FitsWindow(addr, |val|))
            && (r.Ok? <==> readGrant >= ALG && writeGrant >= ALG && StoreSpec(mem, addr, val).1.Ok?)
            && (r.Ok? ==> mem' == WriteRange(mem, addr, val))
            && (r.Panic? || r == Err(Rw) || readGrant < ALG ==> mem' == mem)
  {
    assert WriteRange(mem, addr, val[..0]) == mem;
    assert val[..|val|] == val;
  }

  class RemoteProcess {
    var mem: Memory

    constructor (mem: Memory)
      ensures this.mem == mem
    {
      this.mem := mem;
    }

    /** `process_read_bytes`. The system call moves at most `grant` bytes, from the start of the range, and the
        bytes it moved come back; it fails when it cannot move those. */
    method ReadBytes(addr: int, n: nat, grant: nat) returns (r: Outcome<seq<byte>, RemoteError>)
      ensures r.Ok? <==> Accessible(mem, addr, Min(grant, n))
      ensures r.Ok? ==> r.value == ReadRange(mem, addr, Min(grant, n))
      ensures !r.Ok? ==> r == Err(Rw)
    {
      var k := Min(grant, n);
      if forall a :: addr <= a < addr + k ==> a in mem {
        r := Ok(ReadRange(mem, addr, k));
      } else {
        r := Err(Rw);
      }
    }

    /** `process_write_bytes`: a prefix of at most `grant` bytes is written, or nothing. */
    method WriteBytes(addr: int, bytes: seq<byte>, grant: nat) returns (r: Outcome<nat, RemoteError>)
      modifies this
      ensures r.Ok? <==> Accessible(old(mem), addr, Min(grant, |bytes|))
      ensures r.Ok? ==> r.value == Min(grant, |bytes|) && mem == WriteRange(old(mem), addr, bytes[..r.value])
      ensures !r.Ok? ==> r == Err(Rw) && mem == old(mem)
    {
      var k := Min(grant, |bytes|);
      if forall a :: addr <= a < addr + k ==> a in mem {
        mem := WriteRange(mem, addr, bytes[..k]);
        r := Ok(k);
      } else {
        r := Err(Rw);
      }
    }

    /** `process_read` of a value of `n` bytes: all of it or an error that tells how much arrived. */
    method ReadValue(addr: int, n: nat, grant: nat) returns (r: Outcome<seq<byte>, RemoteError>)
      ensures r.Ok? <==> grant >= n && Accessible(mem, addr, n)
      ensures r.Ok? ==> r.value == ReadRange(mem, addr, n)
      ensures !r.Ok? ==> r == Err(if Accessible(mem, addr, Min(grant, n)) then ByteCount(grant, n) else Rw)
    {
      var read := ReadBytes(addr, n, grant);
      match read
      case Err(e) => r := Err(e);
      case Ok(bytes) =>
        if |bytes| != n {
          return Err(ByteCount(|bytes|, n));
        }
        r := Ok(bytes);
    }

    /** `process_write`. */
    method WriteValue(addr: int, val: seq<byte>, grant: nat) returns (r: Outcome<(), RemoteError>)
      modifies this
      ensures r.Ok? <==> grant >= |val| && Accessible(old(mem), addr, |val|)
      ensures r.Ok? ==> r == Ok(()) && mem == WriteRange(old(mem), addr, val)
      ensures !r.Ok? ==>
                if Accessible(old(mem), addr, Min(grant, |val|))
                then grant < |val| && r == Err(ByteCount(grant, |val|))
                     && mem == WriteRange(old(mem), addr, val[..grant])
                else r == Err(Rw) && mem == old(mem)
    {
      var written := WriteBytes(addr, val, grant);
      match written
      case Err(e) => r := Err(e);
      case Ok(k) =>
        if k != |val| {
          return Err(ByteCount(k, |val|));
        }
        assert val[..k] == val;
        r := Ok(());
    }

    /** `process_load` of a value of `len` bytes. */
    method Load(addr: u64, len: nat, grant: nat) returns (r: Outcome<seq<byte>, RemoteError>)
      requires 0 < addr
      ensures r == LoadUnder(mem, addr, len, grant)
    {
      if len > ALG {
        return Panic;
      }
      var offset := ALG - AlignOffset(addr);
      var aligned := addr - offset;
      if addr + len > aligned + ALG {
        return Panic;
      }
      var data := ReadValue(aligned, ALG, grant);
      match data
      case Ok(bytes) =>
        assert bytes[offset..offset + len] == ReadRange(mem, addr, len);
        r := Ok(bytes[offset..offset + len]);
      case Err(e) => r := Err(e);
    }

    /** `process_store` without interference between its read and its write. */
    method Store(addr: u64, val: seq<byte>, readGrant: nat, writeGrant: nat) returns (r: Outcome<(), RemoteError>)
      requires 0 < addr
      modifies this
      ensures (mem, r) == StoreUnder(old(mem), addr, val, readGrant, writeGrant)
    {
      if |val| > ALG {
        return Panic;
      }
      var offset := ALG - AlignOffset(addr);
      var aligned := addr - offset;
      if addr + |val| > aligned + ALG {
        return Panic;
      }
      var data := ReadValue(aligned, ALG, readGrant);
      match data
      case Err(e) => r := Err(e);
      case Ok(bytes) =>
        var window := Patch(bytes, offset, val);
        PatchedWindowPrefix(mem, addr, val, Min(writeGrant, ALG));
        PatchedWindow(mem, addr, val);
        r := WriteValue(aligned, window, writeGrant);
    }
  }

  // ---------------------------------------------------------------------------------------------
  // Which accesses are served
  // ---------------------------------------------------------------------------------------------

  /** Every value inside one aligned eight-byte block is meant to be served; exactly those that start on
      the block boundary hit the assertion instead. */
  lemma ServedExactly(mem: Memory, addr: u64, val: seq<byte>)
    requires 0 < |val| && addr % ALG + |val| <= ALG
    ensures StoreSpec(mem, addr, val).1.Panic? <==> addr % ALG == 0
    ensures LoadSpec(mem, addr, |val|).Panic? <==> addr % ALG == 0
    ensures addr % ALG != 0 ==> Window(addr) == addr - addr % ALG
  {
  }

  /** A four-byte store to address 16 lies inside one block and is refused nevertheless. */
  lemma AlignedStorePanics(mem: Memory)
    ensures StoreSpec(mem, 16, [1, 2, 3, 4]) == (mem, Panic)
  {
  }

  /** A successful store changes only its own bytes, and a following load returns the value. */
  lemma LoadAfterStore(mem: Memory, addr: u64, val: seq<byte>)
    requires StoreSpec(mem, addr, val).1.Ok?
    ensures var mem' := StoreSpec(mem, addr, val).0;
            && LoadSpec(mem', addr, |val|) == Ok(val)
            && mem'.Keys == mem.Keys
            && forall a :: a in mem && !(addr <= a < addr + |val|) ==> mem'[a] == mem[a]
  {
    ReadOwnWrite(mem, addr, val);
  }

  // ---------------------------------------------------------------------------------------------
  // The store as a two-step protocol
  // ---------------------------------------------------------------------------------------------

  /** `mem1` is the memory at the read step and `mem2` the memory at the write step. The protocol is an
      atomic store at the write step exactly when nobody changed the rest of the window in between. */
  lemma SplitStoreExact(mem1: Memory, mem2: Memory, addr: u64, val: seq<byte>)
    requires 0 < addr && FitsWindow(addr, |val|)
    requires Accessible(mem1, Window(addr), ALG) && Accessible(mem2, Window(addr), ALG)
    ensures StepBack(addr) + |val| <= ALG
    ensures WriteRange(mem2, Window(addr), Patch(ReadRange(mem1, Window(addr), ALG), StepBack(addr), val))
              == WriteRange(mem2, addr, val)
       <==> forall a :: Beside(addr, |val|, a) ==> mem1[a] == mem2[a]
  {
    var read := ReadRange(mem1, Window(addr), ALG);
    PatchHolds(addr, val, read);
    var data := Patch(read, StepBack(addr), val);
    WindowWriteExact(mem2, addr, val, data);
    forall a | Beside(addr, |val|, a)
      ensures data[a - Window(addr)] == mem1[a]
    {
      assert data[a - Window(addr)] == read[a - Window(addr)];
    }
  }

  /** A store between its read and its write: the patched window it will write back. */
  datatype Pending = Pending(addr: u64, val: seq<byte>, data: seq<byte>)

  datatype System = System(mem: Memory, pending: map<nat, Pending>)

  /** Threads begin and finish stores; anybody else writes directly. */
  datatype Action = Begin(thread: nat, addr: u64, val: seq<byte>) | Finish(thread: nat)
                  | Foreign(at: int, bytes: seq<byte>)

  predicate Apart(a: int, n: nat, b: int, k: nat) {
    a + n <= b || b + k <= a
  }

  /** What the mechanism allows; nobody is kept out of anybody's window. */
  predicate Enabled(s: System, act: Action) {
    match act
    case Begin(t, addr, val) =>
      t !in s.pending && 0 < addr && FitsWindow(addr, |val|) && Accessible(s.mem, Window(addr), ALG)
    case Finish(t) => t in s.pending
    case Foreign(_, _) => true
  }

  function Next(s: System, act: Action): System
    requires Enabled(s, act)
  {
    match act
    case Begin(t, addr, val) =>
      PatchHolds(addr, val, ReadRange(s.mem, Window(addr), ALG));
      var data := Patch(ReadRange(s.mem, Window(addr), ALG), StepBack(addr), val);
      s.(pending := s.pending[t := Pending(addr, val, data)])
    case Finish(t) =>
      var p := s.pending[t];
      System(WriteRange(s.mem, Window(p.addr), p.data), s.pending - {t})
    case Foreign(at, bytes) => s.(mem := WriteRange(s.mem, at, bytes))
  }

  predicate Runs(s: System, acts: seq<Action>, n: nat)
    requires n <= |acts|
    decreases n, 0
  {
    n == 0 || (Runs(s, acts, n - 1) && Enabled(After(s, acts, n - 1), acts[n - 1]))
  }

  /** The system after the first `n` actions. */
  function After(s: System, acts: seq<Action>, n: nat): System
    requires n <= |acts| && Runs(s, acts, n)
    decreases n, 1
  {
    if n == 0 then s else Next(After(s, acts, n - 1), acts[n - 1])
  }

  /** One action done in an instant on the memory `mem`: a store counts when it finishes, with its value alone. */
  function Instant(s: System, act: Action, mem: Memory): (mem': Memory)
    requires Enabled(s, act)
    ensures mem'.Keys == mem.Keys
  {
    match act
    case Begin(_, _, _) => mem
    case Finish(t) => WriteRange(mem, s.pending[t].addr, s.pending[t].val)
    case Foreign(at, bytes) => WriteRange(mem, at, bytes)
  }

  /** The memory that the first `n` actions leave when each is done in an instant. */
  function Ideal(s: System, acts: seq<Action>, n: nat): (mem': Memory)
    requires n <= |acts| && Runs(s, acts, n)
    ensures mem'.Keys == s.mem.Keys
  {
    if n == 0 then s.mem else Instant(After(s, acts, n - 1), acts[n - 1], Ideal(s, acts, n - 1))
  }

  /** A pending store holds its value in a window that can be accessed. */
  ghost predicate WellFormed(s: System) {
    forall t :: t in s.pending ==>
      && HoldsValue(s.pending[t].addr, s.pending[t].val, s.pending[t].data)
      && Accessible(s.mem, Window(s.pending[t].addr), ALG)
  }

  /** Beside its value the store's window still holds what the store read. */
  ghost predicate RestAsRead(mem: Memory, p: Pending)
    requires HoldsValue(p.addr, p.val, p.data) && Accessible(mem, Window(p.addr), ALG)
  {
    forall a :: Beside(p.addr, |p.val|, a) ==> p.data[a - Window(p.addr)] == mem[a]
  }

  lemma NextWellFormed(s: System, act: Action)
    requires WellFormed(s) && Enabled(s, act)
    ensures WellFormed(Next(s, act)) && Next(s, act).mem.Keys == s.mem.Keys
  {
    if act.Begin? {
      PatchHolds(act.addr, act.val, ReadRange(s.mem, Window(act.addr), ALG));
    }
  }

  lemma {:induction false} AfterWellFormed(s: System, acts: seq<Action>, n: nat)
    requires n <= |acts| && Runs(s, acts, n) && WellFormed(s)
    ensures WellFormed(After(s, acts, n))
  {
    if n > 0 {
      AfterWellFormed(s, acts, n - 1);
      NextWellFormed(After(s, acts, n - 1), acts[n - 1]);
    }
  }

  /** A finishing store is one atomic write of its value exactly when the rest of its window is as it was read. */
  lemma FinishAtomicIff(s: System, t: nat)
    requires WellFormed(s) && t in s.pending
    ensures Next(s, Finish(t)).mem == WriteRange(s.mem, s.pending[t].addr, s.pending[t].val)
       <==> RestAsRead(s.mem, s.pending[t])
  {
    var p := s.pending[t];
    WindowWriteExact(s.mem, p.addr, p.val, p.data);
  }

  /** Whatever happened in between, a load right after the store returns its value. */
  lemma LoadAfterFinish(s: System, t: nat)
    requires WellFormed(s) && t in s.pending
    ensures LoadSpec(Next(s, Finish(t)).mem, s.pending[t].addr, |s.pending[t].val|) == Ok(s.pending[t].val)
  {
    var p := s.pending[t];
    var mem := Next(s, Finish(t)).mem;
    forall i | 0 <= i < |p.val|
      ensures p.addr + i in mem && mem[p.addr + i] == p.val[i]
    {
      assert p.data[StepBack(p.addr) + i] == p.val[i];
    }
    assert ReadRange(mem, p.addr, |p.val|) == p.val;
  }

  /** The act finds the window of the store it finishes, if any, as that store read it. */
  ghost predicate FindsRest(s: System, act: Action)
    requires WellFormed(s) && Enabled(s, act)
  {
    act.Finish? ==> RestAsRead(s.mem, s.pending[act.thread])
  }

  /** Every store of the run that finishes finds the rest of its window as it read it. */
  ghost predicate Undisturbed(s: System, acts: seq<Action>, n: nat)
    requires n <= |acts| && Runs(s, acts, n) && WellFormed(s)
  {
    n == 0 ||
    (Undisturbed(s, acts, n - 1)
     && (AfterWellFormed(s, acts, n - 1); FindsRest(After(s, acts, n - 1), acts[n - 1])))
  }

  /** At every moment of the run the memory is what the same actions leave one instant at a time. */
  ghost predicate AtomicThroughout(s: System, acts: seq<Action>, n: nat)
    requires n <= |acts| && Runs(s, acts, n)
  {
    After(s, acts, n).mem == Ideal(s, acts, n) && (n == 0 || AtomicThroughout(s, acts, n - 1))
  }

  /** Any number of stores in flight, interleaved in any way with one another and with foreign writes: the stores
      are atomic at every moment of the run if and only if each one that finishes finds the rest of its window
      as it read it. */
  lemma {:induction false} StoresAreAtomic(s: System, acts: seq<Action>, n: nat)
    requires n <= |acts| && Runs(s, acts, n) && WellFormed(s)
    ensures AtomicThroughout(s, acts, n) <==> Undisturbed(s, acts, n)
  {
    if n > 0 {
      StoresAreAtomic(s, acts, n - 1);
      var before, act := After(s, acts, n - 1), acts[n - 1];
      AfterWellFormed(s, acts, n - 1);
      if act.Finish? {
        FinishAtomicIff(before, act.thread);
      }
    }
  }

  // ---------------------------------------------------------------------------------------------
  // A rule that keeps stores atomic, and a run that breaks it
  // ---------------------------------------------------------------------------------------------

  /** The range `[at, at + n)` touches no byte beside the value of a pending store other than `self`'s. */
  ghost predicate SparesRests(s: System, self: Option<nat>, at: int, n: nat) {
    forall u, a :: u in s.pending && Some(u) != self && at <= a < at + n ==>
      !Beside(s.pending[u].addr, |s.pending[u].val|, a)
  }

  /** The rule: whoever writes while a store is pending writes nothing beside the value in its window. The value's
      own bytes are free for all. */
  ghost predicate KeepsRule(s: System, act: Action)
    requires Enabled(s, act)
  {
    match act
    case Begin(_, _, _) => true
    case Finish(t) => SparesRests(s, Some(t), s.pending[t].addr, |s.pending[t].val|)
    case Foreign(at, bytes) => SparesRests(s, None, at, |bytes|)
  }

  ghost predicate KeepRule(s: System, acts: seq<Action>, n: nat)
    requires n <= |acts| && Runs(s, acts, n)
  {
    n == 0 || (KeepRule(s, acts, n - 1) && KeepsRule(After(s, acts, n - 1), acts[n - 1]))
  }

  ghost predicate Coherent(s: System) {
    WellFormed(s) && forall t :: t in s.pending ==> RestAsRead(s.mem, s.pending[t])
  }

  lemma SparedRest(s: System, self: Option<nat>, at: int, bytes: seq<byte>, u: nat)
    requires Coherent(s) && SparesRests(s, self, at, |bytes|) && u in s.pending && Some(u) != self
    ensures Accessible(WriteRange(s.mem, at, bytes), Window(s.pending[u].addr), ALG)
    ensures RestAsRead(WriteRange(s.mem, at, bytes), s.pending[u])
  {
  }

  lemma FinishCoherent(s: System, t: nat)
    requires Coherent(s) && t in s.pending && KeepsRule(s, Finish(t))
    ensures Coherent(Next(s, Finish(t)))
  {
    NextWellFormed(s, Finish(t));
    FinishAtomicIff(s, t);
    var p, s' := s.pending[t], Next(s, Finish(t));
    forall u | u in s'.pending
      ensures RestAsRead(s'.mem, s'.pending[u])
    {
      SparedRest(s, Some(t), p.addr, p.val, u);
    }
  }

  lemma ForeignCoherent(s: System, at: int, bytes: seq<byte>)
    requires Coherent(s) && KeepsRule(s, Foreign(at, bytes))
    ensures Coherent(Next(s, Foreign(at, bytes)))
  {
    NextWellFormed(s, Foreign(at, bytes));
    forall u | u in s.pending
      ensures RestAsRead(WriteRange(s.mem, at, bytes), s.pending[u])
    {
      SparedRest(s, None, at, bytes, u);
    }
  }

  lemma BeginFindsRest(s: System, t: nat, addr: u64, val: seq<byte>)
    requires Enabled(s, Begin(t, addr, val))
    ensures var p := Next(s, Begin(t, addr, val)).pending[t]; HoldsValue(p.addr, p.val, p.data) && RestAsRead(s.mem, p)
  {
    var read := ReadRange(s.mem, Window(addr), ALG);
    PatchHolds(addr, val, read);
    forall a | Beside(addr, |val|, a)
      ensures Patch(read, StepBack(addr), val)[a - Window(addr)] == s.mem[a]
    {
      assert read[a - Window(addr)] == s.mem[a];
    }
  }

  lemma BeginCoherent(s: System, t: nat, addr: u64, val: seq<byte>)
    requires Coherent(s) && Enabled(s, Begin(t, addr, val))
    ensures Coherent(Next(s, Begin(t, addr, val)))
  {
    NextWellFormed(s, Begin(t, addr, val));
    BeginFindsRest(s, t, addr, val);
  }

  lemma NextCoherent(s: System, act: Action)
    requires Coherent(s) && Enabled(s, act) && KeepsRule(s, act)
    ensures Coherent(Next(s, act))
  {
    match act
    case Begin(t, addr, val) => BeginCoherent(s, t, addr, val);
    case Finish(t) => FinishCoherent(s, t);
    case Foreign(at, bytes) => ForeignCoherent(s, at, bytes);
  }

  /** A run that keeps the rule is atomic at every moment. */
  lemma {:induction false} RuleKeepsAtomic(s: System, acts: seq<Action>, n: nat)
    requires n <= |acts| && Runs(s, acts, n) && Coherent(s) && KeepRule(s, acts, n)
    ensures Coherent(After(s, acts, n))
    ensures Undisturbed(s, acts, n) && AtomicThroughout(s, acts, n)
  {
    if n > 0 {
      RuleKeepsAtomic(s, acts, n - 1);
      NextCoherent(After(s, acts, n - 1), acts[n - 1]);
    }
    StoresAreAtomic(s, acts, n);
  }

  lemma OneMore(s: System, acts: seq<Action>, n: nat)
    requires n < |acts| && Runs(s, acts, n) && Enabled(After(s, acts, n), acts[n])
    ensures Runs(s, acts, n + 1) && After(s, acts, n + 1) == Next(After(s, acts, n), acts[n])
    ensures Ideal(s, acts, n + 1) == Instant(After(s, acts, n), acts[n], Ideal(s, acts, n))
  {
  }

  /** The system in which both one-byte stores have read the window of address 8 and neither has written. */
  function BothPending(mem: Memory): System
    requires Accessible(mem, 8, 8)
  {
    var read := ReadRange(mem, 8, 8);
    System(mem, map[1 := Pending(9, [1], Patch(read, 1, [1])), 2 := Pending(10, [2], Patch(read, 2, [2]))])
  }

  lemma BothBegin(mem: Memory, acts: seq<Action>)
    requires Accessible(mem, 8, 8) && |acts| >= 2 && acts[0] == Begin(1, 9, [1]) && acts[1] == Begin(2, 10, [2])
    ensures Runs(System(mem, map[]), acts, 2) && After(System(mem, map[]), acts, 2) == BothPending(mem)
    ensures Ideal(System(mem, map[]), acts, 2) == mem
  {
    var s0 := System(mem, map[]);
    OneMore(s0, acts, 0);
    OneMore(s0, acts, 1);
  }

  /** Two one-byte stores into one window: both finish, and the first one's byte is gone. */
  lemma OverlappingStoresLoseOne(mem: Memory)
    requires Accessible(mem, 8, 8) && mem[9] == 0
    ensures var acts := [Begin(1, 9, [1]), Begin(2, 10, [2]), Finish(1), Finish(2)];
            && Runs(System(mem, map[]), acts, 4)
            && 9 in After(System(mem, map[]), acts, 4).mem && After(System(mem, map[]), acts, 4).mem[9] == 0
            && Ideal(System(mem, map[]), acts, 4)[9] == 1
  {
    var s0 := System(mem, map[]);
    var acts := [Begin(1, 9, [1]), Begin(2, 10, [2]), Finish(1), Finish(2)];
    BothBegin(mem, acts);
    var s2 := BothPending(mem);
    var s3 := Next(s2, acts[2]);
    OneMore(s0, acts, 2);
    OneMore(s0, acts, 3);
    assert s2.pending[2].data[1] == 0;
  }
}
