# vm-memory: a verified model of guest memory access

`vm-memory` presents a guest's physical memory as a sorted list of disjoint regions. In this fork the
bytes of a region live in another process and are reached with `process_vm_readv` and
`process_vm_writev`. This project models the parts of the crate that carry its guarantees and proves them
for all inputs, all callbacks, all reader and writer behaviours and all interleavings.

| file | what it models |
|---|---|
| `RegionMap.dfy` | the region list of `GuestMemoryMmap`: construction, lookup, insertion, removal, folds |
| `SpanAccess.dfy` | `try_access`, the loop that carries an access across regions, and `check_range` |
| `FlatMemory.dfy` | guest `write` and `read` as operations on one flat memory |
| `RegionAsWritten.dfy` | `GuestRegionMmap::write`, `read`, `store` and `load` exactly as they stand |
| `Streams.dfy` | `read_from` and `write_to` for every behaviour of the reader and the writer |
| `RemoteMem.dfy` | `process_load` and `process_store`, alone and as a two-step concurrent protocol |
| `AtomicMap.dfy` | `GuestMemoryAtomic` as a transition system of readers and updaters |
| `VolatileCopy.dfy` | `copy_slice` and `copy_slice_volatile`, down to the single accesses |
| `VolatileSlices.dfy` | slice arithmetic, byte access and typed array access of `volatile_memory` |
| `Address.dfy`, `Bits.dfy` | bit masks: align-up and pointer alignment |
| `Words.dfy` | 64-bit words, bytes, outcomes, folds and overlays |

## How it is modelled

- `usize` has 64 bits and arithmetic is checked. A failed `assert!`, an `unwrap` of `None`, an explicit panic
  and an arithmetic overflow are the outcome `Panic`, so that "does not panic" is something proved.
- A region is a handle: guest base, length, and the remote address of its bytes. A cloned `Arc` is an equal
  handle. Regions are non-empty, non-null, and pass the overflow check of `GuestRegionMmap::new`.
- The remote process is the map of its accessible bytes. A system call moves the first bytes of its range, at
  most as many as a `grant` that the caller does not control, or fails. `process_load` and `process_store` are
  proved for every grant; guest reads and writes and streams assume that one range moves in full or not at all,
  which is what the kernel promises for a single vector.
- The closure given to `try_access` is a function that threads its captured state. The loop is total: a callback
  that reports more than it was asked for runs into the underflow of `count - total`.
- The reference for a write is `WriteEach`: the bytes stored one at a time at guest addresses, with no notion of
  regions or pieces, the last store deciding where two guest addresses share a remote byte. Nothing is assumed
  about sharing or about which pages can be accessed.
- A reader is a data sequence with an arbitrary schedule of short reads and failures; a writer has an
  arbitrary schedule of failures. Each keeps the record of its own calls, and the theorems say what that record
  is, turn by turn, and how its last entry decides the result. Retries after an interrupted call are part of one
  call.
- Every volatile access enters itself in the trace of its copy; a plain copy promises single bytes only.
- `sort_by_key` is an insertion sort; `SortChoiceImmaterial` shows that no other sort could be told apart.

## Where the code and its promise part

- `GuestRegionMmap::write` and `read` check only the first byte against the region and pass the whole
  remaining buffer to the remote process. The `Bytes` contract therefore holds exactly when the access is
  contiguous in the remote process (`WriteAsWrittenExact`, `ReadAsWrittenExact`); `OneRegionContiguous`
  gives the common case and `CrossingWriteMisses` a failing input. The spanning theorems of `FlatMemory.dfy`
  are about a region access that stops at the region's end, which is what the contract in
  `src/bytes.rs` and `VolatileSlice::write` say.
- `process_load` and `process_store` step back a full eight bytes from an aligned address, so their window
  assertion fails there. `ServedExactly` gives the exact condition, `AlignedStorePanics` an input, and
  `PageAlignedRegionsPanic` what it means for a page-aligned mapping.
- Writes refine one flat memory only where guest addresses do not share remote bytes, which `build_raw` lets a
  caller arrange. `WriteFlatExact` and `ReadBackExact` give the exact conditions.
- A store is a read and a write of eight bytes. It is atomic exactly when nobody changed the rest of its window in
  between (`StoresAreAtomic`); `OverlappingStoresLoseOne` is a run of two stores that loses one of them, and
  `RuleKeepsAtomic` a rule that excludes it.
- A `replace` publishes whatever map it is given. It loses nothing, whatever updates were made, exactly when that
  map was loaded as the map that is still current (`ReplaceExact`). An updater that loads before taking the lock
  can overwrite another's update (`EarlyLoadLosesUpdate`), and so can one that keeps a copy from under an earlier
  guard (`KeptCopyLosesUpdate`). When each `replace` uses a copy loaded under the same guard, no update is ever
  lost (`NoLostUpdates`).

## Model

| member | source | states |
|---|---|---|
| RegionMap.NewRegion | src/mmap.rs:140-154 | a region is refused exactly when the sum of its base and length does not fit in 64 bits |
| RegionMap.BuildMapIff | src/mmap.rs:629-651 | the check of adjacent pairs accepts exactly the non-empty lists in which every earlier region ends before every later one starts |
| RegionMap.BuildMapErrors | src/mmap.rs:629-651 | for every list, valid or not: unsorted or overlapping regions are reported if and only if the first bad pair is of that kind |
| RegionMap.FromArcRegions | src/mmap.rs:629-651 | the loop over windows accepts exactly the lists without a bad pair, and its error is that of the first bad pair: out of order, or overlapping |
| RegionMap.LookupHit | src/mmap.rs:722-730 | in a valid map at most one region contains an address, so any hit is the answer |
| RegionMap.MappedIff | src/mmap.rs:722-730 | an address is mapped exactly when some region contains it, and address 2^64-1 never is |
| RegionMap.BinarySearchByStart | src/mmap.rs:723-723 | the search finds the start address or the place that separates smaller from larger starts |
| RegionMap.FindRegion | src/mmap.rs:722-730 | lookup by binary search equals the linear scan, found or not |
| RegionMap.TranslateAddr | src/guest_memory.rs:595-598 | the `unwrap` cannot fail, translation succeeds exactly on mapped addresses, and start plus offset gives back the address |
| RegionMap.SortChoiceImmaterial | src/mmap.rs:663-663 | every sorted permutation of the pushed list is accepted or refused alike and gives the same map |
| RegionMap.InsertIff | src/mmap.rs:657-666 | insertion succeeds exactly when the region meets no other, adds it alone, and otherwise fails with the overlap error |
| RegionMap.InsertRegionIntoClone | src/mmap.rs:657-666 | clone, push, sort and check satisfy the same contract |
| RegionMap.RemoveIff | src/mmap.rs:674-694 | removal succeeds exactly when a region has that start and size, and takes out that region alone |
| RegionMap.RemoveRegionBySearch | src/mmap.rs:674-694 | removal by binary search returns the result of the linear specification |
| RegionMap.ValidMapUnique | src/mmap.rs:629-651 | a valid map is determined by its set of regions |
| RegionMap.InsertsCommute | src/mmap.rs:657-666 | two insertions commute, in success and in failure |
| RegionMap.InsertThenRemove | src/mmap.rs:657-694 | removing a just-inserted region restores the map |
| RegionMap.RemoveThenInsert | src/mmap.rs:657-694 | re-inserting a removed region restores the map |
| RegionMap.RunRefinesSet | src/mmap.rs:657-694 | after any run of inserts and removes the map is valid, even when empty, and lists exactly the set the same run builds |
| RegionMap.FoldsInOrder | src/guest_memory.rs:561-567 | the fold visits every region once, in order, with its index |
| RegionMap.SizeConservation | src/guest_memory.rs:561-567 | at every step the folded lengths count the addresses seen, fit in 64 bits and are at most the last address plus one |
| RegionMap.AllAddressesSeen | src/guest_memory.rs:561-567 | after the last step the addresses counted are exactly the mapped ones |
| RegionMap.LastAddrIsGreatest | src/guest_memory.rs:586-590 | `last_addr` of a non-empty map is mapped and is the greatest mapped address |
| SpanAccess.TryAccess | src/guest_memory.rs:633-667 | for every callback, also one that reports too much, the loop computes the run that `Access` describes, calls and captured state included |
| SpanAccess.Tiling | src/guest_memory.rs:633-667 | for every bounded callback the calls are consecutive pieces inside single regions, the run stops only at the count, a declined piece or an unmapped address, and the loop itself never panics |
| SpanAccess.TilesExactly | src/guest_memory.rs:633-667 | every byte of the result is mapped and consumed by exactly one call |
| SpanAccess.AdvanceInside | src/guest_memory.rs:651-655 | on a valid map the wrap-to-zero arm and the overflow panic are unreachable |
| SpanAccess.UnmappedStart | src/guest_memory.rs:662-663 | an unmapped start is refused with its address and the callback is never called |
| SpanAccess.AccessRule | src/guest_memory.rs:633-667 | whatever a callback keeps at each call it can receive holds of the whole access |
| SpanAccess.OverrunEnds | src/guest_memory.rs:640-657 | a callback that reports more than was left ends the run at once, with the inflated count at an unmapped address and a panic otherwise |
| SpanAccess.CheckRange | src/guest_memory.rs:611-616 | true exactly when the base and every address of the range are mapped |
| FlatMemory.WriteRefinesFlat | src/guest_memory.rs:723-731 | a write sets exactly the first n addresses of the flat memory, n being the length cut at the first hole, where no other address shares those bytes; an unmapped start changes nothing; an inaccessible byte in the run fails |
| FlatMemory.WriteFlatExact | src/guest_memory.rs:723-731 | for all contents the write is one write of the flat memory if and only if no other guest address shares the bytes written |
| FlatMemory.DisjointUnshared | src/mmap.rs:182-197 | regions backed by separate mappings never share a byte, whatever the range |
| FlatMemory.WriteDelivers | src/guest_memory.rs:723-731 | for every map and every set of accessible bytes a write equals the byte-by-byte reference on the mapped run, or, exactly when that run meets an inaccessible byte, fails with every piece before that byte's piece written; no other byte of the process changes |
| FlatMemory.StopUnique | src/guest_memory.rs:637-657 | the piece at which an access fails is determined by the map and the accessible bytes |
| FlatMemory.ReadRefinesFlat | src/guest_memory.rs:733-741 | a read returns that range of the flat memory and leaves the rest of the buffer, or fails exactly when the run meets an inaccessible byte |
| FlatMemory.ReadBackWritten | src/guest_memory.rs:723-741 | reading a range just written returns the same count and, where the addresses written do not share bytes with one another, the same bytes, across any number of regions |
| FlatMemory.ReadBackExact | src/guest_memory.rs:723-741 | what is written is read back for all contents if and only if the addresses written do not share bytes with one another |
| FlatMemory.Write | src/guest_memory.rs:723-731 | the operation on a running process, in all its outcomes: refused start, all pieces before an inaccessible one, or the whole mapped run stored |
| FlatMemory.WriteSlice | src/guest_memory.rs:760-769 | complete exactly when the whole range is mapped and accessible, otherwise the error tells how much was written |
| FlatMemory.Read | src/guest_memory.rs:733-741 | the operation on a running process returns that range of its flat memory, or all pieces before an inaccessible one |
| FlatMemory.OneRegionContiguous | src/mmap.rs:182-230 | an access that ends in the region it starts in is contiguous in the remote process |
| RegionAsWritten.WriteAsWrittenExact | src/mmap.rs:182-197 | the region's own `write` meets the `Bytes` contract for all contents exactly when the start is unmapped or the remote range is contiguous |
| RegionAsWritten.ReadAsWrittenExact | src/mmap.rs:215-230 | the same condition is exact for `read` |
| RegionAsWritten.CrossingWriteMisses | src/mmap.rs:182-197 | two bytes across distant mappings are reported written, and the second region never receives its byte |
| RegionAsWritten.StoreAt | src/guest_memory.rs:992-998 | a guest store translates the address and panics, fails or writes exactly as the window condition says; whatever the system calls move, it leaves a prefix of the value and nothing else |
| RegionAsWritten.LoadAt | src/guest_memory.rs:1000-1004 | a guest load returns the bytes at the translated address under the same condition, or an error when the window is inaccessible or cut short |
| RegionAsWritten.StoreFlatExact | src/mmap.rs:452-473 | every store that is served is one write of the flat memory, for all contents, if and only if its remote range is contiguous and unshared, or its window condition fails and none is served |
| RegionAsWritten.LoadFlatExact | src/mmap.rs:475-492 | every load that is served is a read of the flat memory, for all contents, if and only if its remote range is contiguous, or none is served |
| RegionAsWritten.PageAlignedRegionsPanic | src/mmap.rs:452-492 | with a page-aligned mapping every access at a multiple of eight hits the assertion |
| Streams.ReadFromConserves | src/guest_memory.rs:832-868 | for every reader: it is asked chunk by chunk, inside regions and up to count, as long as it gives something; its last answer decides the result; the bytes taken are the bytes stored, in order from addr, but for the one chunk an inaccessible byte can cost; no assertion fails |
| Streams.ReaderErrorExact | src/guest_memory.rs:852-863 | `IOError` if and only if the reader failed at the last turn of the run |
| Streams.ReadFromSucceeds | src/guest_memory.rs:852-863 | with a reader that does not fail, a mapped start and accessible memory the call succeeds |
| Streams.EndedExactly | src/guest_memory.rs:644-646 | a success before the count and before a hole means that the last, non-empty request got no byte, by the reader's choice or because its data are exhausted |
| Streams.ReadFromIsFlat | src/guest_memory.rs:832-868 | whatever the outcome, the flat memory gains what the source lost, up to one chunk when memory is inaccessible, where those addresses are unshared |
| Streams.ReadFrom | src/guest_memory.rs:832-868 | the operation on a running process keeps that account, the record of its dialogue with the reader included |
| Streams.WriteToConserves | src/guest_memory.rs:913-948 | for every writer: success hands over the whole mapped run up to count, chunk by chunk, each byte once and in order; a writer error leaves the full chunks before it and what it took of the last; an inaccessible chunk leaves the full chunks before it |
| Streams.WriterErrorExact | src/guest_memory.rs:936-943 | `IOError` if and only if some call of the writer failed |
| Streams.WriteToSucceeds | src/guest_memory.rs:936-943 | with a writer that does not fail, a mapped start and accessible memory the whole mapped run is handed over |
| Streams.WriteTo | src/guest_memory.rs:913-948 | the operation on a running process keeps that account and appends a prefix of that range of its flat memory to the sink, all of it on success |
| RemoteMem.RemoteProcess.ReadBytes | src/remote_mem.rs:117-129 | a transfer out returns the first bytes the system call moved, and fails exactly when those cannot be accessed |
| RemoteMem.RemoteProcess.WriteBytes | src/remote_mem.rs:172-184 | a transfer in writes the prefix the system call moved and returns its length, or fails and changes nothing |
| RemoteMem.RemoteProcess.ReadValue | src/remote_mem.rs:101-114 | a short transfer out becomes an error with both byte counts |
| RemoteMem.RemoteProcess.WriteValue | src/remote_mem.rs:156-169 | a short transfer in becomes an error with both byte counts and leaves the prefix |
| RemoteMem.RemoteProcess.Load | src/remote_mem.rs:79-98 | reading the aligned window and cutting it is a plain load of the value, or an error for a short transfer |
| RemoteMem.RemoteProcess.Store | src/remote_mem.rs:136-153 | read, patch and write back of the window is a plain store of the value, or of a prefix of it when the write back is cut short |
| RemoteMem.StoreLeavesPrefix | src/remote_mem.rs:136-169 | for every amount the system calls move a store leaves a prefix of its value: all of it exactly on success, nothing on a panic, a failed call or a short read |
| RemoteMem.ServedExactly | src/remote_mem.rs:83-86 | among the values inside one aligned block exactly those that start on its boundary panic |
| RemoteMem.AlignedStorePanics | src/remote_mem.rs:140-143 | a four-byte store to address 16 panics |
| RemoteMem.LoadAfterStore | src/remote_mem.rs:79-153 | a successful store changes only its own bytes and a following load returns them |
| RemoteMem.SplitStoreExact | src/remote_mem.rs:145-150 | with interference between read and write, the store is atomic exactly when the rest of the window did not change |
| RemoteMem.LoadAfterFinish | src/remote_mem.rs:79-153 | whatever happened between its read and its write, a load right after a store returns the value |
| RemoteMem.StoresAreAtomic | src/remote_mem.rs:136-153 | any number of stores in flight, interleaved in any way with foreign writes, are atomic at every moment of the run if and only if each one finds the rest of its window as it read it |
| RemoteMem.RuleKeepsAtomic | src/remote_mem.rs:136-153 | if whoever writes spares the bytes beside the values of pending stores, every store is atomic; the values themselves may overlap |
| RemoteMem.OverlappingStoresLoseOne | src/remote_mem.rs:145-150 | two one-byte stores into one window both finish and the first is lost |
| AtomicMap.NoLostUpdates | src/atomic.rs:55-84 | in every interleaving at most one guard lives, publications are in lock order and every map is valid; when each replace uses a copy loaded under its own guard, every published map is the publications so far replayed from the initial map |
| AtomicMap.NextKeeps | src/atomic.rs:136-138 | every step keeps that, as long as a replace uses a copy of the current map; copies outlive guards and replaces |
| AtomicMap.NextSound | src/atomic.rs:55-138 | every step at all keeps exclusion, lock order, validity, and that what was loaded under a live guard is the current map |
| AtomicMap.ReplaceExact | src/atomic.rs:136-138 | a replace loses nothing, whatever updates its copy has had, if and only if the copy was loaded as the map that is current |
| AtomicMap.EarlyLoadLosesUpdate | src/atomic.rs:64-76 | a run in which both updaters load before locking and the first one's region is lost |
| AtomicMap.KeptCopyLosesUpdate | src/atomic.rs:125-138 | a run in which every load is under a lock, but one copy outlives its dropped guard and overwrites an update |
| AtomicMap.SnapshotStable | src/atomic.rs:82-84 | through the pointer it holds a reader sees the same regions, whatever is published later |
| AtomicMap.SnapshotIsLastPublished | src/atomic.rs:55-84 | what `memory()` returns is the map of the last replace before it, or the initial one, and stays that |
| AtomicMap.LoadIsLastPublished | src/atomic.rs:55-57 | a loaded map, under a guard or not, is the map of the last replace, unchanged |
| AtomicMap.EditGivesNewMap | src/mmap.rs:657-694 | an update gives a new map with the updated set of regions and leaves the map it was made from, every other copy and all published maps as they were |
| AtomicMap.LockExact | src/atomic.rs:64-76 | the lock can be taken exactly while no guard lives, and using or dropping a guard frees it |
| AtomicMap.NeverBlocked | src/atomic.rs:55-84 | taking a snapshot or loading the map is possible at every moment, whoever holds the lock |
| AtomicMap.OldSnapshotWritesAreSeen | src/atomic.rs:82-138 | in every run, bytes written through any snapshot to a surviving region are read back through the current map |
| VolatileCopy.TearFree | src/volatile_memory.rs:1183-1210 | every naturally placed block that both sides are aligned for is moved by a single access |
| VolatileCopy.PlanUntorn | src/volatile_memory.rs:1183-1210 | in terms of the two addresses alone: no block at a multiple of its width that both addresses are aligned for is torn |
| VolatileCopy.PlanConsecutive | src/volatile_memory.rs:1183-1210 | the accesses follow one another without gap or overlap over the copied length |
| VolatileCopy.PlanAligned | src/volatile_memory.rs:1173-1181 | every access is aligned to its own width at both addresses |
| VolatileCopy.CopySingle | src/volatile_memory.rs:1173-1181 | one access writes its bytes at its offset and enters exactly that in the trace |
| VolatileCopy.CopyAlignedSlice | src/volatile_memory.rs:1191-1200 | one pass makes the accesses the greedy plan makes and copies what they cover |
| VolatileCopy.CopySliceVolatile | src/volatile_memory.rs:1183-1210 | four descending passes equal a plain copy of the smaller length and tear no aligned block, with the greedy plan as trace |
| VolatileCopy.CopySlice | src/volatile_memory.rs:1212-1221 | both branches equal a plain copy of the smaller length and leave the tail; a copy of at most one word tears no aligned block |
| VolatileSlices.ChainStaysInside | src/volatile_memory.rs:309-359 | any chain of sub-slices and references from an existing root stays inside it, equals one sub-slice of it and never overflows |
| VolatileSlices.SubsliceCollapses | src/volatile_memory.rs:323-336 | a sub-slice is granted exactly when it fits; nested ones collapse to summed offsets |
| VolatileSlices.SubsliceRefusals | src/volatile_memory.rs:323-336 | which error a refused sub-slice gives, with its address |
| VolatileSlices.SplitPartitions | src/volatile_memory.rs:309-316 | `split_at` succeeds exactly up to the length and its halves partition the slice |
| VolatileSlices.OffsetRefusals | src/volatile_memory.rs:309-359 | which error a refused offset or split gives, with its address; a granted offset is a sub-slice |
| VolatileSlices.ElementsFillArray | src/volatile_memory.rs:1001-1011 | the elements of an array reference follow one another and fill it |
| VolatileSlices.ArrayRefExact | src/volatile_memory.rs:151-166 | an array reference is granted exactly when its size fits in `isize` and it lies in the slice, with the error in each other case |
| VolatileSlices.RefAtExact | src/volatile_memory.rs:1001-1011 | `ref_at` panics exactly behind the last element |
| VolatileSlices.WriteAt | src/volatile_memory.rs:534-544 | a write is clamped at the slice's end, changes those bytes only, and up to one word tears no aligned block |
| VolatileSlices.ReadAt | src/volatile_memory.rs:561-571 | a read is clamped at the slice's end, leaves the rest of the buffer, and up to one word tears no aligned block |
| VolatileSlices.WholeElementsGranted | src/volatile_memory.rs:385-402 | for a slice within `isize::MAX` the reference to its whole elements is always granted |
| VolatileSlices.CopyElementsIn | src/volatile_memory.rs:1124-1147 | the one-byte path and the element loop both lay down the first elements and nothing else; up to one word the one-byte path tears no aligned block |
| VolatileSlices.CopyElementsOut | src/volatile_memory.rs:1043-1069 | the one-byte path and the element loop both load the first elements and leave the other slots; up to one word the one-byte path tears no aligned block |
| VolatileSlices.CopyFrom | src/volatile_memory.rs:463-480 | never panics within `isize::MAX` and lays down the first min(size / element, length) elements and nothing else |
| VolatileSlices.CopyTo | src/volatile_memory.rs:385-402 | never panics within `isize::MAX`, returns that count and loads those elements |
| VolatileSlices.ElementRoundTrip | src/volatile_memory.rs:385-480 | copying a list in and out into a buffer of another length returns the elements in the slots copied both ways, the old contents in further slots, and touches nothing else |
| Address.AlignUpExact | src/address.rs:108-120 | for every argument, zero included: the least multiple not below the address, absent exactly when it does not fit, with a panic exactly off the powers of two; the unchecked form agrees, panics where nothing fits, and always clears exactly the mask bits of the sum |
| Address.PowerOfTwoTest | src/address.rs:108-113 | the mask assertion accepts exactly the powers of two |
| Address.AlignmentExact | src/volatile_memory.rs:1160-1163 | `alignment` is the largest power of two dividing the address |

## Left out

- The system calls behind `mmap`, `munmap`, `process_vm_readv` and `process_vm_writev`, the construction and drop of mappings, and everything specific to Windows: foreign code.
- The process identifier: one remote process stands behind every region of a map.
- The branches of `read_from` and `write_to` for regions that offer a slice: `GuestRegionMmap` never does.
- `GuestRegionMmap::{read_from, read_exact_from, write_to, write_all_to, get_slice}`: they are unimplemented in this fork.
- `read_slice`, `read_exact_from`, `write_all_to`, `read_obj` and `write_obj`: they add the same length check as `write_slice`.
- `copy_to_volatile_slice` and the stream operations of `VolatileSlice`: plain memory moves under one bounds check.
- Retry loops on interrupted calls, memory orderings and fences, mutex poisoning (`lock` hands out the guard either way), reference counts and lifetimes.
- `src/endian.rs`, `src/atomic_integer.rs`, error display and logging: thin wrappers with only easy claims.
- AtomicMap.NoLostUpdates: the edits of a copy are `insert_region` and `remove_region`, not maps built from scratch.
- FlatMemory.WriteDelivers: a transfer of one range moves in full or fails; short transfers are modelled for `process_load` and `process_store` only.
- VolatileCopy.CopySliceVolatile: source and destination do not overlap, as `&mut` and `&` guarantee.
