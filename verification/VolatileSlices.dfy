/**
 * `VolatileSlice`, `VolatileRef` and `VolatileArrayRef` (src/volatile_memory.rs): pointer arithmetic over
 * sub-slices, and byte and element access through them.
 */
module VolatileSlices {
  import opened Words
  import opened VolatileCopy

  const ISIZE_MAX: int := 0x7fff_ffff_ffff_ffff

  datatype Error = OutOfBounds(addr: int) | Overflow(base: int, offset: int) | TooBig(nelements: int, size: int)

  datatype Slice = Slice(addr: u64, size: u64)

  /** A slice of memory that exists: its end is an address. */
  predicate Exists(s: Slice) {
    0 < s.addr && s.addr + s.size < U64_LIMIT
  }

  predicate Inside(t: Slice, s: Slice) {
    s.addr <= t.addr && t.addr + t.size <= s.addr + s.size
  }

  // ---------------------------------------------------------------------------------------------
  // Taking sub-slices
  // ---------------------------------------------------------------------------------------------

  function ComputeOffset(base: u64, offset: u64): Outcome<u64, Error> {
    if base + offset >= U64_LIMIT then Err(Overflow(base, offset)) else Ok(base + offset)
  }

  /** `VolatileSlice::subslice`, which `get_slice` repeats; the unchecked pointer addition may panic. */
  function Subslice(s: Slice, offset: u64, count: u64): Outcome<Slice, Error> {
    match ComputeOffset(offset, count)
    case Err(e) => Err(e)
    case Panic => Panic
    case Ok(end) =>
      if end > s.size then Err(OutOfBounds(end))
      else if s.addr + offset >= U64_LIMIT then Panic
      else Ok(Slice(s.addr + offset, count))
  }

  /** `VolatileSlice::offset`. */
  function Offset(s: Slice, count: u64): Outcome<Slice, Error> {
    if s.addr + count >= U64_LIMIT then Err(Overflow(s.addr, count))
    else if s.size < count then Err(OutOfBounds(s.addr + count))
    else Ok(Slice(s.addr + count, s.size - count))
  }

  /** `VolatileSlice::split_at`. */
  function SplitAt(s: Slice, mid: u64): Outcome<(Slice, Slice), Error> {
    match Offset(s, mid)
    case Ok(end) => Ok((Slice(s.addr, mid), end))
    case Err(e) => Err(e)
    case Panic => Panic
  }

  lemma ProductNonNegative(a: nat, b: nat)
    ensures 0 <= a * b
  {
  }

  /** `VolatileMemory::get_array_ref` for elements of `size` bytes, as the slice it covers. */
  function GetArrayRef(s: Slice, offset: u64, n: u64, size: u64): Outcome<Slice, Error> {
    if n > ISIZE_MAX || n * size > ISIZE_MAX then Err(TooBig(n, size))
    else
      ProductNonNegative(n, size);
      Subslice(s, offset, n * size)
  }

  /** `get_array_ref` followed by `ref_at`: the slice of one element. */
  function ElementRef(s: Slice, offset: u64, n: u64, size: u64, index: u64): Outcome<Slice, Error> {
    match GetArrayRef(s, offset, n, size)
    case Err(e) => Err(e)
    case Panic => Panic
    case Ok(elements) =>
      if index >= n || elements.addr + size * index >= U64_LIMIT then Panic
      else
        ProductNonNegative(size, index);
        Ok(Slice(elements.addr + size * index, size))
  }

  datatype Step =
    | TakeSubslice(offset: u64, count: u64)      // get_slice, subslice; get_ref with the size of its type
    | TakeOffset(count: u64)
    | TakeLeft(mid: u64)                         // the halves of split_at
    | TakeRight(mid: u64)
    | TakeElement(offset: u64, n: u64, size: u64, index: u64)

  function Take(s: Slice, step: Step): Outcome<Slice, Error> {
    match step
    case TakeSubslice(offset, count) => Subslice(s, offset, count)
    case TakeOffset(count) => Offset(s, count)
    case TakeLeft(mid) =>
      (match SplitAt(s, mid) case Ok(p) => Ok(p.0) case Err(e) => Err(e) case Panic => Panic)
    case TakeRight(mid) =>
      (match SplitAt(s, mid) case Ok(p) => Ok(p.1) case Err(e) => Err(e) case Panic => Panic)
    case TakeElement(offset, n, size, index) => ElementRef(s, offset, n, size, index)
  }

  function TakeAll(s: Slice, steps: seq<Step>): Outcome<Slice, Error>
    decreases |steps|
  {
    if steps == [] then Ok(s)
    else match Take(s, steps[0])
      case Ok(t) => TakeAll(t, steps[1..])
      case Err(e) => Err(e)
      case Panic => Panic
  }

  /** The index assertion of `ref_at` is respected. */
  predicate IndexInRange(step: Step) {
    step.TakeElement? ==> step.index < step.n
  }

  lemma ElementInside(n: nat, size: nat, index: nat)
    requires index < n
    ensures 0 <= size * index && size * index + size <= n * size
  {
    assert size * (n - 1 - index) >= 0;
    assert n * size == size * index + size + size * (n - 1 - index);
  }

  /** One step from an existing slice stays inside it, is one `subslice` of it, and never overflows. */
  lemma TakeIsSubslice(s: Slice, step: Step)
    requires Exists(s) && IndexInRange(step)
    ensures !Take(s, step).Panic?
    ensures Take(s, step).Ok? ==>
              var t := Take(s, step).value;
              Exists(t) && Inside(t, s) && Subslice(s, t.addr - s.addr, t.size) == Ok(t)
  {
    if step.TakeElement? {
      ElementInside(step.n, step.size, step.index);
    }
  }

  /** A sub-slice is granted exactly when it fits and starts at its offset; nested ones collapse to one with
      summed offsets. */
  lemma SubsliceCollapses(s: Slice, o1: u64, c1: u64, o2: u64, c2: u64)
    requires Exists(s)
    ensures Subslice(s, o1, c1).Ok? <==> o1 + c1 <= s.size
    ensures Subslice(s, o1, c1).Ok? ==>
            var t := Subslice(s, o1, c1).value;
            && t.addr == s.addr + o1 && t.size == c1
            && (Subslice(t, o2, c2).Ok? <==> o2 + c2 <= c1)
            && (Subslice(t, o2, c2).Ok? ==>
                  o1 + o2 < U64_LIMIT && Subslice(t, o2, c2) == Subslice(s, o1 + o2, c2))
  {
  }

  /** A sub-slice is refused exactly when its end overflows, with both arguments, or when its end lies behind the
      slice, with that end. */
  lemma SubsliceRefusals(s: Slice, offset: u64, count: u64)
    requires Exists(s)
    ensures Subslice(s, offset, count) == Err(Overflow(offset, count)) <==> offset + count >= U64_LIMIT
    ensures Subslice(s, offset, count) == Err(OutOfBounds(offset + count)) <==> s.size < offset + count < U64_LIMIT
    ensures Subslice(s, offset, count).Ok? <==> offset + count <= s.size
  {
  }

  /** `offset` and `split_at` are refused exactly when the address overflows, with the slice's own address, or when it
      lies behind the slice, with that address. */
  lemma OffsetRefusals(s: Slice, count: u64)
    requires Exists(s)
    ensures Offset(s, count) == Err(Overflow(s.addr, count)) <==> s.addr + count >= U64_LIMIT
    ensures Offset(s, count) == Err(OutOfBounds(s.addr + count)) <==> s.size < count < U64_LIMIT - s.addr
    ensures Offset(s, count).Ok? <==> count <= s.size
    ensures count <= s.size ==> Offset(s, count) == Subslice(s, count, s.size - count)
    ensures !SplitAt(s, count).Ok? ==> Offset(s, count).Err? && SplitAt(s, count) == Err(Offset(s, count).error)
  {
  }

  /** An array reference is granted exactly when its size fits in `isize` and it lies in the slice; it is too big, it
      overflows or it is out of bounds otherwise, in this order. */
  lemma ArrayRefExact(s: Slice, offset: u64, n: u64, size: u64)
    requires Exists(s)
    ensures GetArrayRef(s, offset, n, size).Ok? <==>
              n <= ISIZE_MAX && n * size <= ISIZE_MAX && offset + n * size <= s.size
    ensures GetArrayRef(s, offset, n, size).Ok? ==>
              GetArrayRef(s, offset, n, size).value.addr == s.addr + offset
              && GetArrayRef(s, offset, n, size).value.size == n * size
    ensures GetArrayRef(s, offset, n, size) == Err(TooBig(n, size)) <==> n > ISIZE_MAX || n * size > ISIZE_MAX
    ensures n <= ISIZE_MAX && n * size <= ISIZE_MAX && offset + n * size > s.size ==>
              GetArrayRef(s, offset, n, size)
              == Err(if offset + n * size >= U64_LIMIT then Overflow(offset, n * size)
                     else OutOfBounds(offset + n * size))
  {
    ProductNonNegative(n, size);
    if n <= ISIZE_MAX && n * size <= ISIZE_MAX {
      SubsliceRefusals(s, offset, n * size);
    }
  }

  /** The elements of an array reference lie one after another from its offset on and fill it. */
  lemma ElementsFillArray(s: Slice, offset: u64, n: u64, size: u64, index: u64)
    requires Exists(s) && GetArrayRef(s, offset, n, size).Ok? && index < n
    ensures ElementRef(s, offset, n, size, index).Ok?
    ensures var e := ElementRef(s, offset, n, size, index).value;
            var whole := GetArrayRef(s, offset, n, size).value;
            && e.size == size && whole.addr == s.addr + offset
            && (index == 0 ==> e.addr == whole.addr)
            && (index == n - 1 ==> e.addr + size == whole.addr + whole.size)
            && (index + 1 < n ==>
                  && ElementRef(s, offset, n, size, index + 1).Ok?
                  && ElementRef(s, offset, n, size, index + 1).value.addr == e.addr + size)
  {
    ElementInside(n, size, index);
    assert size * (index + 1) == size * index + size;
    if index + 1 < n {
      ElementInside(n, size, index + 1);
    }
  }

  /** `ref_at` panics exactly on an index behind the array; a refused array reference is passed on. */
  lemma RefAtExact(s: Slice, offset: u64, n: u64, size: u64, index: u64)
    requires Exists(s)
    ensures ElementRef(s, offset, n, size, index).Panic? <==> GetArrayRef(s, offset, n, size).Ok? && index >= n
    ensures GetArrayRef(s, offset, n, size).Err? ==>
              ElementRef(s, offset, n, size, index) == GetArrayRef(s, offset, n, size)
  {
    ArrayRefExact(s, offset, n, size);
    if index < n {
      ElementInside(n, size, index);
    }
  }

  /** Any finite chain from an existing root stays inside the root, is one `subslice` of the root, and never
      overflows an address. */
  lemma {:induction false} ChainStaysInside(root: Slice, steps: seq<Step>)
    requires Exists(root) && forall i :: 0 <= i < |steps| ==> IndexInRange(steps[i])
    ensures !TakeAll(root, steps).Panic?
    ensures TakeAll(root, steps).Ok? ==>
              var t := TakeAll(root, steps).value;
              Exists(t) && Inside(t, root) && Subslice(root, t.addr - root.addr, t.size) == Ok(t)
    decreases |steps|
  {
    if steps != [] {
      TakeIsSubslice(root, steps[0]);
      if Take(root, steps[0]).Ok? {
        ChainStaysInside(Take(root, steps[0]).value, steps[1..]);
      }
    }
  }

  /** `split_at` succeeds exactly up to the length, and its halves partition the slice. */
  lemma SplitPartitions(s: Slice, mid: u64)
    requires Exists(s)
    ensures SplitAt(s, mid).Ok? <==> mid <= s.size
    ensures SplitAt(s, mid).Ok? ==>
              var (left, right) := SplitAt(s, mid).value;
              && left.addr == s.addr && left.size == mid && left.size + right.size == s.size
              && right.addr == left.addr + left.size
              && SplitAt(s, mid).value == (Subslice(s, 0, mid).value, Subslice(s, mid, s.size - mid).value)
  {
  }

  // ---------------------------------------------------------------------------------------------
  // Byte access: `mem` holds the bytes of `root`
  // ---------------------------------------------------------------------------------------------

  /** `VolatileSlice::write`: clamped at the end of the slice; a short write never tears an aligned value. */
  method WriteAt(mem: array<byte>, root: Slice, s: Slice, buf: seq<byte>, bufAddr: u64, addr: u64)
    returns (r: Outcome<nat, Error>, trace: seq<Access>)
    requires Exists(root) && mem.Length == root.size && Inside(s, root) && bufAddr > 0
    modifies mem
    ensures addr >= s.size ==> r == Err(OutOfBounds(addr)) && mem[..] == old(mem[..])
    ensures addr < s.size ==>
              && r == Ok(Min(|buf|, s.size - addr))
              && mem[..] == Patch(old(mem[..]), s.addr - root.addr + addr, buf[..r.value])
              && (r.value <= 8 ==> Untorn(trace, r.value, bufAddr, s.addr + addr))
  {
    if addr >= s.size {
      return Err(OutOfBounds(addr)), [];
    }
    var n, log := CopySlice(mem, s.addr - root.addr + addr, s.size - addr, buf, bufAddr, s.addr + addr);
    return Ok(n), log;
  }

  /** `VolatileSlice::read`: clamped at the end of the slice; a short read never tears an aligned value. */
  method ReadAt(mem: array<byte>, root: Slice, s: Slice, buf: array<byte>, bufAddr: u64, addr: u64)
    returns (r: Outcome<nat, Error>, trace: seq<Access>)
    requires Exists(root) && mem.Length == root.size && Inside(s, root) && bufAddr > 0 && buf != mem
    modifies buf
    ensures addr >= s.size ==> r == Err(OutOfBounds(addr)) && buf[..] == old(buf[..])
    ensures addr < s.size ==>
              && r == Ok(Min(buf.Length, s.size - addr))
              && var start := s.addr - root.addr + addr;
              && buf[..] == Patch(old(buf[..]), 0, mem[start..start + r.value])
              && (r.value <= 8 ==> Untorn(trace, r.value, s.addr + addr, bufAddr))
  {
    if addr >= s.size {
      return Err(OutOfBounds(addr)), [];
    }
    var start := s.addr - root.addr + addr;
    var src := mem[start..s.addr - root.addr + s.size];
    var n, log := CopySlice(buf, 0, buf.Length, src, s.addr + addr, bufAddr);
    assert src[..n] == mem[start..start + n];
    return Ok(n), log;
  }

  // ---------------------------------------------------------------------------------------------
  // Element access
  // ---------------------------------------------------------------------------------------------

  predicate Uniform(es: seq<seq<byte>>, size: nat) {
    forall i :: 0 <= i < |es| ==> |es[i]| == size
  }

  /** The bytes taken by `n` elements of `size` bytes, as a sum. */
  function Span(n: nat, size: nat): nat {
    if n == 0 then 0 else Span(n - 1, size) + size
  }

  lemma {:induction false} SpanIsProduct(n: nat, size: nat)
    ensures Span(n, size) == n * size
  {
    if n > 0 {
      SpanIsProduct(n - 1, size);
      assert (n - 1) * size + size == n * size;
    }
  }

  lemma {:induction false} SpanMonotone(k: nat, n: nat, size: nat)
    requires k <= n
    ensures Span(k, size) <= Span(n, size)
  {
    if k < n {
      SpanMonotone(k, n - 1, size);
    }
  }

  lemma {:induction false} SpanOfOne(n: nat)
    ensures Span(n, 1) == n
  {
    if n > 0 {
      SpanOfOne(n - 1);
    }
  }

  /** The bytes of the first `n` elements. */
  function Flatten(es: seq<seq<byte>>, n: nat): seq<byte>
    requires n <= |es|
  {
    if n == 0 then [] else Flatten(es, n - 1) + es[n - 1]
  }

  lemma {:induction false} FlattenLength(es: seq<seq<byte>>, size: nat, n: nat)
    requires Uniform(es, size) && n <= |es|
    ensures |Flatten(es, n)| == Span(n, size)
  {
    if n > 0 {
      FlattenLength(es, size, n - 1);
    }
  }

  lemma {:induction false} FlattenPrefix(es: seq<seq<byte>>, n: nat, k: nat)
    requires k <= n <= |es|
    ensures Flatten(es, k) <= Flatten(es, n)
  {
    if k < n {
      FlattenPrefix(es, n - 1, k);
    }
  }

  /** The elements can be read back from the flattened bytes. */
  lemma FlattenElement(es: seq<seq<byte>>, size: nat, n: nat, i: nat)
    requires Uniform(es, size) && i < n <= |es|
    ensures Span(i + 1, size) <= |Flatten(es, n)|
    ensures Flatten(es, n)[Span(i, size)..Span(i + 1, size)] == es[i]
  {
    FlattenLength(es, size, i);
    FlattenLength(es, size, i + 1);
    FlattenPrefix(es, n, i + 1);
    assert Flatten(es, i + 1) == Flatten(es, n)[..Span(i + 1, size)];
    assert Flatten(es, i + 1)[Span(i, size)..] == es[i];
  }

  /** `write_volatile` of one element. */
  method WriteElement(mem: array<byte>, at: nat, e: seq<byte>)
    requires at + |e| <= mem.Length
    modifies mem
    ensures mem[..] == Patch(old(mem[..]), at, e)
  {
    forall i | 0 <= i < |e| {
      mem[at + i] := e[i];
    }
  }

  lemma StoreNext(bytes: seq<byte>, at: nat, size: nat, buf: seq<seq<byte>>, i: nat)
    requires Uniform(buf, size) && i < |buf| && |Flatten(buf, i)| == Span(i, size) && at + Span(i + 1, size) <= |bytes|
    ensures |Flatten(buf, i + 1)| == Span(i + 1, size)
    ensures Patch(Patch(bytes, at, Flatten(buf, i)), at + Span(i, size), buf[i])
         == Patch(bytes, at, Flatten(buf, i + 1))
  {
    PatchTwice(bytes, at, Flatten(buf, i), buf[i]);
  }

  /** One round of the element loop. `before` is memory as the loop found it. */
  method StoreOne(mem: array<byte>, at: nat, size: nat, buf: seq<seq<byte>>, i: nat, pos: nat, ghost before: seq<byte>)
    requires Uniform(buf, size) && i < |buf| && |Flatten(buf, i)| == Span(i, size) && pos == at + Span(i, size)
    requires |before| == mem.Length && at + Span(i + 1, size) <= mem.Length
    requires mem[..] == Patch(before, at, Flatten(buf, i))
    modifies mem
    ensures |Flatten(buf, i + 1)| == Span(i + 1, size)
    ensures mem[..] == Patch(before, at, Flatten(buf, i + 1))
  {
    StoreNext(before, at, size, buf, i);
    WriteElement(mem, pos, buf[i]);
  }

  /** The element loop of `VolatileArrayRef::copy_from`. */
  method StoreLoop(mem: array<byte>, at: nat, size: nat, buf: seq<seq<byte>>, k: nat)
    requires Uniform(buf, size) && k <= |buf| && at + Span(k, size) <= mem.Length
    modifies mem
    ensures |Flatten(buf, k)| == Span(k, size)
    ensures mem[..] == Patch(old(mem[..]), at, Flatten(buf, k))
  {
    ghost var before := mem[..];
    var i, pos := 0, at;
    assert Patch(mem[..], at, []) == mem[..];
    while i < k
      invariant 0 <= i <= k && pos == at + Span(i, size) && at + Span(i, size) <= mem.Length
      invariant |Flatten(buf, i)| == Span(i, size)
      invariant mem[..] == Patch(before, at, Flatten(buf, i))
    {
      SpanMonotone(i + 1, k, size);
      StoreOne(mem, at, size, buf, i, pos, before);
      pos := pos + size;
      i := i + 1;
    }
  }

  /** `VolatileArrayRef::copy_from`: the one-byte fast path and the element loop have one contract. */
  method CopyElementsIn(mem: array<byte>, at: nat, nelem: nat, size: nat, buf: seq<seq<byte>>,
                        memAddr: u64, bufAddr: u64)
    returns (trace: seq<Access>)
    requires 0 < size && Uniform(buf, size) && at + Span(nelem, size) <= mem.Length && memAddr > 0 && bufAddr > 0
    modifies mem
    ensures size == 1 && Min(nelem, |buf|) <= 8 ==> Untorn(trace, Min(nelem, |buf|), bufAddr, memAddr)
    ensures |Flatten(buf, Min(nelem, |buf|))| == Span(Min(nelem, |buf|), size) <= Span(nelem, size)
    ensures mem[..] == Patch(old(mem[..]), at, Flatten(buf, Min(nelem, |buf|)))
  {
    var k := Min(nelem, |buf|);
    FlattenLength(buf, size, k);
    SpanMonotone(k, nelem, size);
    if size == 1 {
      SpanOfOne(k);
      SpanOfOne(nelem);
      SpanOfOne(|buf|);
      FlattenLength(buf, size, |buf|);
      FlattenPrefix(buf, |buf|, k);
      var total, log := CopySlice(mem, at, nelem, Flatten(buf, |buf|), bufAddr, memAddr);
      trace := log;
      assert Flatten(buf, |buf|)[..total] == Flatten(buf, k);
    } else {
      trace := [];
      StoreLoop(mem, at, size, buf, k);
    }
  }

  /** The `i`-th element of `size` bytes from index `at` on. */
  function ElementOf(bytes: seq<byte>, at: nat, size: nat, i: nat): seq<byte>
    requires at + Span(i + 1, size) <= |bytes|
  {
    bytes[at + Span(i, size)..at + Span(i + 1, size)]
  }

  predicate IsElement(bytes: seq<byte>, at: nat, size: nat, i: nat, e: seq<byte>) {
    at + Span(i + 1, size) <= |bytes| && e == ElementOf(bytes, at, size, i)
  }

  /** The first `k` slots hold the elements found in the bytes; the others are untouched. */
  ghost predicate Loaded(bytes: seq<byte>, at: nat, size: nat, before: seq<seq<byte>>, after: seq<seq<byte>>, k: nat) {
    && |after| == |before| && k <= |before|
    && (forall i :: 0 <= i < k ==> IsElement(bytes, at, size, i, after[i]))
    && (forall i :: k <= i < |before| ==> after[i] == before[i])
  }

  lemma LoadedNext(bytes: seq<byte>, at: nat, size: nat, before: seq<seq<byte>>, now: seq<seq<byte>>, k: nat)
    requires Loaded(bytes, at, size, before, now, k) && k < |before| && at + Span(k + 1, size) <= |bytes|
    ensures Loaded(bytes, at, size, before, now[k := ElementOf(bytes, at, size, k)], k + 1)
  {
  }

  /** The element loop of `VolatileArrayRef::copy_to`. */
  method LoadLoop(mem: array<byte>, at: nat, size: nat, buf: array<seq<byte>>, k: nat)
    requires k <= buf.Length && at + Span(k, size) <= mem.Length
    modifies buf
    ensures Loaded(mem[..], at, size, old(buf[..]), buf[..], k)
  {
    var i, pos := 0, at;
    while i < k
      invariant 0 <= i <= k && pos == at + Span(i, size)
      invariant Loaded(mem[..], at, size, old(buf[..]), buf[..], i)
    {
      SpanMonotone(i + 1, k, size);
      LoadedNext(mem[..], at, size, old(buf[..]), buf[..], i);
      ghost var now := buf[..];
      buf[i] := mem[pos..pos + size];
      assert buf[..] == now[i := ElementOf(mem[..], at, size, i)];
      pos := pos + size;
      i := i + 1;
    }
  }

  lemma LoadedBytes(bytes: seq<byte>, at: nat, before: seq<seq<byte>>, after: seq<seq<byte>>, k: nat)
    requires |after| == |before| && k <= |before| && at + k <= |bytes|
    requires forall i :: 0 <= i < k ==> after[i] == [bytes[at + i]]
    requires forall i :: k <= i < |before| ==> after[i] == before[i]
    ensures Loaded(bytes, at, 1, before, after, k)
  {
    forall i | 0 <= i < k
      ensures IsElement(bytes, at, 1, i, after[i])
    {
      SpanOfOne(i);
      SpanOfOne(i + 1);
    }
  }

  /** The one-byte fast path of `VolatileArrayRef::copy_to`, over the buffer seen as bytes. */
  method LoadBytes(mem: array<byte>, at: nat, nelem: nat, buf: array<seq<byte>>, memAddr: u64, bufAddr: u64)
    returns (count: nat, trace: seq<Access>)
    requires at + nelem <= mem.Length && memAddr > 0 && bufAddr > 0
    modifies buf
    ensures count == Min(nelem, buf.Length)
    ensures Loaded(mem[..], at, 1, old(buf[..]), buf[..], count)
    ensures count <= 8 ==> Untorn(trace, count, memAddr, bufAddr)
  {
    var bytes := new byte[buf.Length];
    count, trace := CopySlice(bytes, 0, buf.Length, mem[at..at + nelem], memAddr, bufAddr);
    assert forall i :: 0 <= i < count ==> bytes[i] == bytes[..][i] == mem[at + i];
    forall i | 0 <= i < count {
      buf[i] := [bytes[i]];
    }
    LoadedBytes(mem[..], at, old(buf[..]), buf[..], count);
  }

  /** `VolatileArrayRef::copy_to`: the one-byte fast path and the element loop have one contract. */
  method CopyElementsOut(mem: array<byte>, at: nat, nelem: nat, size: nat, buf: array<seq<byte>>,
                         memAddr: u64, bufAddr: u64)
    returns (count: nat, trace: seq<Access>)
    requires 0 < size && at + Span(nelem, size) <= mem.Length && memAddr > 0 && bufAddr > 0
    modifies buf
    ensures count == Min(nelem, buf.Length)
    ensures Loaded(mem[..], at, size, old(buf[..]), buf[..], count)
    ensures size == 1 && count <= 8 ==> Untorn(trace, count, memAddr, bufAddr)
  {
    count := Min(nelem, buf.Length);
    if size == 1 {
      SpanOfOne(nelem);
      count, trace := LoadBytes(mem, at, nelem, buf, memAddr, bufAddr);
    } else {
      SpanMonotone(count, nelem, size);
      trace := [];
      LoadLoop(mem, at, size, buf, count);
    }
  }

  /** `VolatileSlice::copy_from` and `copy_to` address the first `size / element` elements, and the `unwrap` of
      their `get_array_ref` cannot fail for a slice no longer than `isize::MAX`. */
  lemma WholeElementsGranted(s: Slice, size: u64)
    requires Exists(s) && s.size <= ISIZE_MAX && 0 < size
    ensures Span(s.size / size, size) == (s.size / size) * size <= s.size
    ensures GetArrayRef(s, 0, s.size / size, size) == Ok(Slice(s.addr, Span(s.size / size, size)))
  {
    var n := s.size / size;
    SpanIsProduct(n, size);
    DivisionBounds(s.size, size);
    assert Subslice(s, 0, n * size) == Ok(Slice(s.addr, n * size));
  }

  lemma DivisionBounds(a: nat, b: nat)
    requires 0 < b
    ensures 0 <= a / b <= a && 0 <= (a / b) * b <= a
  {
    assert a == b * (a / b) + a % b;
    ProductNonNegative(a / b, b - 1);
    assert (a / b) * b == a / b + (a / b) * (b - 1);
  }

  /** `VolatileSlice::copy_from`: the first `size / element` elements of the slice, through its array reference. */
  method CopyFrom(mem: array<byte>, root: Slice, s: Slice, size: u64, buf: seq<seq<byte>>, bufAddr: u64)
    returns (r: Outcome<(), Error>)
    requires Exists(root) && mem.Length == root.size && Inside(s, root) && s.size <= ISIZE_MAX
    requires 0 < size && Uniform(buf, size) && bufAddr > 0
    modifies mem
    ensures r == Ok(())
    ensures var k := Min(s.size / size, |buf|);
            && |Flatten(buf, k)| == Span(k, size) <= s.size
            && mem[..] == Patch(old(mem[..]), s.addr - root.addr, Flatten(buf, k))
  {
    var count := s.size / size;
    WholeElementsGranted(s, size);
    match GetArrayRef(s, 0, count, size)
    case Err(_) => r := Panic;
    case Panic => r := Panic;
    case Ok(elements) =>
      var _ := CopyElementsIn(mem, elements.addr - root.addr, count, size, buf, elements.addr, bufAddr);
      r := Ok(());
  }

  /** `VolatileSlice::copy_to`. */
  method CopyTo(mem: array<byte>, root: Slice, s: Slice, size: u64, buf: array<seq<byte>>, bufAddr: u64)
    returns (r: Outcome<nat, Error>)
    requires Exists(root) && mem.Length == root.size && Inside(s, root) && s.size <= ISIZE_MAX
    requires 0 < size && bufAddr > 0
    modifies buf
    ensures r == Ok(Min(s.size / size, buf.Length))
    ensures Loaded(mem[..], s.addr - root.addr, size, old(buf[..]), buf[..], Min(s.size / size, buf.Length))
  {
    var count := s.size / size;
    WholeElementsGranted(s, size);
    match GetArrayRef(s, 0, count, size)
    case Err(_) => r := Panic;
    case Panic => r := Panic;
    case Ok(elements) =>
      var n, _ := CopyElementsOut(mem, elements.addr - root.addr, count, size, buf, elements.addr, bufAddr);
      r := Ok(n);
  }

  lemma PatchedElement(bytes: seq<byte>, at: nat, size: nat, es: seq<seq<byte>>, k: nat, i: nat)
    requires Uniform(es, size) && i < k <= |es| && |Flatten(es, k)| == Span(k, size) && at + Span(k, size) <= |bytes|
    ensures Span(i, size) <= Span(i + 1, size) <= Span(k, size)
    ensures ElementOf(Patch(bytes, at, Flatten(es, k)), at, size, i) == es[i]
  {
    SpanMonotone(i + 1, k, size);
    FlattenElement(es, size, k, i);
  }

  lemma WholeElementsFit(es: seq<seq<byte>>, size: nat, room: nat)
    requires 0 < size && Uniform(es, size)
    ensures Span(room / size, size) <= room
    ensures |Flatten(es, Min(room / size, |es|))| == Span(Min(room / size, |es|), size) <= Span(room / size, size)
  {
    DivisionBounds(room, size);
    SpanIsProduct(room / size, size);
    FlattenLength(es, size, Min(room / size, |es|));
    SpanMonotone(Min(room / size, |es|), room / size, size);
  }

  /** What `copy_from` leaves of `bytes` when the slice is `bytes[at..at + room]`. */
  function CopiedIn(bytes: seq<byte>, at: nat, room: nat, size: nat, es: seq<seq<byte>>): (r: seq<byte>)
    requires 0 < size && Uniform(es, size) && at + room <= |bytes|
    ensures |r| == |bytes|
  {
    WholeElementsFit(es, size, room);
    Patch(bytes, at, Flatten(es, Min(room / size, |es|)))
  }

  lemma UnpatchedElement(bytes: seq<byte>, at: nat, size: nat, val: seq<byte>, i: nat, e: seq<byte>)
    requires at + |val| <= |bytes| && |val| <= Span(i, size) && IsElement(Patch(bytes, at, val), at, size, i, e)
    ensures IsElement(bytes, at, size, i, e)
  {
    var from, to := at + Span(i, size), at + Span(i + 1, size);
    assert Patch(bytes, at, val)[from..to] == bytes[from..to];
  }

  /** `copy_from` of one list followed by `copy_to` into a buffer of any other length, through a slice of `room`
      bytes: the slots that were copied both ways hold the elements, further slots hold what the bytes held before,
      slots beyond the slice or the buffer and bytes around the elements are untouched. */
  lemma ElementRoundTrip(bytes: seq<byte>, at: nat, room: nat, size: nat, es: seq<seq<byte>>,
                         before: seq<seq<byte>>, after: seq<seq<byte>>)
    requires 0 < size && Uniform(es, size) && at + room <= |bytes|
    requires Loaded(CopiedIn(bytes, at, room, size, es), at, size, before, after, Min(room / size, |before|))
    ensures var copied, loaded := Min(room / size, |es|), Min(room / size, |before|);
            && (forall i :: 0 <= i < Min(copied, loaded) ==> after[i] == es[i])
            && (forall i :: copied <= i < loaded ==> IsElement(bytes, at, size, i, after[i]))
            && after[loaded..] == before[loaded..]
            && CopiedIn(bytes, at, room, size, es)[..at] == bytes[..at]
            && at + Span(copied, size) <= |bytes|
            && CopiedIn(bytes, at, room, size, es)[at + Span(copied, size)..] == bytes[at + Span(copied, size)..]
  {
    WholeElementsFit(es, size, room);
    var copied, loaded := Min(room / size, |es|), Min(room / size, |before|);
    var val := Flatten(es, copied);
    var mem := CopiedIn(bytes, at, room, size, es);
    forall i | 0 <= i < Min(copied, loaded)
      ensures after[i] == es[i]
    {
      PatchedElement(bytes, at, size, es, copied, i);
      assert IsElement(mem, at, size, i, after[i]);
    }
    forall i | copied <= i < loaded
      ensures IsElement(bytes, at, size, i, after[i])
    {
      SpanMonotone(copied, i, size);
      UnpatchedElement(bytes, at, size, val, i, after[i]);
    }
    PatchFrame(bytes, at, val);
  }
}
