/**
 * `copy_slice` and `copy_slice_volatile` (src/volatile_memory.rs): a copy by accesses of descending
 * width, which never tears a value that both sides are aligned for.
 */
module VolatileCopy {
  import opened Words
  import opened Bits
  import opened Address

  /** One volatile read and write of `width` bytes at `offset` from both starting addresses. */
  datatype Access = Access(offset: nat, width: nat)

  // ---------------------------------------------------------------------------------------------
  // The accesses of a copy, chosen greedily
  // ---------------------------------------------------------------------------------------------

  /** The widest access the alignment and the remaining length allow. */
  function Width(left: nat, align: nat): (w: nat)
    requires left > 0 && align > 0
    ensures w in {1, 2, 4, 8} && w <= left && w <= align
  {
    if align >= 8 && left >= 8 then 8
    else if align >= 4 && left >= 4 then 4
    else if align >= 2 && left >= 2 then 2
    else 1
  }

  function Plan(offset: nat, left: nat, align: nat): seq<Access>
    requires align > 0
    decreases left
  {
    if left == 0 then []
    else
      var w := Width(left, align);
      [Access(offset, w)] + Plan(offset + w, left - w, align)
  }

  predicate Holds(acc: Access, offset: nat, width: nat) {
    acc.offset <= offset && offset + width <= acc.offset + acc.width
  }

  /** `a` is a multiple of the access width `w`. */
  predicate AlignedAt(a: int, w: nat) {
    && (w == 8 ==> a % 8 == 0)
    && (w == 4 ==> a % 4 == 0)
    && (w == 2 ==> a % 2 == 0)
  }

  /** The next access of a copy starts at a multiple of its width. */
  predicate Placed(offset: nat, left: nat, align: nat)
    requires align > 0
  {
    left > 0 ==> AlignedAt(offset, Width(left, align))
  }

  lemma NarrowerDivides(a: int, w: nat, v: nat)
    requires w in {1, 2, 4, 8} && v in {1, 2, 4, 8} && v <= w && AlignedAt(a, w)
    ensures AlignedAt(a + w, v)
  {
    if w == 8 {
      var q := a / 8;
      ModUnique(a + 8, 8, q + 1, 0);
      ModUnique(a + 8, 4, 2 * q + 2, 0);
      ModUnique(a + 8, 2, 4 * q + 4, 0);
    } else if w == 4 {
      var q := a / 4;
      ModUnique(a + 4, 4, q + 1, 0);
      ModUnique(a + 4, 2, 2 * q + 2, 0);
    } else if w == 2 {
      ModUnique(a + 2, 2, a / 2 + 1, 0);
    }
  }

  lemma PlacedStep(offset: nat, left: nat, align: nat)
    requires align > 0 && left > 0 && Placed(offset, left, align)
    ensures Placed(offset + Width(left, align), left - Width(left, align), align)
  {
    var w := Width(left, align);
    if left > w {
      NarrowerDivides(offset, w, Width(left - w, align));
    }
  }

  lemma WidthIsWidest(left: nat, align: nat, w: nat)
    requires w in {1, 2, 4, 8} && w <= left && w <= align
    ensures w <= Width(left, align)
  {
  }

  lemma AlignedApart(a: int, b: int, w: nat)
    requires w in {1, 2, 4, 8} && AlignedAt(a, w) && AlignedAt(b, w) && a < b
    ensures a + w <= b
  {
  }

  lemma BlockInside(offset: nat, left: nat, align: nat, o: nat, w: nat)
    requires align > 0 && left > 0 && w in {1, 2, 4, 8} && w <= align && AlignedAt(o, w)
    requires Placed(offset, left, align) && offset <= o < offset + Width(left, align) && o + w <= offset + left
    ensures o + w <= offset + Width(left, align)
  {
    WidthIsWidest(left, align, w);
    NarrowerDivides(offset, Width(left, align), w);
    AlignedApart(o, offset + Width(left, align), w);
  }

  /** Every naturally placed block that both sides are aligned for is moved by a single access. */
  lemma {:induction false} TearFree(offset: nat, left: nat, align: nat, o: nat, w: nat) returns (i: nat)
    requires align > 0 && w in {1, 2, 4, 8} && w <= align && AlignedAt(o, w)
    requires offset <= o && o + w <= offset + left
    requires Placed(offset, left, align)
    ensures i < |Plan(offset, left, align)| && Holds(Plan(offset, left, align)[i], o, w)
    decreases left
  {
    var g := Width(left, align);
    if o < offset + g {
      BlockInside(offset, left, align, o, w);
      i := 0;
    } else {
      PlacedStep(offset, left, align);
      var j := TearFree(offset + g, left - g, align, o, w);
      i := j + 1;
    }
  }

  /** The block of `w` bytes at `o` is moved by one of the accesses. */
  predicate MovedWhole(trace: seq<Access>, o: nat, w: nat) {
    exists i :: 0 <= i < |trace| && Holds(trace[i], o, w)
  }

  /** No naturally placed block of a copy of `total` bytes that both addresses are aligned for is torn. */
  ghost predicate Untorn(trace: seq<Access>, total: nat, srcAddr: u64, dstAddr: u64)
    requires srcAddr > 0 && dstAddr > 0
  {
    forall o: nat, w: nat ::
      && w in {1, 2, 4, 8} && o % w == 0 && o + w <= total && w <= Alignment(srcAddr) && w <= Alignment(dstAddr)
      ==> MovedWhole(trace, o, w)
  }

  lemma PlanUntorn(total: nat, srcAddr: u64, dstAddr: u64)
    requires srcAddr > 0 && dstAddr > 0
    ensures Min(Alignment(srcAddr), Alignment(dstAddr)) > 0
    ensures Untorn(Plan(0, total, Min(Alignment(srcAddr), Alignment(dstAddr))), total, srcAddr, dstAddr)
  {
    CommonAlignment(srcAddr, dstAddr);
    var align := Min(Alignment(srcAddr), Alignment(dstAddr));
    forall o: nat, w: nat | w in {1, 2, 4, 8} && o % w == 0 && o + w <= total && w <= align
      ensures MovedWhole(Plan(0, total, align), o, w)
    {
      var i := TearFree(0, total, align, o, w);
    }
  }

  /** The accesses follow one another without gap or overlap, and each is aligned to its own width
      relative to the start. */
  predicate Consecutive(plan: seq<Access>, offset: nat, end: nat, align: nat)
    decreases |plan|
  {
    if plan == [] then offset == end
    else
      && plan[0].offset == offset && plan[0].width in {1, 2, 4, 8} && plan[0].width <= align
      && AlignedAt(offset, plan[0].width)
      && Consecutive(plan[1..], offset + plan[0].width, end, align)
  }

  lemma {:induction false} PlanConsecutive(offset: nat, left: nat, align: nat)
    requires align > 0 && Placed(offset, left, align)
    ensures Consecutive(Plan(offset, left, align), offset, offset + left, align)
    decreases left
  {
    if left > 0 {
      var w := Width(left, align);
      PlacedStep(offset, left, align);
      PlanConsecutive(offset + w, left - w, align);
      assert Plan(offset, left, align)[1..] == Plan(offset + w, left - w, align);
    }
  }

  lemma SmallPowers()
    ensures IsPow2(1) && IsPow2(2) && IsPow2(4) && IsPow2(8)
  {
    assert Pow2(0) == 1 && Pow2(1) == 2 && Pow2(2) == 4 && Pow2(3) == 8;
  }

  lemma StartAligned(addr: u64, w: nat)
    requires addr > 0 && w in {1, 2, 4, 8} && w <= Alignment(addr)
    ensures AlignedAt(addr, w)
  {
    SmallPowers();
    if w == 8 {
      AlignedTo(addr, 8);
    } else if w == 4 {
      AlignedTo(addr, 4);
    } else if w == 2 {
      AlignedTo(addr, 2);
    }
  }

  lemma SumAligned(a: int, b: int, w: nat)
    requires AlignedAt(a, w) && AlignedAt(b, w)
    ensures AlignedAt(a + b, w)
  {
    if w == 2 {
      ModUnique(a + b, 2, a / 2 + b / 2, 0);
    } else if w == 4 {
      ModUnique(a + b, 4, a / 4 + b / 4, 0);
    } else if w == 8 {
      ModUnique(a + b, 8, a / 8 + b / 8, 0);
    }
  }

  lemma StaysAligned(addr: u64, offset: nat, w: nat)
    requires addr > 0 && w in {1, 2, 4, 8} && w <= Alignment(addr) && AlignedAt(offset, w)
    ensures AlignedAt(addr + offset, w)
  {
    StartAligned(addr, w);
    SumAligned(addr, offset, w);
  }

  /** Aligned relative to the start means aligned at both addresses. */
  lemma BothAligned(srcAddr: u64, dstAddr: u64, offset: nat, w: nat)
    requires srcAddr > 0 && dstAddr > 0 && w in {1, 2, 4, 8}
    requires w <= Min(Alignment(srcAddr), Alignment(dstAddr)) && AlignedAt(offset, w)
    ensures AlignedAt(srcAddr + offset, w) && AlignedAt(dstAddr + offset, w)
  {
    StaysAligned(srcAddr, offset, w);
    StaysAligned(dstAddr, offset, w);
  }

  /** The alignment both addresses share. */
  lemma CommonAlignment(srcAddr: u64, dstAddr: u64)
    requires srcAddr > 0 && dstAddr > 0
    ensures Min(Alignment(srcAddr), Alignment(dstAddr)) > 0
  {
    AlignmentExact(srcAddr);
    AlignmentExact(dstAddr);
  }

  // ---------------------------------------------------------------------------------------------
  // The copy
  // ---------------------------------------------------------------------------------------------

  /** `copy_single`: one access, legal only when both addresses are aligned to its width. */
  method CopySingle(width: nat, dst: array<byte>, at: nat, offset: nat, bytes: seq<byte>, srcAddr: int, dstAddr: int,
                    trace: seq<Access>)
    returns (trace': seq<Access>)
    requires width in {1, 2, 4, 8} && |bytes| == width && at + offset + width <= dst.Length
    requires AlignedAt(srcAddr, width) && AlignedAt(dstAddr, width)
    modifies dst
    ensures dst[..] == Patch(old(dst[..]), at + offset, bytes)
    ensures trace' == trace + [Access(offset, width)]
  {
    forall i | 0 <= i < width {
      dst[at + offset + i] := bytes[i];
    }
    trace' := trace + [Access(offset, width)];
  }

  lemma PlanCons(trace: seq<Access>, offset: nat, left: nat, align: nat)
    requires align > 0 && left > 0
    ensures var w := Width(left, align);
            trace + Plan(offset, left, align) == (trace + [Access(offset, w)]) + Plan(offset + w, left - w, align)
  {
  }

  /** One round of a pass: the plan's next access has the width of the pass, and the rest is placed again. */
  lemma PassStep(trace: seq<Access>, offset: nat, left: nat, align: nat, width: nat)
    requires width in {1, 2, 4, 8} && width <= left && width <= align && Placed(offset, left, align)
    requires width == 8 || align < 2 * width || left < 2 * width
    ensures AlignedAt(offset, width) && Placed(offset + width, left - width, align)
    ensures trace + Plan(offset, left, align)
         == (trace + [Access(offset, width)]) + Plan(offset + width, left - width, align)
  {
    assert Width(left, align) == width;
    PlacedStep(offset, left, align);
    PlanCons(trace, offset, left, align);
  }

  lemma PatchNext(before: seq<byte>, at: nat, src: seq<byte>, done: nat, more: nat)
    requires at + |src| <= |before| && done + more <= |src|
    ensures Patch(Patch(before, at, src[..done]), at + done, src[done..done + more])
         == Patch(before, at, src[..done + more])
  {
  }

  /** One access in the middle of a copy, the next one of the plan. */
  method CopyOne(width: nat, align: nat, dst: array<byte>, at: nat, src: seq<byte>, srcAddr: u64, dstAddr: u64,
                 done: nat, trace: seq<Access>, ghost before: seq<byte>)
    returns (trace': seq<Access>)
    requires width in {1, 2, 4, 8} && at + |src| <= dst.Length == |before| && done + width <= |src|
    requires srcAddr > 0 && dstAddr > 0 && width <= align == Min(Alignment(srcAddr), Alignment(dstAddr))
    requires width == 8 || align < 2 * width || |src| - done < 2 * width
    requires Placed(done, |src| - done, align) && dst[..] == Patch(before, at, src[..done])
    modifies dst
    ensures Placed(done + width, |src| - (done + width), align) && dst[..] == Patch(before, at, src[..done + width])
    ensures trace' + Plan(done + width, |src| - (done + width), align) == trace + Plan(done, |src| - done, align)
  {
    PassStep(trace, done, |src| - done, align, width);
    BothAligned(srcAddr, dstAddr, done, width);
    PatchNext(before, at, src, done, width);
    trace' := CopySingle(width, dst, at, done, src[done..done + width], srcAddr + done, dstAddr + done, trace);
  }

  /** `copy_aligned_slice`: as many accesses of one width as fit. Wider ones no longer fit when it is called, so its
      accesses are the ones the greedy plan makes. `before` is the destination as the whole copy found it. */
  method CopyAlignedSlice(width: nat, align: nat, dst: array<byte>, at: nat, src: seq<byte>, srcAddr: u64, dstAddr: u64,
                          done0: nat, trace0: seq<Access>, ghost before: seq<byte>)
    returns (done: nat, trace: seq<Access>)
    requires width in {1, 2, 4, 8} && at + |src| <= dst.Length == |before| && done0 <= |src|
    requires srcAddr > 0 && dstAddr > 0 && align == Min(Alignment(srcAddr), Alignment(dstAddr)) > 0
    requires width == 8 || align < 2 * width || |src| - done0 < 2 * width
    requires Placed(done0, |src| - done0, align) && dst[..] == Patch(before, at, src[..done0])
    modifies dst
    ensures done0 <= done <= |src| && (align < width || |src| - done < width)
    ensures Placed(done, |src| - done, align) && dst[..] == Patch(before, at, src[..done])
    ensures trace + Plan(done, |src| - done, align) == trace0 + Plan(done0, |src| - done0, align)
  {
    done, trace := done0, trace0;
    while align >= width && |src| - done >= width
      invariant done0 <= done <= |src|
      invariant Placed(done, |src| - done, align) && dst[..] == Patch(before, at, src[..done])
      invariant trace + Plan(done, |src| - done, align) == trace0 + Plan(done0, |src| - done0, align)
      decreases |src| - done
    {
      trace := CopyOne(width, align, dst, at, src, srcAddr, dstAddr, done, trace, before);
      done := done + width;
    }
  }

  /** `copy_slice_volatile` into `dst[at..at + room]`. The result is the plain copy of the smaller length, and
      the accesses are exactly the greedy plan. */
  method CopySliceVolatile(dst: array<byte>, at: nat, room: nat, src: seq<byte>, srcAddr: u64, dstAddr: u64)
    returns (total: nat, trace: seq<Access>)
    requires at + room <= dst.Length && srcAddr > 0 && dstAddr > 0
    modifies dst
    ensures total == Min(|src|, room)
    ensures dst[..] == Patch(old(dst[..]), at, src[..total])
    ensures Min(Alignment(srcAddr), Alignment(dstAddr)) > 0
    ensures trace == Plan(0, total, Min(Alignment(srcAddr), Alignment(dstAddr)))
    ensures Untorn(trace, total, srcAddr, dstAddr)
  {
    total := Min(|src|, room);
    CommonAlignment(srcAddr, dstAddr);
    var align := Min(Alignment(srcAddr), Alignment(dstAddr));
    var data := src[..total];
    ghost var before := dst[..];
    assert Patch(before, at, data[..0]) == before;
    var done, tr := CopyAlignedSlice(8, align, dst, at, data, srcAddr, dstAddr, 0, [], before);
    done, tr := CopyAlignedSlice(4, align, dst, at, data, srcAddr, dstAddr, done, tr, before);
    done, tr := CopyAlignedSlice(2, align, dst, at, data, srcAddr, dstAddr, done, tr, before);
    done, tr := CopyAlignedSlice(1, align, dst, at, data, srcAddr, dstAddr, done, tr, before);
    assert done == total && data[..done] == data;
    assert tr + [] == tr && [] + Plan(0, total, align) == Plan(0, total, align);
    trace := tr;
    PlanUntorn(total, srcAddr, dstAddr);
  }

  /** `copy_from_slice`: a plain copy promises nothing wider than single bytes. */
  method CopyPlain(dst: array<byte>, at: nat, src: seq<byte>, total: nat) returns (trace: seq<Access>)
    requires at + total <= dst.Length && total <= |src|
    modifies dst
    ensures dst[..] == Patch(old(dst[..]), at, src[..total])
    ensures |trace| == total && forall i :: 0 <= i < total ==> trace[i] == Access(i, 1)
  {
    forall i | 0 <= i < total {
      dst[at + i] := src[i];
    }
    trace := seq(total, i requires 0 <= i => Access(i, 1));
  }

  /** `copy_slice`: volatile up to one word, so that no aligned value of a short copy is torn; a plain copy beyond. */
  method CopySlice(dst: array<byte>, at: nat, room: nat, src: seq<byte>, srcAddr: u64, dstAddr: u64)
    returns (total: nat, trace: seq<Access>)
    requires at + room <= dst.Length && srcAddr > 0 && dstAddr > 0
    modifies dst
    ensures total == Min(|src|, room)
    ensures dst[..] == Patch(old(dst[..]), at, src[..total])
    ensures total <= 8 ==> Untorn(trace, total, srcAddr, dstAddr)
  {
    total := Min(|src|, room);
    if total <= 8 {
      var copied, log := CopySliceVolatile(dst, at, room, src, srcAddr, dstAddr);
      trace := log;
    } else {
      trace := CopyPlain(dst, at, src, total);
    }
  }

  /** Every access of a volatile copy is aligned to its own width at both addresses. */
  lemma PlanAligned(srcAddr: u64, dstAddr: u64, total: nat, i: nat)
    requires srcAddr > 0 && dstAddr > 0 && Min(Alignment(srcAddr), Alignment(dstAddr)) > 0
    requires i < |Plan(0, total, Min(Alignment(srcAddr), Alignment(dstAddr)))|
    ensures var c := Plan(0, total, Min(Alignment(srcAddr), Alignment(dstAddr)))[i];
            && c.width in {1, 2, 4, 8}
            && AlignedAt(srcAddr + c.offset, c.width) && AlignedAt(dstAddr + c.offset, c.width)
  {
    var align := Min(Alignment(srcAddr), Alignment(dstAddr));
    var plan := Plan(0, total, align);
    PlanConsecutive(0, total, align);
    ConsecutiveAt(plan, 0, total, align, i);
    BothAligned(srcAddr, dstAddr, plan[i].offset, plan[i].width);
  }

  lemma {:induction false} ConsecutiveAt(plan: seq<Access>, offset: nat, end: nat, align: nat, i: nat)
    requires Consecutive(plan, offset, end, align) && i < |plan|
    ensures plan[i].width in {1, 2, 4, 8} && plan[i].width <= align && AlignedAt(plan[i].offset, plan[i].width)
    decreases |plan|
  {
    if i > 0 {
      ConsecutiveAt(plan[1..], offset + plan[0].width, end, align, i - 1);
    }
  }
}
