/**
 * `GuestMemory::try_access` (src/guest_memory.rs): the loop that carries one access across region
 * boundaries, and what it guarantees for every callback.
 */
module SpanAccess {
  import opened Words
  import opened RegionMap
  import opened RemoteMem

  datatype Error = InvalidGuestAddress(addr: int) | IOError | PartialBuffer(expected: nat, completed: nat)
                 | InvalidBackendAddress | RemoteMemError(cause: RemoteError)

  /** The closure given to `try_access`, with its captured state threaded through: it receives the bytes
      done so far, the length of the piece, the offset inside the region and the region. */
  type Callback<!S> = (S, nat, nat, nat, Region) -> (S, Outcome<nat, Error>)

  /** One invocation of the callback and how many bytes it consumed. */
  datatype Call = Call(offset: nat, len: nat, start: nat, region: Region, got: nat)

  datatype Run<S> = Run(state: S, result: Outcome<nat, Error>, calls: seq<Call>)

  function OverflowingAdd(a: u64, n: nat): (u64, bool) {
    ((a + n) % U64_LIMIT, a + n >= U64_LIMIT)
  }

  /** The three arms that advance `cur`; `None` is the "guest address overflow" panic. */
  function Advance(cur: u64, n: nat): Option<u64> {
    var (result, overflow) := OverflowingAdd(cur, n);
    if result == 0 then Some(0)
    else if !overflow then Some(result)
    else None
  }

  /** A callback that returns at most the length it was given. */
  ghost predicate WithinPiece<S(!new)>(f: Callback<S>) {
    forall s, o: nat, l: nat, a: nat, r :: f(s, o, l, a, r).1.Ok? ==> f(s, o, l, a, r).1.value <= l
  }

  ghost predicate NeverPanics<S(!new)>(f: Callback<S>) {
    forall s, o: nat, l: nat, a: nat, r :: !f(s, o, l, a, r).1.Panic?
  }

  datatype Progress<S> = Stop(run: Run<S>) | More(state: S, cur: u64, total: nat, call: Call)

  /** The arms of the match on the callback's answer: stop with a result, or go on from a new address. The
      callback may report more than it was asked for; a sum beyond 64 bits panics. */
  function Continue<S>(count: nat, cur: u64, call: Call, s: S, answer: Outcome<nat, Error>): (p: Progress<S>)
    ensures p.More? ==> call.offset < p.total
  {
    match answer
    case Panic => Stop(Run(s, Panic, [call]))
    case Err(e) => Stop(Run(s, Err(e), [call]))
    case Ok(n) =>
      var done := call.(got := n);
      if n == 0 then Stop(Run(s, Ok(call.offset), [done]))
      else if call.offset + n >= U64_LIMIT then Stop(Run(s, Panic, [done]))
      else if call.offset + n == count then Stop(Run(s, Ok(count), [done]))
      else match Advance(cur, n)
        case None => Stop(Run(s, Panic, [done]))
        case Some(next) => More(s, next, call.offset + n, done)
  }

  /** The piece offered to the callback when `r` holds `cur` and `total` bytes are done. */
  function Offer(count: nat, cur: u64, total: nat, r: Region): Call
    requires Contains(r, cur) && total <= count
  {
    Call(total, Min(r.len - (cur - r.base), count - total), cur - r.base, r, 0)
  }

  function Ask<S>(f: Callback<S>, s: S, c: Call): (S, Outcome<nat, Error>) {
    f(s, c.offset, c.len, c.start, c.region)
  }

  /** One round of the loop at `cur` with `total` bytes done; `count - total` panics when it underflows. */
  function Round<S>(m: seq<Region>, count: nat, addr: u64, f: Callback<S>, s: S, cur: u64, total: nat)
    : (p: Progress<S>)
    ensures p.More? ==> total <= count && total < p.total
  {
    match Lookup(m, cur)
    case None => Stop(Run(s, if total == 0 then Err(InvalidGuestAddress(addr)) else Ok(total), []))
    case Some(r) =>
      if total > count then Stop(Run(s, Panic, []))
      else
        var call := Offer(count, cur, total, r);
        var (s', answer) := Ask(f, s, call);
        Continue(count, cur, call, s', answer)
  }

  /** How much the loop can still do; past the count it cannot make another round. */
  function Remaining(count: nat, total: nat): nat {
    if total <= count then count - total + 1 else 0
  }

  /** The meaning of the loop from `cur` with `total` bytes done. */
  function Access<S>(m: seq<Region>, count: nat, addr: u64, f: Callback<S>, s: S, cur: u64, total: nat): Run<S>
    decreases Remaining(count, total)
  {
    match Round(m, count, addr, f, s, cur, total)
    case Stop(run) => run
    case More(s', cur', total', call) =>
      var rest := Access(m, count, addr, f, s', cur', total');
      rest.(calls := [call] + rest.calls)
  }

  function AccessAll<S>(m: seq<Region>, count: nat, addr: u64, f: Callback<S>, s: S): Run<S> {
    Access(m, count, addr, f, s, addr, 0)
  }

  function Prepend<S>(calls: seq<Call>, run: Run<S>): Run<S> {
    run.(calls := calls + run.calls)
  }

  lemma PrependStep<S>(calls: seq<Call>, call: Call, rest: Run<S>)
    ensures Prepend(calls, Prepend([call], rest)) == Prepend(calls + [call], rest)
  {
  }

  /** One round and the rest of the loop. */
  lemma AccessStep<S>(m: seq<Region>, count: nat, addr: u64, f: Callback<S>, s: S, cur: u64, total: nat)
    ensures var p := Round(m, count, addr, f, s, cur, total);
            Access(m, count, addr, f, s, cur, total)
            == if p.Stop? then p.run else Prepend([p.call], Access(m, count, addr, f, p.state, p.cur, p.total))
  {
  }

  /** `GuestMemory::try_access`, for any callback. */
  method TryAccess<S>(m: seq<Region>, count: nat, addr: u64, f: Callback<S>, s0: S) returns (run: Run<S>)
    requires ValidMap(m)
    ensures run == AccessAll(m, count, addr, f, s0)
  {
    var cur, total, s := addr, 0, s0;
    var calls: seq<Call> := [];
    var region := FindRegion(m, cur);
    while region.Some?
      invariant region == Lookup(m, cur)
      invariant AccessAll(m, count, addr, f, s0) == Prepend(calls, Access(m, count, addr, f, s, cur, total))
      decreases Remaining(count, total)
    {
      var start := ToRegionAddr(region.value, cur).value;
      var cap := region.value.len - start;
      if total > count {
        return Prepend(calls, Run(s, Panic, []));
      }
      var len := Min(cap, count - total);
      var call := Call(total, len, start, region.value, 0);
      var (s', answer) := f(s, total, len, start, region.value);
      assert call == Offer(count, cur, total, region.value);
      assert (s', answer) == Ask(f, s, call);
      var progress := Continue(count, cur, call, s', answer);
      assert progress == Round(m, count, addr, f, s, cur, total);
      match progress
      case Stop(last) =>
        return Prepend(calls, last);
      case More(_, next, more, done) =>
        PrependStep(calls, done, Access(m, count, addr, f, s', next, more));
        s, cur, total, calls := s', next, more, calls + [done];
        region := FindRegion(m, cur);
    }
    return Prepend(calls, Run(s, if total == 0 then Err(InvalidGuestAddress(addr)) else Ok(total), []));
  }

  // ---------------------------------------------------------------------------------------------
  // Tiling: the shape of the calls, for every callback
  // ---------------------------------------------------------------------------------------------

  predicate GoodCall(m: seq<Region>, count: nat, addr: u64, c: Call) {
    && c.region in m
    && c.region.base + c.start == addr + c.offset
    && c.start < c.region.len
    && c.offset <= count
    && c.len == Min(c.region.len - c.start, count - c.offset)
    && c.got <= c.len
  }

  /** The calls after `total` bytes: each piece begins where the previous one stopped, and the last one
      was declined, failed, completed the count, or was followed by an unmapped address. */
  ghost predicate Tiled(m: seq<Region>, count: nat, addr: u64, total: nat, calls: seq<Call>,
                        result: Outcome<nat, Error>)
    decreases |calls|
  {
    if calls == [] then
      !Mapped(m, addr + total) && (result.Ok? ==> result.value == total)
    else
      var c := calls[0];
      && GoodCall(m, count, addr, c)
      && c.offset == total
      && if |calls| == 1 && (!result.Ok? || c.got == 0 || total + c.got == count) then
           result.Ok? ==> result.value == total + c.got
         else
           && 0 < c.got && total + c.got < count
           && Tiled(m, count, addr, total + c.got, calls[1..], result)
  }

  /** On a valid map a bounded callback reaches neither the wrap to zero nor the overflow panic. */
  lemma AdvanceInside(m: seq<Region>, cur: u64, n: nat)
    requires ValidMap(m) && Mapped(m, cur)
    requires var r := Lookup(m, cur).value; 0 < n <= r.len - (cur - r.base)
    ensures !OverflowingAdd(cur, n).1 && OverflowingAdd(cur, n).0 != 0
    ensures Advance(cur, n) == Some(cur + n)
  {
  }

  lemma ContinueTiles<S>(m: seq<Region>, count: nat, addr: u64, call: Call, s: S, answer: Outcome<nat, Error>)
    requires ValidMap(m) && GoodCall(m, count, addr, call) && call.got == 0
    requires addr + call.offset < U64_LIMIT && Lookup(m, addr + call.offset) == Some(call.region)
    requires answer.Ok? ==> answer.value <= call.len
    ensures var p := Continue(count, addr + call.offset, call, s, answer);
            && (p.Stop? ==> Tiled(m, count, addr, call.offset, p.run.calls, p.run.result))
            && (p.Stop? ==> (p.run.result.Panic? <==> answer.Panic?))
            && (p.More? ==> p.cur == addr + p.total && p.call == call.(got := p.total - call.offset) && p.total < count)
            && (p.More? ==> GoodCall(m, count, addr, p.call))
  {
  }

  lemma RoundTiles<S(!new)>(m: seq<Region>, count: nat, addr: u64, f: Callback<S>, s: S, total: nat)
    requires ValidMap(m) && WithinPiece(f)
    requires total <= count && addr + total < U64_LIMIT
    ensures var p := Round(m, count, addr, f, s, addr + total, total);
            && (p.Stop? ==> GoodRun(m, count, addr, f, total, p.run))
            && (p.More? ==> p.cur == addr + p.total && p.total < count && GoodCall(m, count, addr, p.call))
            && (p.More? ==> p.call.offset == total && p.call.got == p.total - total)
  {
    if Mapped(m, addr + total) {
      var call := Offer(count, addr + total, total, Lookup(m, addr + total).value);
      var (s', answer) := Ask(f, s, call);
      ContinueTiles(m, count, addr, call, s', answer);
    }
  }

  /** The run from `total` on is tiled, and panics only if its callback can. */
  ghost predicate GoodRun<S(!new)>(m: seq<Region>, count: nat, addr: u64, f: Callback<S>, total: nat, run: Run<S>) {
    Tiled(m, count, addr, total, run.calls, run.result) && (NeverPanics(f) ==> !run.result.Panic?)
  }

  lemma GoodRunCons<S(!new)>(m: seq<Region>, count: nat, addr: u64, f: Callback<S>, call: Call, rest: Run<S>)
    requires GoodCall(m, count, addr, call) && 0 < call.got && call.offset + call.got < count
    requires GoodRun(m, count, addr, f, call.offset + call.got, rest)
    ensures GoodRun(m, count, addr, f, call.offset, Prepend([call], rest))
  {
    assert ([call] + rest.calls)[1..] == rest.calls;
  }

  lemma TilesStep<S(!new)>(m: seq<Region>, count: nat, addr: u64, f: Callback<S>, s: S, cur: u64, total: nat,
                           p: Progress<S>)
    requires p == Round(m, count, addr, f, s, cur, total)
    requires p.Stop? ==> GoodRun(m, count, addr, f, total, p.run)
    requires p.More? ==> GoodCall(m, count, addr, p.call) && p.call.offset == total && p.call.got == p.total - total
    requires p.More? ==> p.total < count
    requires p.More? ==> GoodRun(m, count, addr, f, p.total, Access(m, count, addr, f, p.state, p.cur, p.total))
    ensures GoodRun(m, count, addr, f, total, Access(m, count, addr, f, s, cur, total))
  {
    AccessStep(m, count, addr, f, s, cur, total);
    if p.More? {
      GoodRunCons(m, count, addr, f, p.call, Access(m, count, addr, f, p.state, p.cur, p.total));
    }
  }

  /** Consecutive pieces, each inside one region, whose consumed parts add up to the result; the run ends
      at the count, at a piece the callback declined, or at the first unmapped address; and on a valid map
      the loop itself never panics. At `total == 0` this is the whole access. */
  lemma {:induction false} Tiling<S(!new)>(m: seq<Region>, count: nat, addr: u64, f: Callback<S>, s: S,
                                           cur: u64, total: nat)
    requires ValidMap(m) && WithinPiece(f)
    requires total <= count && cur == addr + total
    ensures GoodRun(m, count, addr, f, total, Access(m, count, addr, f, s, cur, total))
    decreases count - total
  {
    var p := Round(m, count, addr, f, s, cur, total);
    RoundTiles(m, count, addr, f, s, total);
    if p.More? {
      Tiling(m, count, addr, f, p.state, p.cur, p.total);
    }
    TilesStep(m, count, addr, f, s, cur, total, p);
  }

  /** An unmapped start is refused before the callback is ever called. */
  lemma UnmappedStart<S>(m: seq<Region>, count: nat, addr: u64, f: Callback<S>, s: S)
    ensures AccessAll(m, count, addr, f, s).calls == [] <==> !Mapped(m, addr)
    ensures !Mapped(m, addr) ==> AccessAll(m, count, addr, f, s) == Run(s, Err(InvalidGuestAddress(addr)), [])
  {
  }

  predicate Covers(c: Call, k: nat) {
    c.offset <= k < c.offset + c.got
  }

  lemma {:induction false} OffsetsGrow(m: seq<Region>, count: nat, addr: u64, total: nat, calls: seq<Call>,
                                       result: Outcome<nat, Error>)
    requires Tiled(m, count, addr, total, calls, result)
    ensures forall i :: 0 <= i < |calls| ==> calls[i].offset >= total
    decreases |calls|
  {
    if |calls| > 1 {
      OffsetsGrow(m, count, addr, total + calls[0].got, calls[1..], result);
      assert forall i :: 1 <= i < |calls| ==> calls[i] == calls[1..][i - 1];
    }
  }

  /** Every byte of the result is mapped and consumed by exactly one call. */
  lemma {:induction false} TilesExactly(m: seq<Region>, count: nat, addr: u64, total: nat, calls: seq<Call>,
                                        result: Outcome<nat, Error>, k: nat) returns (i: nat)
    requires ValidMap(m) && Tiled(m, count, addr, total, calls, result)
    requires result.Ok? && total <= k < result.value
    ensures i < |calls| && Covers(calls[i], k)
    ensures forall j :: 0 <= j < |calls| && Covers(calls[j], k) ==> j == i
    ensures Mapped(m, addr + k)
    decreases |calls|
  {
    var c := calls[0];
    assert forall j :: 1 <= j < |calls| ==> calls[j] == calls[1..][j - 1];
    if k < total + c.got {
      i := 0;
      LookupHit(m, c.region, addr + k);
      if |calls| > 1 {
        OffsetsGrow(m, count, addr, total + c.got, calls[1..], result);
      }
    } else {
      var rest := TilesExactly(m, count, addr, total + c.got, calls[1..], result, k);
      i := rest + 1;
    }
  }

  // ---------------------------------------------------------------------------------------------
  // The loop rule: what a callback keeps at every reachable call holds of the whole access
  // ---------------------------------------------------------------------------------------------

  /** The arguments `try_access` can pass after `o` bytes; it makes no call once the count is reached. */
  predicate Reachable(m: seq<Region>, count: nat, addr: u64, o: nat, l: nat, a: nat, r: Region) {
    && (o == 0 || o < count)
    && Lookup(m, addr + o) == Some(r)
    && a == addr + o - r.base
    && l == Min(r.len - a, count - o)
  }

  /** `inv` after progress, `idle` when the callback declines, `failed` on its error. */
  predicate GoodAnswer<S>(answer: (S, Outcome<nat, Error>), o: nat, l: nat,
                          inv: (S, nat) -> bool, idle: (S, nat) -> bool, failed: (S, Error) -> bool) {
    match answer.1
    case Ok(n) => n <= l && if n == 0 then idle(answer.0, o) else inv(answer.0, o + n)
    case Err(e) => failed(answer.0, e)
    case Panic => false
  }

  ghost predicate StepKeeps<S(!new)>(m: seq<Region>, count: nat, addr: u64, f: Callback<S>,
                                     inv: (S, nat) -> bool, idle: (S, nat) -> bool, failed: (S, Error) -> bool) {
    forall s, o: nat, l: nat, a: nat, r ::
      Reachable(m, count, addr, o, l, a, r) && inv(s, o) ==> GoodAnswer(f(s, o, l, a, r), o, l, inv, idle, failed)
  }

  /** `k` is the length of the mapped run from `addr`, cut at `count`. */
  predicate IsRun(m: seq<Region>, addr: int, count: nat, k: nat) {
    && k <= count
    && (forall i :: addr <= i < addr + k ==> Mapped(m, i))
    && (k == count || !Mapped(m, addr + k))
  }

  ghost predicate Delivers<S(!new)>(m: seq<Region>, count: nat, addr: u64, s: S, total: nat, run: Run<S>,
                                    inv: (S, nat) -> bool, idle: (S, nat) -> bool, failed: (S, Error) -> bool) {
    match run.result
    case Ok(t) =>
      && total <= t <= count
      && (forall i :: addr + total <= i < addr + t ==> Mapped(m, i))
      && (idle(run.state, t) || (0 < t && inv(run.state, t) && (t == count || !Mapped(m, addr + t))))
    case Err(e) =>
      || failed(run.state, e)
      || (total == 0 && !Mapped(m, addr) && run.state == s && e == InvalidGuestAddress(addr))
    case Panic => false
  }

  lemma PieceMapped(m: seq<Region>, r: Region, cur: u64, n: nat)
    requires ValidMap(m) && Lookup(m, cur) == Some(r) && cur + n <= r.base + r.len
    ensures forall i :: cur <= i < cur + n ==> Mapped(m, i)
  {
    forall i | cur <= i < cur + n
      ensures Mapped(m, i)
    {
      LookupHit(m, r, i);
    }
  }

  /** The round ended the run well, or left it at the next address with the invariant. */
  ghost predicate RoundGood<S(!new)>(m: seq<Region>, count: nat, addr: u64, s: S, total: nat, p: Progress<S>,
                                     inv: (S, nat) -> bool, idle: (S, nat) -> bool, failed: (S, Error) -> bool) {
    && (p.Stop? ==> Delivers(m, count, addr, s, total, p.run, inv, idle, failed))
    && (p.More? ==> p.cur == addr + p.total && total < p.total < count && inv(p.state, p.total))
    && (p.More? ==> forall i :: addr + total <= i < addr + p.total ==> Mapped(m, i))
  }

  lemma ContinueKeeps<S(!new)>(m: seq<Region>, count: nat, addr: u64, s: S, call: Call,
                               answer: (S, Outcome<nat, Error>),
                               inv: (S, nat) -> bool, idle: (S, nat) -> bool, failed: (S, Error) -> bool)
    requires ValidMap(m) && addr + call.offset < U64_LIMIT && call.offset + call.len <= count
    requires Lookup(m, addr + call.offset) == Some(call.region)
    requires addr + call.offset + call.len <= call.region.base + call.region.len
    requires GoodAnswer(answer, call.offset, call.len, inv, idle, failed)
    ensures RoundGood(m, count, addr, s, call.offset, Continue(count, addr + call.offset, call, answer.0, answer.1),
                      inv, idle, failed)
  {
    if answer.1.Ok? && answer.1.value > 0 {
      AdvanceInside(m, addr + call.offset, answer.1.value);
      PieceMapped(m, call.region, addr + call.offset, answer.1.value);
    }
  }

  lemma HoleKeeps<S(!new)>(m: seq<Region>, count: nat, addr: u64, f: Callback<S>, s: S, total: nat,
                           inv: (S, nat) -> bool, idle: (S, nat) -> bool, failed: (S, Error) -> bool)
    requires (total == 0 || total < count) && addr + total < U64_LIMIT && !Mapped(m, addr + total) && inv(s, total)
    ensures RoundGood(m, count, addr, s, total, Round(m, count, addr, f, s, addr + total, total), inv, idle, failed)
  {
  }

  lemma RoundKeeps<S(!new)>(m: seq<Region>, count: nat, addr: u64, f: Callback<S>, s: S, total: nat,
                            inv: (S, nat) -> bool, idle: (S, nat) -> bool, failed: (S, Error) -> bool)
    requires ValidMap(m) && (total == 0 || total < count) && addr + total < U64_LIMIT
    requires StepKeeps(m, count, addr, f, inv, idle, failed) && inv(s, total)
    ensures RoundGood(m, count, addr, s, total, Round(m, count, addr, f, s, addr + total, total), inv, idle, failed)
  {
    var cur: u64 := addr + total;
    if Mapped(m, cur) {
      var r := Lookup(m, cur).value;
      var call := Offer(count, cur, total, r);
      assert Reachable(m, count, addr, total, call.len, call.start, r);
      ContinueKeeps(m, count, addr, s, call, Ask(f, s, call), inv, idle, failed);
    } else {
      HoleKeeps(m, count, addr, f, s, total, inv, idle, failed);
    }
  }

  lemma DeliversCons<S(!new)>(m: seq<Region>, count: nat, addr: u64, s: S, s': S, total: nat, total': nat, call: Call,
                              rest: Run<S>,
                              inv: (S, nat) -> bool, idle: (S, nat) -> bool, failed: (S, Error) -> bool)
    requires total < total' && forall i :: addr + total <= i < addr + total' ==> Mapped(m, i)
    requires Delivers(m, count, addr, s', total', rest, inv, idle, failed)
    ensures Delivers(m, count, addr, s, total, Prepend([call], rest), inv, idle, failed)
  {
  }

  lemma DeliversStep<S(!new)>(m: seq<Region>, count: nat, addr: u64, f: Callback<S>, s: S, cur: u64, total: nat,
                              p: Progress<S>,
                              inv: (S, nat) -> bool, idle: (S, nat) -> bool, failed: (S, Error) -> bool)
    requires p == Round(m, count, addr, f, s, cur, total)
    requires RoundGood(m, count, addr, s, total, p, inv, idle, failed)
    requires p.More? ==> Delivers(m, count, addr, p.state, p.total, Access(m, count, addr, f, p.state, p.cur, p.total),
                                  inv, idle, failed)
    ensures Delivers(m, count, addr, s, total, Access(m, count, addr, f, s, cur, total), inv, idle, failed)
  {
    AccessStep(m, count, addr, f, s, cur, total);
    if p.More? {
      var rest := Access(m, count, addr, f, p.state, p.cur, p.total);
      DeliversCons(m, count, addr, s, p.state, total, p.total, p.call, rest, inv, idle, failed);
    }
  }

  /** What the callback keeps at every call it can receive holds of the whole access. */
  lemma {:induction false} AccessRule<S(!new)>(m: seq<Region>, count: nat, addr: u64, f: Callback<S>, s: S,
                                               cur: u64, total: nat,
                                               inv: (S, nat) -> bool, idle: (S, nat) -> bool,
                                               failed: (S, Error) -> bool)
    requires ValidMap(m) && (total == 0 || total < count) && cur == addr + total
    requires StepKeeps(m, count, addr, f, inv, idle, failed) && inv(s, total)
    ensures Delivers(m, count, addr, s, total, Access(m, count, addr, f, s, cur, total), inv, idle, failed)
    decreases count - total
  {
    RoundKeeps(m, count, addr, f, s, total, inv, idle, failed);
    var p := Round(m, count, addr, f, s, cur, total);
    if p.More? {
      AccessRule(m, count, addr, f, p.state, p.cur, p.total, inv, idle, failed);
    }
    DeliversStep(m, count, addr, f, s, cur, total, p, inv, idle, failed);
  }

  // ---------------------------------------------------------------------------------------------
  // Pieces
  // ---------------------------------------------------------------------------------------------

  /** How far the access that has done `o` bytes can go inside one region. */
  function PieceLen(m: seq<Region>, count: nat, addr: int, o: nat): nat
    requires o <= count && Mapped(m, addr + o)
  {
    var r := Lookup(m, addr + o).value;
    Min(r.base + r.len - (addr + o), count - o)
  }

  /** A piece of the access starts after `o` bytes: at the beginning, or where a region starts. */
  predicate PieceStart(m: seq<Region>, addr: int, o: nat) {
    o == 0 || (Mapped(m, addr + o) ==> Lookup(m, addr + o).value.base == addr + o)
  }

  /** What is mapped right behind a region is the start of another one. */
  lemma StartsBehind(m: seq<Region>, r: Region, x: int)
    requires ValidMap(m) && r in m && x == r.base + r.len && Mapped(m, x)
    ensures Lookup(m, x).value.base == x
  {
    var s := Lookup(m, x).value;
    var i :| 0 <= i < |m| && m[i] == r;
    var j :| 0 <= j < |m| && m[j] == s;
    assert i < j ==> LastAddr(m[i]) < m[j].base;
  }

  lemma ReachablePiece(m: seq<Region>, count: nat, addr: u64, o: nat, l: nat, a: nat, r: Region)
    requires ValidMap(m) && Reachable(m, count, addr, o, l, a, r)
    ensures o + l <= count && (l == 0 ==> o == count) && Mapped(m, addr + o) && l == PieceLen(m, count, addr, o)
    ensures o + l == count || PieceStart(m, addr, o + l)
  {
    if o + l < count && Mapped(m, addr + o + l) {
      StartsBehind(m, r, addr + o + l);
    }
  }

  // ---------------------------------------------------------------------------------------------
  // A callback that reports too much
  // ---------------------------------------------------------------------------------------------

  /** When the callback reports more than was left, the run ends at once: with the inflated count if the address
      it leads to is not mapped, and with a panic if it is, or if the count or the address overflows. */
  lemma OverrunEnds<S>(m: seq<Region>, count: nat, addr: u64, f: Callback<S>, s: S, cur: u64, total: nat)
    requires Mapped(m, cur) && total <= count
    requires var answer := Ask(f, s, Offer(count, cur, total, Lookup(m, cur).value)).1;
             answer.Ok? && answer.value > count - total
    ensures var n := Ask(f, s, Offer(count, cur, total, Lookup(m, cur).value)).1.value;
            Access(m, count, addr, f, s, cur, total).result
            == if || total + n >= U64_LIMIT || cur + n > U64_LIMIT
                  || Mapped(m, if cur + n == U64_LIMIT then 0 else cur + n) then Panic
               else Ok(total + n)
  {
    var call := Offer(count, cur, total, Lookup(m, cur).value);
    var n := Ask(f, s, call).1.value;
    if total + n < U64_LIMIT {
      assert cur + n < U64_LIMIT ==> Advance(cur, n) == Some(cur + n);
      assert cur + n == U64_LIMIT ==> Advance(cur, n) == Some(0);
    }
  }

  // ---------------------------------------------------------------------------------------------
  // check_range
  // ---------------------------------------------------------------------------------------------

  const ACCEPT: Callback<()> := (s, o, l, a, r) => (s, Ok(l))

  lemma AcceptRuns(m: seq<Region>, base: u64, len: nat)
    requires ValidMap(m)
    ensures var result := AccessAll(m, len, base, ACCEPT, ()).result;
            if Mapped(m, base) then result.Ok? && IsRun(m, base, len, result.value)
            else result == Err(InvalidGuestAddress(base))
  {
    var inv := (s: (), o: nat) => true;
    var idle := (s: (), o: nat) => o == len;
    var failed := (s: (), e: Error) => false;
    AccessRule(m, len, base, ACCEPT, (), base, 0, inv, idle, failed);
    UnmappedStart(m, len, base, ACCEPT, ());
  }

  /** `GuestMemory::check_range`: exact, for an empty range and across any number of regions. */
  method CheckRange(m: seq<Region>, base: u64, len: nat) returns (ok: bool)
    requires ValidMap(m)
    ensures ok <==> Mapped(m, base) && forall a :: base <= a < base + len ==> Mapped(m, a)
  {
    AcceptRuns(m, base, len);
    var run := TryAccess(m, len, base, ACCEPT, ());
    match run.result
    case Ok(count) => ok := count == len;
    case Err(_) => ok := false;
  }
}
