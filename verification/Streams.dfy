/**
 * Streaming between guest memory and a reader or writer: `read_from` and `write_to` of the blanket
 * `Bytes<GuestAddress>` (src/guest_memory.rs), through regions that offer no slice, in chunks of 4096.
 */
module Streams {
  import opened Words
  import opened RegionMap
  import opened RemoteMem
  import opened SpanAccess
  import opened FlatMemory

  const MAX_ACCESS_CHUNK: nat := 4096

  /** How a reader or writer behaves at its `turn`-th call about some number of bytes. For a reader: it fails
      (`None`) or is willing to hand out at most that many. For a writer: it takes everything (`None`) or fails
      after that many. */
  type Schedule = (nat, nat) -> Option<nat>

  /** The most that one turn of a stream moves after `o` bytes: one chunk, inside one region, up to the count. */
  function ChunkLen(m: seq<Region>, count: nat, addr: int, o: nat): nat
    requires o <= count && Mapped(m, addr + o)
  {
    Min(PieceLen(m, count, addr, o), MAX_ACCESS_CHUNK)
  }

  /** The guest range `[at, at + n)` lies in region `r` from offset `a` on, at consecutive remote addresses. */
  ghost predicate PieceIn(m: seq<Region>, at: int, n: nat, a: nat, r: Region) {
    Mapped(m, at) && HostOf(m, at) == r.host + a && HostContiguous(m, at, n) && a < r.len
  }

  lemma PieceShape(m: seq<Region>, count: nat, addr: u64, o: nat, l: nat, a: nat, r: Region, n: nat)
    requires ValidMap(m) && Reachable(m, count, addr, o, l, a, r) && n <= l
    ensures PieceIn(m, addr + o, n, a, r) && o + l <= count && (l == 0 ==> o == count)
    ensures Min(l, MAX_ACCESS_CHUNK) == ChunkLen(m, count, addr, o)
  {
    OneRegionContiguous(m, addr + o, n);
    ReachablePiece(m, count, addr, o, l, a, r);
  }

  // ---------------------------------------------------------------------------------------------
  // read_from
  // ---------------------------------------------------------------------------------------------

  /** One call of `read_from`: where to, how much, the remote memory, and the reader with its data, of which `pos`
      bytes are gone. */
  datatype Job = Job(m: seq<Region>, addr: u64, count: nat, mem: Memory, data: seq<byte>, pos: nat, sched: Schedule)

  /** One call of the reader: its position, how much it was asked for, and what it handed out, unless it failed. */
  datatype Turn = Turn(at: nat, asked: nat, got: Option<nat>)

  /** The remote memory together with the reader: how much of its data is taken and the calls it has answered. */
  datatype Feed = Feed(mem: Memory, pos: nat, log: seq<Turn>)

  function Start(j: Job): Feed {
    Feed(j.mem, j.pos, [])
  }

  /** What the reader hands out at its `turn`-th call; zero for a non-empty request reports the end of the source. */
  function HandsOut(j: Job, turn: nat, at: nat, asked: nat): Option<nat>
    requires at <= |j.data|
  {
    match j.sched(turn, asked)
    case None => None
    case Some(k) => Some(Min(k, Min(asked, |j.data| - at)))
  }

  /** The reader answers a request and keeps the record of it. */
  function Pull(j: Job, s: Feed, asked: nat): (Feed, Option<nat>)
    requires s.pos <= |j.data|
  {
    var got := HandsOut(j, |s.log|, s.pos, asked);
    (Feed(s.mem, s.pos + (if got.Some? then got.value else 0), s.log + [Turn(s.pos, asked, got)]), got)
  }

  /** The region's answer to the write of `n` bytes: an error is passed on, a short write fails the assertion. */
  function Settle(s: Feed, n: nat, written: (Memory, Outcome<nat, Error>)): (Feed, Outcome<nat, Error>) {
    match written.1
    case Err(e) => (s, Err(e))
    case Panic => (s, Panic)
    case Ok(w) => (s.(mem := written.0), if w == n then Ok(n) else Panic)
  }

  /** What follows the reader's answer: an error is passed on, and what was read at `pos` goes to the region. */
  function Reply(j: Job, pos: nat, s: Feed, got: Option<nat>, a: nat, r: Region): (Feed, Outcome<nat, Error>)
    requires got.Some? ==> pos + got.value <= |j.data|
  {
    match got
    case None => (s, Err(IOError))
    case Some(n) =>
      if a >= r.len then (s, Err(InvalidGuestAddress(a)))
      else Settle(s, n, Transfer(s.mem, r.host + a, j.data, pos, n))
  }

  /** One piece of `read_from`: read a chunk from the source, then write it to the region. The first guard is the
      assertion on the offset; a position past the data does not arise. */
  function FeedPiece(j: Job, s: Feed, o: nat, l: nat, a: nat, r: Region): (Feed, Outcome<nat, Error>) {
    if o > j.count || s.pos > |j.data| then (s, Panic)
    else
      var (s', got) := Pull(j, s, Min(l, MAX_ACCESS_CHUNK));
      Reply(j, s.pos, s', got, a, r)
  }

  function FeedClosure(j: Job): Callback<Feed> {
    (s: Feed, o: nat, l: nat, a: nat, r: Region) => FeedPiece(j, s, o, l, a, r)
  }

  function ReadFromRun(j: Job): Run<Feed> {
    AccessAll(j.m, j.count, j.addr, FeedClosure(j), Start(j))
  }

  /** The next `o` bytes of the source are what was stored from `addr` on, byte by byte, and nothing else changed. */
  ghost predicate StoredUpTo(j: Job, mem: Memory, o: nat) {
    && j.pos + o <= |j.data|
    && Hosted(j.m, j.mem, j.addr, o)
    && mem == WriteEach(j.m, j.mem, j.addr, j.data, j.pos, o)
  }

  /** Exactly the bytes taken are stored. */
  ghost predicate Stored(j: Job, s: Feed, o: nat) {
    s.pos == j.pos + o && StoredUpTo(j, s.mem, o)
  }

  /** The position that the first `n` turns leave the reader at. */
  function EndPos(j: Job, log: seq<Turn>, n: nat): nat
    requires n <= |log|
  {
    if n == 0 then j.pos else log[n - 1].at + (if log[n - 1].got.Some? then log[n - 1].got.value else 0)
  }

  /** Turn `i` follows the one before; it asks for the next chunk, and before the count; and what was handed out is
      what the reader hands out there. */
  ghost predicate TurnTrue(j: Job, log: seq<Turn>, i: nat)
    requires i < |log|
  {
    var e := log[i];
    var o := e.at - j.pos;
    && e.at == EndPos(j, log, i) && j.pos <= e.at <= |j.data|
    && o <= j.count && (i > 0 ==> o < j.count) && Mapped(j.m, j.addr + o)
    && e.asked == ChunkLen(j.m, j.count, j.addr, o)
    && e.got == HandsOut(j, i, e.at, e.asked)
  }

  predicate Gave(e: Turn) {
    e.got.Some? && e.got.value > 0
  }

  /** The whole dialogue with the reader; every turn but the last one gave something. */
  ghost predicate Dialogue(j: Job, s: Feed) {
    && (forall i :: 0 <= i < |s.log| ==> TurnTrue(j, s.log, i))
    && (forall i :: 0 <= i < |s.log| - 1 ==> Gave(s.log[i]))
    && s.pos == EndPos(j, s.log, |s.log|) && j.pos <= s.pos <= |j.data|
  }

  /** What is known of memory after some bytes. The dialogue with the reader is proved for any such relation that
      transfers keep, and used with `StoredPred`. */
  type Rel = (Memory, nat) -> bool

  ghost function StoredPred(j: Job): Rel {
    (mem: Memory, o: nat) => StoredUpTo(j, mem, o)
  }

  ghost predicate Underway(j: Job, rel: Rel, s: Feed, o: nat) {
    && Dialogue(j, s) && s.pos == j.pos + o && rel(s.mem, o)
    && (s.log == [] || Gave(s.log[|s.log| - 1]))
  }

  /** The reader has just handed out nothing. */
  ghost predicate Dried(j: Job, rel: Rel, s: Feed, o: nat) {
    && Dialogue(j, s) && s.pos == j.pos + o && rel(s.mem, o)
    && s.log != [] && s.log[|s.log| - 1].got == Some(0)
  }

  /** The reader has just failed; all it handed out before is stored. */
  ghost predicate ReaderFailed(j: Job, rel: Rel, s: Feed) {
    && Dialogue(j, s) && s.log != [] && s.log[|s.log| - 1].got == None
    && rel(s.mem, s.pos - j.pos)
  }

  /** The last chunk was taken from the reader and met a byte that cannot be accessed; all before it is stored. */
  ghost predicate ChunkLost(j: Job, rel: Rel, s: Feed) {
    && Dialogue(j, s) && s.log != []
    && var last := s.log[|s.log| - 1];
    && Gave(last) && last.asked <= MAX_ACCESS_CHUNK && j.pos <= last.at && rel(s.mem, last.at - j.pos)
    && !Hosted(j.m, j.mem, j.addr, s.pos - j.pos) && Broken(j.m, j.mem, j.addr, j.count)
  }

  ghost function FeedInv(j: Job, rel: Rel): (Feed, nat) -> bool {
    (s: Feed, o: nat) => Underway(j, rel, s, o)
  }

  ghost function FeedIdle(j: Job, rel: Rel): (Feed, nat) -> bool {
    (s: Feed, o: nat) => Dried(j, rel, s, o)
  }

  ghost function FeedFailed(j: Job, rel: Rel): (Feed, Error) -> bool {
    (s: Feed, e: Error) =>
      (e == IOError && ReaderFailed(j, rel, s)) || (e == RemoteMemError(Rw) && ChunkLost(j, rel, s))
  }

  lemma TurnKept(j: Job, log: seq<Turn>, e: Turn, i: nat)
    requires i < |log| && TurnTrue(j, log, i)
    ensures TurnTrue(j, log + [e], i)
  {
    assert EndPos(j, log + [e], i) == EndPos(j, log, i);
  }

  /** A turn at the right place keeps the dialogue true. */
  lemma PullSpeaks(j: Job, s: Feed, o: nat)
    requires Dialogue(j, s) && (s.log == [] || Gave(s.log[|s.log| - 1])) && s.pos == j.pos + o
    requires (o == 0 || o < j.count) && Mapped(j.m, j.addr + o)
    ensures o <= j.count
    ensures var (s', got) := Pull(j, s, ChunkLen(j.m, j.count, j.addr, o));
            && Dialogue(j, s') && s'.mem == s.mem && |s'.log| == |s.log| + 1
            && s'.log[|s.log|] == Turn(s.pos, ChunkLen(j.m, j.count, j.addr, o), got)
            && (got.None? ==> s'.pos == s.pos)
            && (got.Some? ==> s'.pos == s.pos + got.value && got.value <= ChunkLen(j.m, j.count, j.addr, o))
  {
    var s' := Pull(j, s, ChunkLen(j.m, j.count, j.addr, o)).0;
    var n := |s.log|;
    assert n > 0 ==> TurnTrue(j, s.log, n - 1);
    forall i | 0 <= i < |s'.log|
      ensures TurnTrue(j, s'.log, i)
    {
      if i < n {
        TurnKept(j, s.log, s'.log[n], i);
      }
    }
    forall i | 0 <= i < |s'.log| - 1
      ensures Gave(s'.log[i])
    {
      assert s'.log[i] == s.log[i];
    }
  }

  lemma StillAccessible(j: Job, mem: Memory, o: nat, at: int, n: nat)
    requires StoredUpTo(j, mem, o)
    ensures Accessible(mem, at, n) <==> Accessible(j.mem, at, n)
  {
  }

  /** A chunk that can be written is stored next to the ones before it. */
  lemma StoredMore(j: Job, mem: Memory, o: nat, n: nat)
    requires StoredUpTo(j, mem, o) && j.pos + o + n <= |j.data|
    requires Mapped(j.m, j.addr + o) && HostContiguous(j.m, j.addr + o, n)
    requires Accessible(j.mem, HostOf(j.m, j.addr + o), n)
    ensures StoredUpTo(j, WriteFrom(mem, HostOf(j.m, j.addr + o), j.data, j.pos + o, n), o + n)
  {
    HostedMore(j.m, j.mem, j.addr, o, n);
    EachMore(j.m, j.mem, j.addr, j.data, j.pos, o, n);
  }

  lemma NotHosted(m: seq<Region>, mem: Memory, addr: int, o: nat, n: nat)
    requires Mapped(m, addr + o) && HostContiguous(m, addr + o, n) && !Accessible(mem, HostOf(m, addr + o), n)
    ensures n > 0 && !Hosted(m, mem, addr, o + n)
  {
    var at := HostOf(m, addr + o);
    var h :| at <= h < at + n && h !in mem;
    assert HostOf(m, addr + o + (h - at)) == h;
  }

  /** The transfer `t` of `n` bytes after `o` took what is known of memory further, or met an inaccessible byte. */
  ghost predicate Carried(j: Job, rel: Rel, mem: Memory, o: nat, n: nat, t: (Memory, Outcome<nat, Error>)) {
    || (t.1 == Ok(n) && rel(t.0, o + n))
    || (t.1 == Err(RemoteMemError(Rw)) && t.0 == mem && n > 0
        && !Hosted(j.m, j.mem, j.addr, o + n) && Broken(j.m, j.mem, j.addr, j.count))
  }

  ghost predicate TransferCarries(j: Job, rel: Rel, mem: Memory, o: nat, n: nat, at: int) {
    && rel(mem, o) && j.pos + o + n <= |j.data| && o + n <= j.count
    && Mapped(j.m, j.addr + o) && HostOf(j.m, j.addr + o) == at && HostContiguous(j.m, j.addr + o, n)
    ==> Carried(j, rel, mem, o, n, Transfer(mem, at, j.data, j.pos + o, n))
  }

  ghost predicate Carries(j: Job, rel: Rel) {
    forall mem, o: nat, n: nat, at :: TransferCarries(j, rel, mem, o, n, at)
  }

  lemma StoredStep(j: Job, mem: Memory, o: nat, n: nat, at: int)
    requires StoredUpTo(j, mem, o) && j.pos + o + n <= |j.data| && o + n <= j.count
    requires Mapped(j.m, j.addr + o) && HostOf(j.m, j.addr + o) == at && HostContiguous(j.m, j.addr + o, n)
    ensures Carried(j, StoredPred(j), mem, o, n, Transfer(mem, at, j.data, j.pos + o, n))
  {
    StillAccessible(j, mem, o, at, n);
    if Accessible(j.mem, at, n) {
      StoredMore(j, mem, o, n);
      assert StoredPred(j)(WriteFrom(mem, at, j.data, j.pos + o, n), o + n);
    } else {
      HostedMore(j.m, j.mem, j.addr, o, n);
      NotHosted(j.m, j.mem, j.addr, o, n);
    }
  }

  lemma StoredTransfer(j: Job, mem: Memory, o: nat, n: nat, at: int)
    ensures TransferCarries(j, StoredPred(j), mem, o, n, at)
  {
    if && StoredPred(j)(mem, o) && j.pos + o + n <= |j.data| && o + n <= j.count
       && Mapped(j.m, j.addr + o) && HostOf(j.m, j.addr + o) == at && HostContiguous(j.m, j.addr + o, n) {
      StoredStep(j, mem, o, n, at);
    }
  }

  lemma StoredCarries(j: Job)
    ensures Carries(j, StoredPred(j))
  {
    forall mem, o: nat, n: nat, at
      ensures TransferCarries(j, StoredPred(j), mem, o, n, at)
    {
      StoredTransfer(j, mem, o, n, at);
    }
  }

  /** The reader has answered the request for the chunk after `o` bytes. */
  ghost predicate Answered(j: Job, rel: Rel, s: Feed, o: nat, got: Option<nat>) {
    && Dialogue(j, s) && s.log != [] && rel(s.mem, o)
    && s.log[|s.log| - 1] == Turn(j.pos + o, s.log[|s.log| - 1].asked, got)
    && s.log[|s.log| - 1].asked <= MAX_ACCESS_CHUNK
    && s.pos == j.pos + o + (if got.Some? then got.value else 0)
  }

  lemma PullAnswered(j: Job, rel: Rel, s: Feed, o: nat)
    requires Underway(j, rel, s, o) && (o == 0 || o < j.count) && Mapped(j.m, j.addr + o)
    ensures o <= j.count
    ensures var (s', got) := Pull(j, s, ChunkLen(j.m, j.count, j.addr, o));
            Answered(j, rel, s', o, got) && (got.Some? ==> got.value <= ChunkLen(j.m, j.count, j.addr, o))
  {
    PullSpeaks(j, s, o);
  }

  lemma ReplyFails(j: Job, rel: Rel, s: Feed, o: nat, l: nat)
    requires Answered(j, rel, s, o, None)
    ensures GoodAnswer((s, Err(IOError)), o, l, FeedInv(j, rel), FeedIdle(j, rel), FeedFailed(j, rel))
  {
    assert ReaderFailed(j, rel, s);
    assert FeedFailed(j, rel)(s, IOError);
  }

  lemma ReplySettles(j: Job, rel: Rel, s: Feed, o: nat, n: nat, l: nat, t: (Memory, Outcome<nat, Error>))
    requires Answered(j, rel, s, o, Some(n)) && n <= l && Carried(j, rel, s.mem, o, n, t)
    ensures GoodAnswer(Settle(s, n, t), o, l, FeedInv(j, rel), FeedIdle(j, rel), FeedFailed(j, rel))
  {
    var c := Settle(s, n, t);
    if t.1.Ok? {
      assert n > 0 ==> FeedInv(j, rel)(c.0, o + n);
      assert n == 0 ==> FeedIdle(j, rel)(c.0, o);
    } else {
      assert ChunkLost(j, rel, s);
      assert FeedFailed(j, rel)(s, RemoteMemError(Rw));
    }
  }

  lemma ReplyGood(j: Job, rel: Rel, s: Feed, got: Option<nat>, o: nat, l: nat, a: nat, r: Region)
    requires Carries(j, rel) && Answered(j, rel, s, o, got) && o + l <= j.count && (got.Some? ==> got.value <= l)
    requires PieceIn(j.m, j.addr + o, l, a, r)
    ensures GoodAnswer(Reply(j, j.pos + o, s, got, a, r), o, l, FeedInv(j, rel), FeedIdle(j, rel), FeedFailed(j, rel))
  {
    match got
    case None => ReplyFails(j, rel, s, o, l);
    case Some(n) =>
      assert TransferCarries(j, rel, s.mem, o, n, r.host + a);
      ReplySettles(j, rel, s, o, n, l, Transfer(s.mem, r.host + a, j.data, j.pos + o, n));
  }

  lemma FeedGives(j: Job, rel: Rel, s: Feed, o: nat, l: nat, a: nat, r: Region)
    requires Carries(j, rel) && Underway(j, rel, s, o) && (o == 0 || o < j.count) && o + l <= j.count
    requires Mapped(j.m, j.addr + o) && Min(l, MAX_ACCESS_CHUNK) == ChunkLen(j.m, j.count, j.addr, o)
    requires PieceIn(j.m, j.addr + o, l, a, r)
    ensures GoodAnswer(FeedPiece(j, s, o, l, a, r), o, l, FeedInv(j, rel), FeedIdle(j, rel), FeedFailed(j, rel))
  {
    PullAnswered(j, rel, s, o);
    var (s', got) := Pull(j, s, Min(l, MAX_ACCESS_CHUNK));
    ReplyGood(j, rel, s', got, o, l, a, r);
  }

  lemma FeedKeeps(j: Job, rel: Rel)
    requires ValidMap(j.m) && Carries(j, rel)
    ensures StepKeeps(j.m, j.count, j.addr, FeedClosure(j), FeedInv(j, rel), FeedIdle(j, rel), FeedFailed(j, rel))
  {
    forall s, o: nat, l: nat, a: nat, r | Reachable(j.m, j.count, j.addr, o, l, a, r) && FeedInv(j, rel)(s, o)
      ensures GoodAnswer(FeedClosure(j)(s, o, l, a, r), o, l, FeedInv(j, rel), FeedIdle(j, rel), FeedFailed(j, rel))
    {
      PieceShape(j.m, j.count, j.addr, o, l, a, r, l);
      FeedGives(j, rel, s, o, l, a, r);
    }
  }

  lemma FeedRuns(j: Job, rel: Rel)
    requires ValidMap(j.m) && j.pos <= |j.data| && Carries(j, rel) && rel(j.mem, 0)
    ensures Delivers(j.m, j.count, j.addr, Start(j), 0, ReadFromRun(j),
                     FeedInv(j, rel), FeedIdle(j, rel), FeedFailed(j, rel))
  {
    FeedKeeps(j, rel);
    assert FeedInv(j, rel)(Start(j), 0);
    AccessRule(j.m, j.count, j.addr, FeedClosure(j), Start(j), j.addr, 0,
               FeedInv(j, rel), FeedIdle(j, rel), FeedFailed(j, rel));
  }

  /** What a call of `read_from` with the final state `s` and the result `r` must have done. The turn on which it
      stopped decides the result: a failure of the reader is the only source of `IOError`, a chunk that meets an
      inaccessible byte the only source of a remote error, and otherwise the call succeeds, at a turn that gave
      nothing, at the count, or before an unmapped address. */
  ghost predicate Accounts(j: Job, s: Feed, r: Outcome<nat, Error>) {
    if !Mapped(j.m, j.addr) then s == Start(j) && r == Err(InvalidGuestAddress(j.addr))
    else
      && s.log != [] && Dialogue(j, s)
      && var last := s.log[|s.log| - 1];
      if last.got.None? then
        r == Err(IOError) && Stored(j, s, s.pos - j.pos)
      else if !Hosted(j.m, j.mem, j.addr, s.pos - j.pos) then
        && r == Err(RemoteMemError(Rw)) && j.pos <= last.at && StoredUpTo(j, s.mem, last.at - j.pos)
        && s.pos - last.at <= MAX_ACCESS_CHUNK && Broken(j.m, j.mem, j.addr, j.count)
      else
        && r == Ok(s.pos - j.pos) && Stored(j, s, s.pos - j.pos) && s.pos - j.pos <= j.count
        && (last.got == Some(0) || s.pos - j.pos == j.count || !Mapped(j.m, j.addr + (s.pos - j.pos)))
  }

  /** For every behaviour of the reader: the bytes taken are the bytes stored, in order and contiguously from
      `addr`, but for the one chunk that an inaccessible byte can cost; the reader is asked chunk by chunk, the
      run goes on as long as it gives something, and its last answer decides the result. No assertion fails. */
  lemma ReadFromConserves(j: Job)
    requires ValidMap(j.m) && j.pos <= |j.data|
    ensures Accounts(j, ReadFromRun(j).state, ReadFromRun(j).result)
  {
    EachNone(j.m, j.mem, j.addr, j.data, j.pos);
    StoredCarries(j);
    FeedRuns(j, StoredPred(j));
    UnmappedStart(j.m, j.count, j.addr, FeedClosure(j), Start(j));
    var run := ReadFromRun(j);
    if Mapped(j.m, j.addr) {
      DeliveredAccounts(j, run);
    }
  }

  lemma DeliveredAccounts(j: Job, run: Run<Feed>)
    requires Mapped(j.m, j.addr)
    requires Delivers(j.m, j.count, j.addr, Start(j), 0, run,
                      FeedInv(j, StoredPred(j)), FeedIdle(j, StoredPred(j)), FeedFailed(j, StoredPred(j)))
    ensures Accounts(j, run.state, run.result)
  {
    var rel := StoredPred(j);
    match run.result
    case Ok(t) =>
      assert FeedIdle(j, rel)(run.state, t) || FeedInv(j, rel)(run.state, t);
      OkAccounts(j, run.state, t);
    case Err(e) =>
      assert FeedFailed(j, rel)(run.state, e);
      ErrAccounts(j, run.state, e);
  }

  lemma OkAccounts(j: Job, s: Feed, t: nat)
    requires Mapped(j.m, j.addr) && t <= j.count
    requires || Dried(j, StoredPred(j), s, t)
             || (0 < t && Underway(j, StoredPred(j), s, t) && (t == j.count || !Mapped(j.m, j.addr + t)))
    ensures Accounts(j, s, Ok(t))
  {
    assert StoredPred(j)(s.mem, t) ==> StoredUpTo(j, s.mem, t);
  }

  lemma ErrAccounts(j: Job, s: Feed, e: Error)
    requires Mapped(j.m, j.addr)
    requires || (e == IOError && ReaderFailed(j, StoredPred(j), s))
             || (e == RemoteMemError(Rw) && ChunkLost(j, StoredPred(j), s))
    ensures Accounts(j, s, Err(e))
  {
    assert TurnTrue(j, s.log, |s.log| - 1);
  }

  /** `IOError` means that the reader failed at the last turn of the run, and nothing else does. */
  lemma ReaderErrorExact(j: Job)
    requires ValidMap(j.m) && j.pos <= |j.data|
    ensures var run := ReadFromRun(j);
            && run.result == Err(IOError) <==>
                 && run.state.log != []
                 && j.sched(|run.state.log| - 1, run.state.log[|run.state.log| - 1].asked).None?
  {
    ReadFromConserves(j);
    var s := ReadFromRun(j).state;
    if s.log != [] {
      assert TurnTrue(j, s.log, |s.log| - 1);
    }
  }

  /** A reader that does not fail, a mapped start and accessible memory: the call succeeds. */
  lemma ReadFromSucceeds(j: Job)
    requires ValidMap(j.m) && j.pos <= |j.data| && Mapped(j.m, j.addr) && !Broken(j.m, j.mem, j.addr, j.count)
    requires forall i :: 0 <= i < |ReadFromRun(j).state.log| ==> j.sched(i, ReadFromRun(j).state.log[i].asked).Some?
    ensures ReadFromRun(j).result.Ok?
  {
    ReadFromConserves(j);
    var s := ReadFromRun(j).state;
    assert TurnTrue(j, s.log, |s.log| - 1);
  }

  /** When a successful call stops before the count and before a hole, the last request was not empty and got no byte:
      the reader gave none, or its data are exhausted. */
  lemma EndedExactly(j: Job)
    requires ValidMap(j.m) && j.pos <= |j.data| && ReadFromRun(j).result.Ok?
    ensures StopsDry(j, ReadFromRun(j).state, ReadFromRun(j).result.value)
  {
    ReadFromConserves(j);
    AccountsDry(j, ReadFromRun(j).state, ReadFromRun(j).result.value);
  }

  ghost predicate StopsDry(j: Job, s: Feed, t: nat) {
    t < j.count && Mapped(j.m, j.addr + t) ==>
      && s.log != [] && s.pos == j.pos + t
      && var last := s.log[|s.log| - 1];
      last.asked > 0 && (j.sched(|s.log| - 1, last.asked) == Some(0) || s.pos == |j.data|)
  }

  lemma AccountsDry(j: Job, s: Feed, t: nat)
    requires Accounts(j, s, Ok(t))
    ensures StopsDry(j, s, t)
  {
    if t < j.count && Mapped(j.m, j.addr + t) {
      assert TurnTrue(j, s.log, |s.log| - 1);
      ChunkPositive(j.m, j.count, j.addr, t);
    }
  }

  lemma ChunkPositive(m: seq<Region>, count: nat, addr: int, o: nat)
    requires o < count && Mapped(m, addr + o)
    ensures ChunkLen(m, count, addr, o) > 0
  {
  }

  /** The flat memory gained the `o` bytes of the source from `pos` on. */
  ghost predicate Gained(j: Job, mem: Memory, o: nat) {
    && j.pos + o <= |j.data|
    && (Unshared(j.m, j.addr, o) ==>
          Flat(j.m, mem) == WriteRange(Flat(j.m, j.mem), j.addr, j.data[j.pos..j.pos + o]))
  }

  lemma StoredIsFlat(j: Job, mem: Memory, o: nat)
    requires StoredUpTo(j, mem, o)
    ensures Gained(j, mem, o)
  {
    if Unshared(j.m, j.addr, o) {
      EachIsFlat(j.m, j.mem, j.addr, j.data, j.pos, o);
    }
  }

  /** How many bytes arrived in memory: all that were taken, or all but the last chunk. */
  function Kept(j: Job, s: Feed, r: Outcome<nat, Error>): int {
    if r == Err(RemoteMemError(Rw)) && s.log != [] then s.log[|s.log| - 1].at - j.pos else s.pos - j.pos
  }

  /** In terms of the flat memory: what is gone from the source is what the flat memory gained, but for at most one
      chunk when memory cannot be accessed. */
  ghost predicate Conserved(j: Job, s: Feed, r: Outcome<nat, Error>) {
    && j.pos <= s.pos <= |j.data| && 0 <= Kept(j, s, r) <= s.pos - j.pos <= Kept(j, s, r) + MAX_ACCESS_CHUNK
    && Gained(j, s.mem, Kept(j, s, r))
    && (Kept(j, s, r) < s.pos - j.pos ==> r == Err(RemoteMemError(Rw)) && Broken(j.m, j.mem, j.addr, j.count))
  }

  lemma AccountsConserve(j: Job, s: Feed, r: Outcome<nat, Error>)
    requires j.pos <= |j.data| && Accounts(j, s, r)
    ensures Conserved(j, s, r)
  {
    EachNone(j.m, j.mem, j.addr, j.data, j.pos);
    if s.log != [] {
      assert TurnTrue(j, s.log, |s.log| - 1);
    }
    StoredIsFlat(j, s.mem, Kept(j, s, r));
  }

  lemma ReadFromIsFlat(j: Job)
    requires ValidMap(j.m) && j.pos <= |j.data|
    ensures Conserved(j, ReadFromRun(j).state, ReadFromRun(j).result)
  {
    ReadFromConserves(j);
    AccountsConserve(j, ReadFromRun(j).state, ReadFromRun(j).result);
  }

  method RunFeed(j: Job) returns (run: Run<Feed>)
    requires ValidMap(j.m)
    ensures run == ReadFromRun(j)
  {
    run := TryAccess(j.m, j.count, j.addr, FeedClosure(j), Start(j));
  }

  /** `Bytes<GuestAddress>::read_from`: `end` is the reader's new position and `log` its part of the dialogue. */
  method ReadFrom(p: RemoteProcess, m: seq<Region>, addr: u64, data: seq<byte>, pos: nat, sched: Schedule, count: nat)
    returns (end: nat, log: seq<Turn>, r: Outcome<nat, Error>)
    requires ValidMap(m) && pos <= |data|
    modifies p
    ensures Accounts(Job(m, addr, count, old(p.mem), data, pos, sched), Feed(p.mem, end, log), r)
    ensures Conserved(Job(m, addr, count, old(p.mem), data, pos, sched), Feed(p.mem, end, log), r)
  {
    var j := Job(m, addr, count, p.mem, data, pos, sched);
    ReadFromConserves(j);
    ReadFromIsFlat(j);
    var run := RunFeed(j);
    end, log, r := run.state.pos, run.state.log, run.result;
    p.mem := run.state.mem;
    assert Feed(p.mem, end, log) == run.state;
  }

  // ---------------------------------------------------------------------------------------------
  // write_to
  // ---------------------------------------------------------------------------------------------

  /** One call of `write_to`: where from, how much, the remote memory, and the writer with what it already has. */
  datatype Task = Task(m: seq<Region>, addr: u64, count: nat, mem: Memory, sink: seq<byte>, sched: Schedule)

  /** One `write_all`: what the writer had, how much it was given, and after how many bytes it failed, if it did. */
  datatype Push = Push(at: nat, len: nat, failed: Option<nat>)

  datatype Drain = Drain(sink: seq<byte>, log: seq<Push>)

  function Begun(k: Task): Drain {
    Drain(k.sink, [])
  }

  /** The writer answers a `write_all` and keeps the record of it. */
  function Accept(k: Task, s: Drain, buf: seq<byte>): (Drain, bool) {
    var failed := k.sched(|s.log|, |buf|);
    var taken := if failed.Some? then buf[..Min(failed.value, |buf|)] else buf;
    (Drain(s.sink + taken, s.log + [Push(|s.sink|, |buf|, failed)]), failed.None?)
  }

  /** One piece of `write_to`: read a chunk from the region, then hand all of it to the writer. */
  function DrainPiece(k: Task, s: Drain, o: nat, l: nat, a: nat, r: Region): (Drain, Outcome<nat, Error>) {
    if o > k.count then (s, Panic)
    else
      var len := Min(l, MAX_ACCESS_CHUNK);
      if a >= r.len then (s, Err(InvalidGuestAddress(a)))
      else if !Accessible(k.mem, r.host + a, len) then (s, Err(RemoteMemError(Rw)))
      else
        var (s', ok) := Accept(k, s, ReadRange(k.mem, r.host + a, len));
        (s', if ok then Ok(len) else Err(IOError))
  }

  function DrainClosure(k: Task): Callback<Drain> {
    (s: Drain, o: nat, l: nat, a: nat, r: Region) => DrainPiece(k, s, o, l, a, r)
  }

  function WriteToRun(k: Task): Run<Drain> {
    AccessAll(k.m, k.count, k.addr, DrainClosure(k), Begun(k))
  }

  /** The writer received the `o` bytes of guest memory from `addr` on, after what it already had. */
  ghost predicate Drained(k: Task, sink: seq<byte>, o: nat) {
    && |sink| == |k.sink| + o && k.sink <= sink
    && forall a :: k.addr <= a < k.addr + o ==>
         Mapped(k.m, a) && HostOf(k.m, a) in k.mem && sink[|k.sink| + (a - k.addr)] == k.mem[HostOf(k.m, a)]
  }

  /** How many bytes the first `n` calls of the writer were given. */
  function Pushed(k: Task, log: seq<Push>, n: nat): int
    requires n <= |log|
  {
    if n == 0 then 0 else log[n - 1].at + log[n - 1].len - |k.sink|
  }

  /** Call `i` follows the one before; it is given the next chunk, and before the count; and it went as the writer
      goes there. */
  ghost predicate PushTrue(k: Task, log: seq<Push>, i: nat)
    requires i < |log|
  {
    var e := log[i];
    var o := e.at - |k.sink|;
    && 0 <= o == Pushed(k, log, i) && o <= k.count && (i > 0 ==> o < k.count) && Mapped(k.m, k.addr + o)
    && e.len == ChunkLen(k.m, k.count, k.addr, o)
    && e.failed == k.sched(i, e.len)
  }

  /** The whole dialogue with the writer; every call but the last one succeeded and was given something. */
  ghost predicate Handing(k: Task, s: Drain) {
    && (forall i :: 0 <= i < |s.log| ==> PushTrue(k, s.log, i))
    && (forall i :: 0 <= i < |s.log| - 1 ==> s.log[i].failed.None? && s.log[i].len > 0)
  }

  /** No call of the writer has failed, and it has everything up to `o`. */
  ghost predicate Flowing(k: Task, s: Drain, o: nat) {
    && Drained(k, s.sink, o) && Handing(k, s) && o == Pushed(k, s.log, |s.log|)
    && (s.log == [] || s.log[|s.log| - 1].failed.None?)
  }

  /** The writer has just failed: it has the full chunks before and what it took of the last one. */
  ghost predicate WriterFailed(k: Task, s: Drain) {
    && Handing(k, s) && s.log != []
    && var last := s.log[|s.log| - 1];
    && last.failed.Some? && last.at >= |k.sink|
    && Drained(k, s.sink, last.at - |k.sink| + Min(last.failed.value, last.len))
  }

  /** The next chunk meets a byte that cannot be accessed; the writer has the full chunks before it. */
  ghost predicate SourceBroken(k: Task, s: Drain) {
    && var o := Pushed(k, s.log, |s.log|);
    && 0 <= o < k.count && Mapped(k.m, k.addr + o) && Flowing(k, s, o)
    && !Hosted(k.m, k.mem, k.addr, o + ChunkLen(k.m, k.count, k.addr, o)) && Broken(k.m, k.mem, k.addr, k.count)
  }

  ghost function DrainInv(k: Task): (Drain, nat) -> bool {
    (s: Drain, o: nat) => Flowing(k, s, o) && (s.log == [] || s.log[|s.log| - 1].len > 0)
  }

  ghost function DrainIdle(k: Task): (Drain, nat) -> bool {
    (s: Drain, o: nat) => Flowing(k, s, o) && s.log != [] && o == k.count
  }

  ghost function DrainFailed(k: Task): (Drain, Error) -> bool {
    (s: Drain, e: Error) => (e == IOError && WriterFailed(k, s)) || (e == RemoteMemError(Rw) && SourceBroken(k, s))
  }

  lemma DrainedNextPiece(k: Task, sink: seq<byte>, o: nat, n: nat, len: nat)
    requires Drained(k, sink, o) && n <= len
    requires Mapped(k.m, k.addr + o) && HostContiguous(k.m, k.addr + o, len)
    requires Accessible(k.mem, HostOf(k.m, k.addr + o), len)
    ensures Drained(k, sink + ReadRange(k.mem, HostOf(k.m, k.addr + o), len)[..n], o + n)
  {
    forall a | k.addr + o <= a < k.addr + o + n
      ensures Mapped(k.m, a) && HostOf(k.m, a) == HostOf(k.m, k.addr + o) + (a - k.addr - o)
    {
    }
  }

  /** A call at the right place keeps the dialogue true. */
  lemma AcceptSpeaks(k: Task, s: Drain, o: nat, buf: seq<byte>)
    requires Flowing(k, s, o) && (s.log == [] || s.log[|s.log| - 1].len > 0)
    requires (o == 0 || o < k.count) && Mapped(k.m, k.addr + o) && |buf| == ChunkLen(k.m, k.count, k.addr, o)
    ensures var s' := Accept(k, s, buf).0;
            && Handing(k, s') && |s'.log| == |s.log| + 1
            && s'.log[|s.log|] == Push(|k.sink| + o, |buf|, k.sched(|s.log|, |buf|))
  {
    var s' := Accept(k, s, buf).0;
    var n := |s.log|;
    assert n > 0 ==> PushTrue(k, s.log, n - 1);
    forall i | 0 <= i < |s'.log|
      ensures PushTrue(k, s'.log, i)
    {
      if i < n {
        assert PushTrue(k, s.log, i);
        assert Pushed(k, s'.log, i) == Pushed(k, s.log, i);
      }
    }
    forall i | 0 <= i < |s'.log| - 1
      ensures s'.log[i].failed.None? && s'.log[i].len > 0
    {
      assert s'.log[i] == s.log[i];
    }
  }

  lemma DrainServed(k: Task, s: Drain, o: nat, len: nat, at: int)
    requires Flowing(k, s, o) && (s.log == [] || s.log[|s.log| - 1].len > 0)
    requires (o == 0 || o < k.count) && Mapped(k.m, k.addr + o) && len == ChunkLen(k.m, k.count, k.addr, o)
    requires HostOf(k.m, k.addr + o) == at && HostContiguous(k.m, k.addr + o, len) && Accessible(k.mem, at, len)
    ensures var (s', ok) := Accept(k, s, ReadRange(k.mem, at, len));
            && (ok ==> Flowing(k, s', o + len) && s'.log != [] && s'.log[|s'.log| - 1].len == len)
            && (!ok ==> WriterFailed(k, s'))
  {
    var buf := ReadRange(k.mem, at, len);
    AcceptSpeaks(k, s, o, buf);
    var failed := k.sched(|s.log|, len);
    if failed.None? {
      DrainedNextPiece(k, s.sink, o, len, len);
      assert buf[..len] == buf;
    } else {
      DrainedNextPiece(k, s.sink, o, Min(failed.value, len), len);
    }
  }

  lemma DrainedHosted(k: Task, sink: seq<byte>, o: nat)
    requires Drained(k, sink, o)
    ensures Hosted(k.m, k.mem, k.addr, o)
  {
  }

  lemma DrainRefused(k: Task, s: Drain, o: nat, at: int)
    requires Flowing(k, s, o) && o <= k.count && Mapped(k.m, k.addr + o) && HostOf(k.m, k.addr + o) == at
    requires HostContiguous(k.m, k.addr + o, ChunkLen(k.m, k.count, k.addr, o))
    requires !Accessible(k.mem, at, ChunkLen(k.m, k.count, k.addr, o))
    ensures SourceBroken(k, s)
  {
    var len := ChunkLen(k.m, k.count, k.addr, o);
    DrainedHosted(k, s.sink, o);
    HostedMore(k.m, k.mem, k.addr, o, len);
    NotHosted(k.m, k.mem, k.addr, o, len);
  }

  lemma DrainGives(k: Task, s: Drain, o: nat, l: nat, a: nat, r: Region)
    requires DrainInv(k)(s, o) && (o == 0 || o < k.count) && o + l <= k.count && (l == 0 ==> o == k.count)
    requires Mapped(k.m, k.addr + o) && Min(l, MAX_ACCESS_CHUNK) == ChunkLen(k.m, k.count, k.addr, o)
    requires PieceIn(k.m, k.addr + o, Min(l, MAX_ACCESS_CHUNK), a, r)
    ensures GoodAnswer(DrainPiece(k, s, o, l, a, r), o, l, DrainInv(k), DrainIdle(k), DrainFailed(k))
  {
    var len := Min(l, MAX_ACCESS_CHUNK);
    if Accessible(k.mem, r.host + a, len) {
      DrainServed(k, s, o, len, r.host + a);
    } else {
      DrainRefused(k, s, o, r.host + a);
    }
  }

  lemma DrainKeeps(k: Task)
    requires ValidMap(k.m)
    ensures StepKeeps(k.m, k.count, k.addr, DrainClosure(k), DrainInv(k), DrainIdle(k), DrainFailed(k))
  {
    forall s, o: nat, l: nat, a: nat, r | Reachable(k.m, k.count, k.addr, o, l, a, r) && DrainInv(k)(s, o)
      ensures GoodAnswer(DrainClosure(k)(s, o, l, a, r), o, l, DrainInv(k), DrainIdle(k), DrainFailed(k))
    {
      PieceShape(k.m, k.count, k.addr, o, l, a, r, Min(l, MAX_ACCESS_CHUNK));
      DrainGives(k, s, o, l, a, r);
    }
  }

  lemma DrainRuns(k: Task)
    requires ValidMap(k.m)
    ensures Delivers(k.m, k.count, k.addr, Begun(k), 0, WriteToRun(k), DrainInv(k), DrainIdle(k), DrainFailed(k))
  {
    DrainKeeps(k);
    AccessRule(k.m, k.count, k.addr, DrainClosure(k), Begun(k), k.addr, 0, DrainInv(k), DrainIdle(k), DrainFailed(k));
  }

  /** What a call of `write_to` with the final state `s` and the result `r` must have done: a failure of the writer
      is the only source of `IOError`, an inaccessible byte in the next chunk the only source of a remote error, and
      otherwise the whole mapped run up to the count was handed over, each byte once and in order. */
  ghost predicate Delivered(k: Task, s: Drain, r: Outcome<nat, Error>) {
    if !Mapped(k.m, k.addr) then s == Begun(k) && r == Err(InvalidGuestAddress(k.addr))
    else if s.log != [] && s.log[|s.log| - 1].failed.Some? then
      r == Err(IOError) && WriterFailed(k, s)
    else if Broken(k.m, k.mem, k.addr, k.count) then
      r == Err(RemoteMemError(Rw)) && SourceBroken(k, s)
    else
      && s.log != [] && r.Ok? && IsRun(k.m, k.addr, k.count, r.value) && Flowing(k, s, r.value)
  }

  lemma DeliveredFrom(k: Task, run: Run<Drain>)
    requires Mapped(k.m, k.addr)
    requires Delivers(k.m, k.count, k.addr, Begun(k), 0, run, DrainInv(k), DrainIdle(k), DrainFailed(k))
    ensures Delivered(k, run.state, run.result)
  {
    match run.result
    case Ok(t) =>
      assert DrainIdle(k)(run.state, t) || (0 < t && DrainInv(k)(run.state, t));
      assert Flowing(k, run.state, t) && run.state.log != [];
      DrainedHosted(k, run.state.sink, t);
      HostedUnbroken(k.m, k.mem, k.addr, k.count, t);
    case Err(e) =>
      assert DrainFailed(k)(run.state, e);
      assert (e == IOError && WriterFailed(k, run.state)) || (e == RemoteMemError(Rw) && SourceBroken(k, run.state));
  }

  /** For every behaviour of the writer. */
  lemma WriteToConserves(k: Task)
    requires ValidMap(k.m)
    ensures Delivered(k, WriteToRun(k).state, WriteToRun(k).result)
  {
    DrainRuns(k);
    UnmappedStart(k.m, k.count, k.addr, DrainClosure(k), Begun(k));
    if Mapped(k.m, k.addr) {
      DeliveredFrom(k, WriteToRun(k));
    }
  }

  /** `IOError` means that some call of the writer failed, and nothing else does. */
  lemma WriterErrorExact(k: Task)
    requires ValidMap(k.m)
    ensures WriteToRun(k).result == Err(IOError) <==>
              exists i :: 0 <= i < |WriteToRun(k).state.log| && k.sched(i, WriteToRun(k).state.log[i].len).Some?
  {
    WriteToConserves(k);
    var s := WriteToRun(k).state;
    forall i | 0 <= i < |s.log|
      ensures Mapped(k.m, k.addr) ==> s.log[i].failed == k.sched(i, s.log[i].len)
    {
      assert Mapped(k.m, k.addr) ==> PushTrue(k, s.log, i);
    }
  }

  /** A writer that does not fail, a mapped start and accessible memory: the whole mapped run is handed over. */
  lemma WriteToSucceeds(k: Task)
    requires ValidMap(k.m) && Mapped(k.m, k.addr) && !Broken(k.m, k.mem, k.addr, k.count)
    requires forall i :: 0 <= i < |WriteToRun(k).state.log| ==> k.sched(i, WriteToRun(k).state.log[i].len).None?
    ensures var run := WriteToRun(k);
            && run.result.Ok? && IsRun(k.m, k.addr, k.count, run.result.value)
            && Drained(k, run.state.sink, run.result.value)
  {
    WriteToConserves(k);
    WriterErrorExact(k);
  }

  /** `sink'` is the old sink followed by the first `o` bytes of the flat memory from `addr` on. */
  ghost predicate HandedOver(k: Task, sink': seq<byte>, o: nat) {
    Accessible(Flat(k.m, k.mem), k.addr, o) && sink' == k.sink + ReadRange(Flat(k.m, k.mem), k.addr, o)
  }

  /** `Bytes<GuestAddress>::write_to`. */
  method WriteTo(p: RemoteProcess, m: seq<Region>, addr: u64, sink: seq<byte>, sched: Schedule, count: nat)
    returns (sink': seq<byte>, log: seq<Push>, r: Outcome<nat, Error>)
    requires ValidMap(m)
    ensures Delivered(Task(m, addr, count, p.mem, sink, sched), Drain(sink', log), r)
    ensures |sink| <= |sink'| && HandedOver(Task(m, addr, count, p.mem, sink, sched), sink', |sink'| - |sink|)
    ensures r.Ok? ==> |sink'| - |sink| == r.value
  {
    var k := Task(m, addr, count, p.mem, sink, sched);
    WriteToConserves(k);
    var run := TryAccess(m, count, addr, DrainClosure(k), Begun(k));
    sink', log, r := run.state.sink, run.state.log, run.result;
    assert Drain(sink', log) == run.state;
    DeliveredDrained(k, run.state, r);
    DrainedIsFlat(k, sink', |sink'| - |sink|);
  }

  /** Whatever the outcome, what the writer has is a correct prefix. */
  lemma DeliveredDrained(k: Task, s: Drain, r: Outcome<nat, Error>)
    requires Delivered(k, s, r)
    ensures |k.sink| <= |s.sink| && Drained(k, s.sink, |s.sink| - |k.sink|)
    ensures r.Ok? ==> |s.sink| - |k.sink| == r.value
  {
  }

  lemma DrainedInFlat(k: Task, sink: seq<byte>, o: nat)
    requires ValidMap(k.m) && Drained(k, sink, o)
    ensures forall a :: k.addr <= a < k.addr + o ==>
              a in Flat(k.m, k.mem) && Flat(k.m, k.mem)[a] == sink[|k.sink| + (a - k.addr)]
  {
    forall a | k.addr <= a < k.addr + o
      ensures a in Flat(k.m, k.mem) && Flat(k.m, k.mem)[a] == sink[|k.sink| + (a - k.addr)]
    {
      MappedIff(k.m, a);
    }
  }

  lemma DrainedIsFlat(k: Task, sink: seq<byte>, o: nat)
    requires ValidMap(k.m) && Drained(k, sink, o)
    ensures HandedOver(k, sink, o)
  {
    var flat := Flat(k.m, k.mem);
    DrainedInFlat(k, sink, o);
    assert sink[|k.sink|..] == ReadRange(flat, k.addr, o);
    assert sink == sink[..|k.sink|] + sink[|k.sink|..];
  }
}
