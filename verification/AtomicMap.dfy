/**
 * Publication of memory maps (`GuestMemoryAtomic`, src/atomic.rs) as a transition system: readers take
 * snapshots of an atomically swapped pointer, updaters hold the update mutex and store a new pointer.
 */
module AtomicMap {
  import opened Words
  import opened RegionMap
  import opened RemoteMem
  import opened SpanAccess
  import opened FlatMemory

  /** A map that a caller owns: the map it was loaded as, what it is now, the updates in between, and the ticket of
      the guard that its thread held when it loaded it. It lives as long as the caller likes. */
  datatype Copy = Copy(base: seq<Region>, regions: seq<Region>, ops: seq<MapOp>, ticket: Option<nat>)

  /** One `replace`: the ticket of the lock it was made under and the updates it published. */
  datatype Publication = Publication(ticket: nat, ops: seq<MapOp>)

  /** `heap` holds the published maps behind their pointers and `current` is the swapped pointer; `snaps` are the
      pointers that readers hold. `guards` holds the live exclusive guards, each with the ticket its `lock` drew;
      tickets are drawn in lock order. `log` is the history of publications. */
  datatype State = State(
    heap: seq<seq<Region>>,
    current: nat,
    locked: bool,
    guards: map<nat, nat>,
    tickets: nat,
    copies: map<nat, Copy>,
    snaps: map<nat, nat>,
    log: seq<Publication>)

  datatype Action =
    | Snap(reader: nat)                       // memory(): load the pointer
    | Lock(thread: nat)                       // lock(): acquire the update mutex
    | Load(thread: nat, copy: nat)            // clone the map behind the pointer, under a guard or not
    | Edit(from: nat, op: MapOp, to: nat)     // insert_region or remove_region on a copy, successfully
    | Replace(thread: nat, copy: nat)         // guard.replace(copy): store the pointer, release the mutex
    | Drop(thread: nat)                       // the guard goes out of scope unused

  function Init(m: seq<Region>): State {
    State([m], 0, false, map[], 0, map[], map[], [])
  }

  predicate Enabled(s: State, act: Action) {
    && s.current < |s.heap|
    && match act
       case Snap(_) => true
       case Lock(t) => !s.locked && t !in s.guards
       case Load(_, _) => true
       case Edit(c, op, _) => c in s.copies && ValidOp(op) && ApplyOp(s.copies[c].regions, op).Ok?
       case Replace(t, c) => t in s.guards && c in s.copies
       case Drop(t) => t in s.guards
  }

  function Edited(d: Copy, op: MapOp): Copy
    requires ApplyOp(d.regions, op).Ok?
  {
    d.(regions := ApplyOp(d.regions, op).value, ops := d.ops + [op])
  }

  /** A copy outlives the guard it was loaded under, be that dropped or used, and a `replace` that it was used for. */
  function Next(s: State, act: Action): State
    requires Enabled(s, act)
  {
    match act
    case Snap(i) => s.(snaps := s.snaps[i := s.current])
    case Lock(t) => s.(locked := true, guards := s.guards[t := s.tickets], tickets := s.tickets + 1)
    case Load(t, c) =>
      var m := s.heap[s.current];
      s.(copies := s.copies[c := Copy(m, m, [], if t in s.guards then Some(s.guards[t]) else None)])
    case Edit(c, op, d) => s.(copies := s.copies[d := Edited(s.copies[c], op)])
    case Replace(t, c) =>
      s.(heap := s.heap + [s.copies[c].regions], current := |s.heap|,
         log := s.log + [Publication(s.guards[t], s.copies[c].ops)],
         locked := false, guards := s.guards - {t})
    case Drop(t) => s.(locked := false, guards := s.guards - {t})
  }

  predicate Runs(s: State, acts: seq<Action>)
    decreases |acts|
  {
    acts == [] || (Enabled(s, acts[0]) && Runs(Next(s, acts[0]), acts[1..]))
  }

  function Exec(s: State, acts: seq<Action>): State
    requires Runs(s, acts)
    decreases |acts|
  {
    if acts == [] then s else Exec(Next(s, acts[0]), acts[1..])
  }

  function Publish(m: seq<Region>, p: Publication): seq<Region> {
    RunOps(m, p.ops, |p.ops|)
  }

  /** The map after the first `n` publications, each applied to the result of the one before. */
  function Replay(init: seq<Region>, log: seq<Publication>, n: nat): seq<Region>
    requires n <= |log|
  {
    Fold(Publish, init, log, n)
  }

  // ---------------------------------------------------------------------------------------------
  // What every run keeps
  // ---------------------------------------------------------------------------------------------

  predicate Exclusive(s: State) {
    && (s.locked <==> s.guards != map[])
    && (forall t, u :: t in s.guards && u in s.guards ==> t == u)
  }

  /** Publications appear in the order in which their locks were taken. */
  predicate InLockOrder(s: State) {
    && (forall i, j :: 0 <= i < j < |s.log| ==> s.log[i].ticket < s.log[j].ticket)
    && (forall i :: 0 <= i < |s.log| ==> s.log[i].ticket < s.tickets)
    && (forall t :: t in s.guards ==> s.guards[t] < s.tickets)
    && (forall t, i :: t in s.guards && 0 <= i < |s.log| ==> s.log[i].ticket < s.guards[t])
  }

  /** One map is allocated for each publication, the last one is current, and all are valid. */
  predicate HeapSound(s: State) {
    && |s.heap| == |s.log| + 1 && s.current == |s.log|
    && (forall v :: 0 <= v < |s.heap| ==> ValidMap(s.heap[v]))
    && (forall i :: i in s.snaps ==> s.snaps[i] < |s.heap|)
  }

  /** The copy is its updates applied to the map it was loaded as. */
  predicate CopySound(d: Copy, tickets: nat) {
    && d.regions == RunOps(d.base, d.ops, |d.ops|) && ValidMap(d.regions)
    && (d.ticket.Some? ==> d.ticket.value < tickets)
  }

  predicate CopiesSound(s: State) {
    forall c :: c in s.copies ==> CopySound(s.copies[c], s.tickets)
  }

  /** While a guard lives, what was loaded under it is still the current map. */
  predicate GuardedFresh(s: State) {
    && s.current < |s.heap|
    && forall t, c :: t in s.guards && c in s.copies && s.copies[c].ticket == Some(s.guards[t]) ==>
         s.copies[c].base == s.heap[s.current]
  }

  predicate Sound(s: State) {
    Exclusive(s) && InLockOrder(s) && HeapSound(s) && CopiesSound(s) && GuardedFresh(s)
  }

  lemma RunOpsSnoc(m: seq<Region>, ops: seq<MapOp>, op: MapOp)
    requires ApplyOp(RunOps(m, ops, |ops|), op).Ok?
    ensures RunOps(m, ops + [op], |ops| + 1) == ApplyOp(RunOps(m, ops, |ops|), op).value
  {
    FoldPrefix(ApplyOrKeep, m, ops, [op], |ops|);
  }

  lemma EditSound(d: Copy, op: MapOp, tickets: nat)
    requires CopySound(d, tickets) && ValidOp(op) && ApplyOp(d.regions, op).Ok?
    ensures CopySound(Edited(d, op), tickets)
  {
    RunOpsSnoc(d.base, d.ops, op);
    ApplyOpValid(d.regions, op);
  }

  lemma LockSound(s: State, t: nat)
    requires Sound(s) && Enabled(s, Lock(t))
    ensures Sound(Next(s, Lock(t)))
  {
    assert s.guards == map[];
  }

  lemma LoadSound(s: State, t: nat, c: nat)
    requires Sound(s)
    ensures Sound(Next(s, Load(t, c)))
  {
    var m := s.heap[s.current];
    assert RunOps(m, [], 0) == m;
  }

  lemma ReplaceSound(s: State, t: nat, c: nat)
    requires Sound(s) && Enabled(s, Replace(t, c))
    ensures Sound(Next(s, Replace(t, c)))
  {
    assert CopySound(s.copies[c], s.tickets);
    assert Next(s, Replace(t, c)).guards == map[];
  }

  lemma EditKeepsCopies(s: State, c: nat, op: MapOp, d: nat)
    requires CopiesSound(s) && Enabled(s, Edit(c, op, d))
    ensures CopiesSound(Next(s, Edit(c, op, d)))
  {
    EditSound(s.copies[c], op, s.tickets);
  }

  lemma EditKeepsFresh(s: State, c: nat, op: MapOp, d: nat)
    requires GuardedFresh(s) && Enabled(s, Edit(c, op, d))
    ensures GuardedFresh(Next(s, Edit(c, op, d)))
  {
  }

  lemma EditKeepsSound(s: State, c: nat, op: MapOp, d: nat)
    requires Sound(s) && Enabled(s, Edit(c, op, d))
    ensures Sound(Next(s, Edit(c, op, d)))
  {
    EditKeepsCopies(s, c, op, d);
    EditKeepsFresh(s, c, op, d);
  }

  /** Every step of a reader or an updater, disciplined or not, keeps the guards exclusive, the publications in lock
      order, every map valid, and what was loaded under a live guard equal to the current map. */
  lemma NextSound(s: State, act: Action)
    requires Sound(s) && Enabled(s, act)
    ensures Sound(Next(s, act))
  {
    match act
    case Snap(_) =>
    case Lock(t) => LockSound(s, t);
    case Load(t, c) => LoadSound(s, t, c);
    case Edit(c, op, d) => EditKeepsSound(s, c, op, d);
    case Replace(t, c) => ReplaceSound(s, t, c);
    case Drop(t) => assert Next(s, act).guards == map[];
  }

  lemma {:induction false} RunSound(s: State, acts: seq<Action>)
    requires Sound(s) && Runs(s, acts)
    ensures Sound(Exec(s, acts))
    decreases |acts|
  {
    if acts != [] {
      NextSound(s, acts[0]);
      RunSound(Next(s, acts[0]), acts[1..]);
    }
  }

  lemma InitSound(m: seq<Region>)
    requires ValidMap(m)
    ensures Sound(Init(m))
  {
  }

  // ---------------------------------------------------------------------------------------------
  // When no update is lost
  // ---------------------------------------------------------------------------------------------

  /** The published updates are applied to the map that was current, not to an older one. */
  predicate Lossless(s: State, t: nat, c: nat)
    requires Enabled(s, Replace(t, c))
  {
    var s' := Next(s, Replace(t, c));
    s'.heap[s'.current] == RunOps(s.heap[s.current], s.copies[c].ops, |s.copies[c].ops|)
  }

  /** `ops` can be made one after another on a copy of `base`. */
  predicate Editable(base: seq<Region>, ops: seq<MapOp>) {
    forall i :: 0 <= i < |ops| ==> ValidOp(ops[i]) && ApplyOp(RunOps(base, ops, i), ops[i]).Ok?
  }

  /** The state in which copy `c` has had the updates `ops` since it was loaded. */
  function WithEdits(s: State, c: nat, ops: seq<MapOp>): State
    requires c in s.copies
  {
    var d := s.copies[c];
    s.(copies := s.copies[c := d.(regions := RunOps(d.base, ops, |ops|), ops := ops)])
  }

  /** The exact condition: a `replace` from a copy loses nothing, whatever updates the copy has had, if and only if
      the map it was loaded as is the current one at the `replace`. */
  lemma ReplaceExact(s: State, t: nat, c: nat)
    requires Enabled(s, Replace(t, c))
    ensures (forall ops :: Editable(s.copies[c].base, ops) ==> Lossless(WithEdits(s, c, ops), t, c))
       <==> s.copies[c].base == s.heap[s.current]
  {
    if forall ops :: Editable(s.copies[c].base, ops) ==> Lossless(WithEdits(s, c, ops), t, c) {
      assert Editable(s.copies[c].base, []);
      assert Lossless(WithEdits(s, c, []), t, c);
    }
  }

  /** That condition for one action. */
  predicate FreshReplace(s: State, act: Action)
    requires Enabled(s, act)
  {
    act.Replace? ==> s.copies[act.copy].base == s.heap[s.current]
  }

  predicate FreshRun(s: State, acts: seq<Action>)
    requires Runs(s, acts)
    decreases |acts|
  {
    acts == [] || (FreshReplace(s, acts[0]) && FreshRun(Next(s, acts[0]), acts[1..]))
  }

  predicate AllReplayed(init: seq<Region>, heap: seq<seq<Region>>, log: seq<Publication>) {
    |heap| == |log| + 1 && forall v :: 0 <= v <= |log| ==> heap[v] == Replay(init, log, v)
  }

  /** Every published map is all publications up to it, one after another, from the initial map. */
  predicate NothingLost(init: seq<Region>, s: State) {
    AllReplayed(init, s.heap, s.log)
  }

  lemma ReplaySnoc(init: seq<Region>, log: seq<Publication>, p: Publication)
    ensures Replay(init, log + [p], |log| + 1) == RunOps(Replay(init, log, |log|), p.ops, |p.ops|)
    ensures forall v :: 0 <= v <= |log| ==> Replay(init, log + [p], v) == Replay(init, log, v)
  {
    forall v | 0 <= v <= |log|
      ensures Replay(init, log + [p], v) == Replay(init, log, v)
    {
      FoldPrefix(Publish, init, log, [p], v);
    }
  }

  lemma PublishReplayed(init: seq<Region>, heap: seq<seq<Region>>, log: seq<Publication>, p: Publication,
                        m: seq<Region>)
    requires AllReplayed(init, heap, log) && m == RunOps(heap[|log|], p.ops, |p.ops|)
    ensures AllReplayed(init, heap + [m], log + [p])
  {
    ReplaySnoc(init, log, p);
  }

  lemma ReplacePublishes(init: seq<Region>, s: State, t: nat, c: nat)
    requires HeapSound(s) && NothingLost(init, s) && Enabled(s, Replace(t, c)) && FreshReplace(s, Replace(t, c))
    requires CopySound(s.copies[c], s.tickets)
    ensures NothingLost(init, Next(s, Replace(t, c)))
  {
    PublishReplayed(init, s.heap, s.log, Publication(s.guards[t], s.copies[c].ops), s.copies[c].regions);
  }

  /** Every step keeps that nothing is lost, as long as its `replace`, if it is one, is from a fresh copy. */
  lemma NextKeeps(init: seq<Region>, s: State, act: Action)
    requires Sound(s) && NothingLost(init, s) && Enabled(s, act) && FreshReplace(s, act)
    ensures Sound(Next(s, act)) && NothingLost(init, Next(s, act))
  {
    NextSound(s, act);
    if act.Replace? {
      ReplacePublishes(init, s, act.thread, act.copy);
    }
  }

  lemma {:induction false} RunKeeps(init: seq<Region>, s: State, acts: seq<Action>)
    requires Sound(s) && NothingLost(init, s) && Runs(s, acts) && FreshRun(s, acts)
    ensures Sound(Exec(s, acts)) && NothingLost(init, Exec(s, acts))
    decreases |acts|
  {
    if acts != [] {
      NextKeeps(init, s, acts[0]);
      RunKeeps(init, Next(s, acts[0]), acts[1..]);
    }
  }

  /** The rule for updaters: `replace` a copy that was loaded under the very guard that replaces it. */
  predicate Disciplined(s: State, act: Action)
    requires Enabled(s, act)
  {
    act.Replace? ==> s.copies[act.copy].ticket == Some(s.guards[act.thread])
  }

  predicate DisciplinedRun(s: State, acts: seq<Action>)
    requires Runs(s, acts)
    decreases |acts|
  {
    acts == [] || (Disciplined(s, acts[0]) && DisciplinedRun(Next(s, acts[0]), acts[1..]))
  }

  lemma {:induction false} RuleKeepsFresh(s: State, acts: seq<Action>)
    requires Sound(s) && Runs(s, acts) && DisciplinedRun(s, acts)
    ensures FreshRun(s, acts)
    decreases |acts|
  {
    if acts != [] {
      NextSound(s, acts[0]);
      RuleKeepsFresh(Next(s, acts[0]), acts[1..]);
    }
  }

  /** In every interleaving of readers and updaters at most one guard is held and every published map is sorted and
      disjoint; and when updaters follow the rule, every published map is the updates published so far, applied in
      lock order to the initial map. */
  lemma NoLostUpdates(init: seq<Region>, acts: seq<Action>)
    requires ValidMap(init) && Runs(Init(init), acts)
    ensures Sound(Exec(Init(init), acts))
    ensures DisciplinedRun(Init(init), acts) ==> NothingLost(init, Exec(Init(init), acts))
  {
    InitSound(init);
    RunSound(Init(init), acts);
    if DisciplinedRun(Init(init), acts) {
      RuleKeepsFresh(Init(init), acts);
      RunKeeps(init, Init(init), acts);
    }
  }

  // ---------------------------------------------------------------------------------------------
  // Two runs that lose an update
  // ---------------------------------------------------------------------------------------------

  lemma RunCons(s: State, act: Action, acts: seq<Action>)
    requires Enabled(s, act) && Runs(Next(s, act), acts)
    ensures Runs(s, [act] + acts) && Exec(s, [act] + acts) == Exec(Next(s, act), acts)
  {
  }

  /** The state after thread `t`, holding the guard, inserts `r` into copy `c` and replaces the map with it. */
  function Inserted(s: State, t: nat, c: nat, r: Region): State
    requires s.current < |s.heap| && t in s.guards && c in s.copies
    requires ValidRegion(r) && InsertRegion(s.copies[c].regions, r).Ok?
  {
    Next(Next(s, Edit(c, Insert(r), c)), Replace(t, c))
  }

  lemma InsertedIs(s: State, t: nat, c: nat, r: Region)
    requires s.current < |s.heap| && s.guards.Keys == {t} && c in s.copies
    requires ValidRegion(r) && InsertRegion(s.copies[c].regions, r).Ok?
    ensures var s' := Inserted(s, t, c, r);
            && s'.current < |s'.heap| && s'.heap[s'.current] == InsertRegion(s.copies[c].regions, r).value
            && !s'.locked && s'.guards == map[]
            && s'.log == s.log + [Publication(s.guards[t], s.copies[c].ops + [Insert(r)])]
            && (forall d :: d in s.copies && d != c ==> d in s'.copies && s'.copies[d] == s.copies[d])
  {
  }

  /** Thread `t` inserts `r` into copy `c`, replaces the map with it, and goes on with `rest`. */
  function Section(t: nat, c: nat, r: Region, rest: seq<Action>): seq<Action> {
    [Edit(c, Insert(r), c)] + ([Replace(t, c)] + rest)
  }

  lemma InsertRun(s: State, t: nat, c: nat, r: Region, rest: seq<Action>)
    requires s.current < |s.heap| && t in s.guards && c in s.copies
    requires ValidRegion(r) && InsertRegion(s.copies[c].regions, r).Ok? && Runs(Inserted(s, t, c, r), rest)
    ensures Runs(s, Section(t, c, r, rest)) && Exec(s, Section(t, c, r, rest)) == Exec(Inserted(s, t, c, r), rest)
  {
    var s1 := Next(s, Edit(c, Insert(r), c));
    RunCons(s1, Replace(t, c), rest);
    RunCons(s, Edit(c, Insert(r), c), [Replace(t, c)] + rest);
  }

  /** Both updates are in the log and only the second one is in the map. */
  predicate LostFirst(s: State, first: Region, second: Region) {
    && s.current < |s.heap| && |s.log| == 2
    && s.log[0].ops == [Insert(first)] && s.log[1].ops == [Insert(second)]
    && second in s.heap[s.current] && first !in s.heap[s.current]
  }

  lemma InsertIntoEmpty(r: Region)
    requires ValidRegion(r)
    ensures InsertRegion([], r).Ok? && forall x :: x in InsertRegion([], r).value <==> x == r
  {
    InsertIff([], r);
  }

  /** Thread `t` publishes `second` from a copy that was loaded before `first` was published. */
  lemma StaleSection(s: State, t: nat, c: nat, first: Region, second: Region)
    requires s.current < |s.heap| && !s.locked && s.guards == map[] && c in s.copies
    requires s.copies[c].regions == [] && s.copies[c].ops == [] && ValidRegion(second) && first != second
    requires |s.log| == 1 && s.log[0].ops == [Insert(first)]
    ensures var acts := [Lock(t)] + Section(t, c, second, []);
            Runs(s, acts) && LostFirst(Exec(s, acts), first, second)
  {
    InsertIntoEmpty(second);
    var s1 := Next(s, Lock(t));
    InsertedIs(s1, t, c, second);
    InsertRun(s1, t, c, second, []);
    RunCons(s, Lock(t), Section(t, c, second, []));
  }

  /** Both updaters loaded the map before either took the lock; the second publication overwrites the first one's
      region. */
  lemma EarlyLoadLosesUpdate(a: Region, b: Region) returns (acts: seq<Action>)
    requires ValidRegion(a) && ValidRegion(b) && a != b
    ensures Runs(Init([]), acts) && LostFirst(Exec(Init([]), acts), a, b)
  {
    InsertIntoEmpty(a);
    var s0 := Init([]);
    var s1 := Next(s0, Load(1, 1));
    var s2 := Next(s1, Load(2, 2));
    var s3 := Next(s2, Lock(1));
    InsertedIs(s3, 1, 1, a);
    var s5 := Inserted(s3, 1, 1, a);
    var section2 := Section(2, 2, b, []);
    StaleSection(s5, 2, 2, a, b);
    InsertRun(s3, 1, 1, a, [Lock(2)] + section2);
    var section1 := Section(1, 1, a, [Lock(2)] + section2);
    RunCons(s2, Lock(1), section1);
    RunCons(s1, Load(2, 2), [Lock(1)] + section1);
    acts := [Load(1, 1)] + ([Load(2, 2)] + ([Lock(1)] + section1));
    RunCons(s0, Load(1, 1), [Load(2, 2)] + ([Lock(1)] + section1));
  }

  /** Thread 2 loads and inserts `b` under its guard; then thread 1 inserts `a` into the copy it already has. */
  lemma KeptCopyTail(s: State, a: Region, b: Region) returns (tail: seq<Action>)
    requires ValidRegion(a) && ValidRegion(b) && a != b
    requires s.heap == [[]] && s.current == 0 && !s.locked && s.guards == map[] && s.log == []
    requires 1 in s.copies && s.copies[1].regions == [] && s.copies[1].ops == []
    ensures tail == [Lock(2)] + ([Load(2, 2)] + Section(2, 2, b, [Lock(1)] + Section(1, 1, a, [])))
    ensures Runs(s, tail) && LostFirst(Exec(s, tail), b, a)
  {
    InsertIntoEmpty(b);
    var s1 := Next(s, Lock(2));
    var s2 := Next(s1, Load(2, 2));
    InsertedIs(s2, 2, 2, b);
    var s4 := Inserted(s2, 2, 2, b);
    var section1 := Section(1, 1, a, []);
    StaleSection(s4, 1, 1, b, a);
    InsertRun(s2, 2, 2, b, [Lock(1)] + section1);
    var section2 := Section(2, 2, b, [Lock(1)] + section1);
    RunCons(s1, Load(2, 2), section2);
    RunCons(s, Lock(2), [Load(2, 2)] + section2);
    tail := [Lock(2)] + ([Load(2, 2)] + section2);
  }

  /** Taking the lock before every load is not enough: the first updater loads under a guard, drops the guard, and
      uses its copy under a later one. */
  lemma KeptCopyLosesUpdate(a: Region, b: Region) returns (acts: seq<Action>)
    requires ValidRegion(a) && ValidRegion(b) && a != b
    ensures acts == [Lock(1)] + ([Load(1, 1)] + ([Drop(1)]
                    + ([Lock(2)] + ([Load(2, 2)] + Section(2, 2, b, [Lock(1)] + Section(1, 1, a, []))))))
    ensures Runs(Init([]), acts) && LostFirst(Exec(Init([]), acts), b, a)
  {
    var s0 := Init([]);
    var s1 := Next(s0, Lock(1));
    var s2 := Next(s1, Load(1, 1));
    var s3 := Next(s2, Drop(1));
    assert s3.guards == map[];
    var tail := KeptCopyTail(s3, a, b);
    RunCons(s2, Drop(1), tail);
    RunCons(s1, Load(1, 1), [Drop(1)] + tail);
    RunCons(s0, Lock(1), [Load(1, 1)] + ([Drop(1)] + tail));
    acts := [Lock(1)] + ([Load(1, 1)] + ([Drop(1)] + tail));
  }

  // ---------------------------------------------------------------------------------------------
  // Snapshots
  // ---------------------------------------------------------------------------------------------

  /** What a reader sees through the pointer it holds. */
  function View(s: State, id: nat): seq<Region>
    requires id in s.snaps && s.snaps[id] < |s.heap|
  {
    s.heap[s.snaps[id]]
  }

  /** The map of the last `replace` of the run, or `latest` if there is none. */
  function LastPublished(s: State, acts: seq<Action>, latest: seq<Region>): seq<Region>
    requires Runs(s, acts)
    decreases |acts|
  {
    if acts == [] then latest
    else
      LastPublished(Next(s, acts[0]), acts[1..],
                    if acts[0].Replace? then s.copies[acts[0].copy].regions else latest)
  }

  /** The swapped pointer leads to the map that was published last. */
  lemma {:induction false} CurrentIsLastPublished(s: State, acts: seq<Action>)
    requires Runs(s, acts) && s.current < |s.heap|
    ensures var s' := Exec(s, acts);
            s'.current < |s'.heap| && s'.heap[s'.current] == LastPublished(s, acts, s.heap[s.current])
    decreases |acts|
  {
    if acts != [] {
      CurrentIsLastPublished(Next(s, acts[0]), acts[1..]);
    }
  }

  lemma {:induction false} RunAppend(s: State, xs: seq<Action>, ys: seq<Action>)
    requires Runs(s, xs + ys)
    ensures Runs(s, xs) && Runs(Exec(s, xs), ys) && Exec(s, xs + ys) == Exec(Exec(s, xs), ys)
    decreases |xs|
  {
    if xs == [] {
      assert xs + ys == ys;
    } else {
      assert (xs + ys)[0] == xs[0] && (xs + ys)[1..] == xs[1..] + ys;
      RunAppend(Next(s, xs[0]), xs[1..], ys);
    }
  }

  /** What `memory()` returns is the map published last when it was called, and the reader keeps seeing that one
      whatever happens later, until it calls again. */
  lemma SnapshotIsLastPublished(init: seq<Region>, acts: seq<Action>, id: nat, later: seq<Action>)
    requires Runs(Init(init), acts + ([Snap(id)] + later)) && Snap(id) !in later
    ensures Runs(Init(init), acts)
    ensures var s := Exec(Init(init), acts + ([Snap(id)] + later));
            && id in s.snaps && s.snaps[id] < |s.heap|
            && View(s, id) == LastPublished(Init(init), acts, init)
  {
    RunAppend(Init(init), acts, [Snap(id)] + later);
    CurrentIsLastPublished(Init(init), acts);
    var s := Exec(Init(init), acts);
    RunAppend(s, [Snap(id)], later);
    var s' := Exec(s, [Snap(id)]);
    assert s' == Next(s, Snap(id)) by {
      assert [Snap(id)][1..] == [];
    }
    SnapshotStable(s', later, id);
  }

  /** No copy but `c` came, went or changed. */
  ghost predicate OthersKept(s: State, s': State, c: nat) {
    && (forall d :: d in s'.copies && d != c ==> d in s.copies)
    && (forall d :: d in s.copies && d != c ==> d in s'.copies && s'.copies[d] == s.copies[d])
  }

  /** A map that is loaded, under a guard or not, is the map published last, with no updates yet; it carries the
      ticket of the guard that its thread holds, if any. */
  lemma LoadIsLastPublished(init: seq<Region>, acts: seq<Action>, t: nat, c: nat)
    requires Runs(Init(init), acts)
    ensures var s := Exec(Init(init), acts);
            && Enabled(s, Load(t, c))
            && var s' := Next(s, Load(t, c));
            && c in s'.copies && s'.copies[c].ops == []
            && s'.copies[c].base == s'.copies[c].regions == LastPublished(Init(init), acts, init)
            && s'.copies[c].ticket == (if t in s.guards then Some(s.guards[t]) else None)
            && OthersKept(s, s', c)
  {
    CurrentIsLastPublished(Init(init), acts);
  }

  /** An update gives its copy the regions that the same update gives on a plain set, leaves the copy it was made
      from and every other one as it was, and touches nothing that is published. */
  lemma EditGivesNewMap(s: State, c: nat, op: MapOp, d: nat)
    requires Sound(s) && Enabled(s, Edit(c, op, d))
    ensures var s' := Next(s, Edit(c, op, d));
            && d in s'.copies && ValidMap(s'.copies[d].regions)
            && Elements(s'.copies[d].regions) == ApplyToSet(Elements(s.copies[c].regions), op)
            && s'.copies[d].base == s.copies[c].base && s'.copies[d].ticket == s.copies[c].ticket
            && OthersKept(s, s', d)
            && s'.(copies := s.copies) == s
  {
    assert CopySound(s.copies[c], s.tickets);
    ApplyOnSet(s.copies[c].regions, op);
  }

  /** Readers and loaders never wait, whoever holds the lock. */
  lemma NeverBlocked(init: seq<Region>, acts: seq<Action>, id: nat, t: nat, c: nat)
    requires Runs(Init(init), acts)
    ensures Enabled(Exec(Init(init), acts), Snap(id)) && Enabled(Exec(Init(init), acts), Load(t, c))
  {
    CurrentIsLastPublished(Init(init), acts);
  }

  /** The mutex is free exactly while no guard lives, and a guard that is used or dropped frees it. */
  lemma LockExact(s: State, t: nat)
    requires Sound(s)
    ensures Enabled(s, Lock(t)) <==> s.guards == map[]
    ensures t in s.guards ==>
              && Next(s, Drop(t)).guards == map[]
              && forall c :: c in s.copies ==> Next(s, Replace(t, c)).guards == map[]
  {
  }

  /** Whatever is published later, a reader sees the same regions through its pointer until it asks again. */
  lemma {:induction false} SnapshotStable(s: State, acts: seq<Action>, id: nat)
    requires Runs(s, acts) && id in s.snaps && s.snaps[id] < |s.heap| && Snap(id) !in acts
    ensures var s' := Exec(s, acts);
            id in s'.snaps && s'.snaps[id] < |s'.heap| && View(s', id) == View(s, id)
    decreases |acts|
  {
    if acts != [] {
      SnapshotStable(Next(s, acts[0]), acts[1..], id);
    }
  }

  lemma WholeRun(m: seq<Region>, mem: Memory, r: Region, addr: u64, n: nat)
    requires ValidMap(m) && r in m && Contains(r, addr) && addr + n <= r.base + r.len && Accessible(mem, r.host, r.len)
    ensures Mapped(m, addr) && HostOf(m, addr) == r.host + (addr - r.base) && HostContiguous(m, addr, n)
    ensures IsRun(m, addr, n, n) && !Broken(m, mem, addr, n)
  {
    LookupHit(m, r, addr);
    OneRegionContiguous(m, addr, n);
    HostedUnbroken(m, mem, addr, n, n);
  }

  lemma WriteWhole(m: seq<Region>, mem: Memory, r: Region, buf: seq<byte>, addr: u64)
    requires ValidMap(m) && r in m && Accessible(mem, r.host, r.len)
    requires Contains(r, addr) && addr + |buf| <= r.base + r.len
    ensures GuestWrite(m, mem, buf, addr).result == Ok(|buf|)
    ensures GuestWrite(m, mem, buf, addr).state == WriteRange(mem, r.host + (addr - r.base), buf)
  {
    WholeRun(m, mem, r, addr, |buf|);
    WriteDelivers(m, mem, buf, addr);
    RunUnique(m, addr, |buf|, |buf|, GuestWrite(m, mem, buf, addr).result.value);
    ContiguousEach(m, mem, buf, addr);
    WriteRangeAll(mem, HostOf(m, addr), buf);
  }

  lemma ReadWhole(m: seq<Region>, mem: Memory, r: Region, out: seq<byte>, addr: u64)
    requires ValidMap(m) && r in m && Accessible(mem, r.host, r.len)
    requires Contains(r, addr) && addr + |out| <= r.base + r.len
    ensures GuestRead(m, mem, out, addr).result == Ok(|out|)
    ensures Mapped(m, addr) && HostOf(m, addr) == r.host + (addr - r.base) && HostContiguous(m, addr, |out|)
    ensures Filled(m, mem, out, GuestRead(m, mem, out, addr).state, addr, |out|)
  {
    WholeRun(m, mem, r, addr, |out|);
    ReadDelivers(m, mem, out, addr);
    RunUnique(m, addr, |out|, |out|, GuestRead(m, mem, out, addr).result.value);
  }

  lemma ReadWritten(m: seq<Region>, mem: Memory, mem1: Memory, r: Region, buf: seq<byte>, out: seq<byte>, addr: u64)
    requires ValidMap(m) && r in m && Accessible(mem, r.host, r.len) && |buf| == |out|
    requires Contains(r, addr) && addr + |out| <= r.base + r.len
    requires mem1 == WriteRange(mem, r.host + (addr - r.base), buf)
    ensures GuestRead(m, mem1, out, addr).result == Ok(|out|) && GuestRead(m, mem1, out, addr).state == buf
  {
    ReadWhole(m, mem1, r, out, addr);
    FilledFromRange(m, mem, buf, out, GuestRead(m, mem1, out, addr).state, addr);
  }

  /** Bytes written through one map to a region are the bytes read there through any other map that has it. */
  lemma WriteThenReadShared(before: seq<Region>, after: seq<Region>, mem: Memory, r: Region,
                            buf: seq<byte>, out: seq<byte>, addr: u64)
    requires ValidMap(before) && ValidMap(after) && r in before && r in after && Accessible(mem, r.host, r.len)
    requires Contains(r, addr) && addr + |buf| <= r.base + r.len && |buf| == |out|
    ensures var w := GuestWrite(before, mem, buf, addr);
            var rd := GuestRead(after, w.state, out, addr);
            w.result == Ok(|buf|) && rd.result == Ok(|buf|) && rd.state == buf
  {
    WriteWhole(before, mem, r, buf, addr);
    ReadWritten(after, mem, WriteRange(mem, r.host + (addr - r.base), buf), r, buf, out, addr);
  }

  lemma FilledFromRange(m: seq<Region>, mem: Memory, buf: seq<byte>, out: seq<byte>, got: seq<byte>, addr: u64)
    requires Mapped(m, addr) && HostContiguous(m, addr, |buf|) && |out| == |buf|
    requires Filled(m, WriteRange(mem, HostOf(m, addr), buf), out, got, addr, |buf|)
    ensures got == buf
  {
    forall i | 0 <= i < |buf|
      ensures got[i] == buf[i]
    {
      assert Mapped(m, addr + i) && HostOf(m, addr + i) == HostOf(m, addr) + i;
    }
  }

  /** In every run: bytes written through any snapshot to a region that survived are the bytes read through the
      current map. */
  lemma OldSnapshotWritesAreSeen(init: seq<Region>, acts: seq<Action>, id: nat, mem: Memory, r: Region,
                                 buf: seq<byte>, out: seq<byte>, addr: u64)
    requires ValidMap(init) && Runs(Init(init), acts)
    requires var s := Exec(Init(init), acts);
             && id in s.snaps && s.snaps[id] < |s.heap| && s.current < |s.heap|
             && r in View(s, id) && r in s.heap[s.current]
    requires Accessible(mem, r.host, r.len) && Contains(r, addr) && addr + |buf| <= r.base + r.len && |buf| == |out|
    ensures var s := Exec(Init(init), acts);
            var w := GuestWrite(View(s, id), mem, buf, addr);
            var rd := GuestRead(s.heap[s.current], w.state, out, addr);
            w.result == Ok(|buf|) && rd.result == Ok(|buf|) && rd.state == buf
  {
    NoLostUpdates(init, acts);
    var s := Exec(Init(init), acts);
    WriteThenReadShared(View(s, id), s.heap[s.current], mem, r, buf, out, addr);
  }
}
