/** Flows and the per-slot counts of the flows assigned to each path. */
module BondFlows {
  import opened Widths
  import opened BondPaths
  import Arithmetic

  const ZT_FLOW_MAX_COUNT: nat := 65536

  /** The key of a flow: its identifier cut to sixteen bits. */
  function Key(id: int32): (k: int16) {
    var low := id % 65536;
    if low < 32768 then low else low - 65536
  }

  datatype Flow = Flow(id: int32, lastActivity: int, lastPathReassignment: int, assignedPath: nat)

  type Flows = map<int16, Flow>

  ghost function On(flows: Flows, i: nat): set<int16> { set k | k in flows && flows[k].assignedPath == i }

  /** Every slot's sixteen-bit counter agrees with the flows assigned to it. */
  ghost predicate Counted(s: Slots, flows: Flows) {
    forall i | 0 <= i < MAX_PATHS :: s[i].assignedFlowCount == |On(flows, i)| % 65536
  }

  ghost predicate Placed(flows: Flows) { forall k | k in flows :: flows[k].assignedPath < MAX_PATHS }

  function Up(c: uint16): uint16 { (c + 1) % 65536 }
  function Down(c: uint16): uint16 { (c + 65535) % 65536 }

  /** By how much slot i's counter falls short of the flows on it, in sixteen bits. */
  ghost function Drift(s: Slots, flows: Flows, i: nat): nat
    requires i < MAX_PATHS
  {
    Gap(|On(flows, i)|, s[i].assignedFlowCount)
  }

  function Gap(n: int, c: uint16): nat { (n - c) % 65536 }

  lemma GapSteps(n: int, c: uint16)
    ensures Gap(n + 1, Up(c)) == Gap(n, c) == Gap(n - 1, Down(c)) && Down(Up(c)) == c
    ensures Gap(n, 0) == n % 65536 && (Gap(n, c) == 0 <==> c == n % 65536)
  {
  }

  /** No counter has come to differ more, or less, from the flows on its slot. */
  ghost predicate SameDrift(s: Slots, flows: Flows, t: Slots, now: Flows) {
    forall i | 0 <= i < MAX_PATHS :: Drift(t, now, i) == Drift(s, flows, i)
  }

  lemma SameDriftTwice(s: Slots, f: Flows, t: Slots, g: Flows, u: Slots, h: Flows)
    requires SameDrift(s, f, t, g) && SameDrift(t, g, u, h)
    ensures SameDrift(s, f, u, h)
  {
    hide Drift;
  }

  lemma CountedIsNoDrift(s: Slots, flows: Flows)
    ensures Counted(s, flows) <==> forall i | 0 <= i < MAX_PATHS :: Drift(s, flows, i) == 0
  {
    hide On, Gap;
    forall i | 0 <= i < MAX_PATHS
      ensures Drift(s, flows, i) == 0 <==> s[i].assignedFlowCount == |On(flows, i)| % 65536
    {
      GapSteps(|On(flows, i)|, s[i].assignedFlowCount);
    }
  }

  lemma CountedKept(s: Slots, flows: Flows, t: Slots, now: Flows)
    requires SameDrift(s, flows, t, now)
    ensures Counted(s, flows) <==> Counted(t, now)
  {
    hide Drift, Counted;
    CountedIsNoDrift(s, flows); CountedIsNoDrift(t, now);
  }

  /** The remainder of a division that truncates toward zero, and its magnitude. */
  function TruncMod(a: int, n: nat): int
    requires n > 0
  {
    if a >= 0 then a % n else -(-a % n)
  }

  function Abs(a: int): nat { if a < 0 then -a else a }

  /** Under balance-xor a flow's place among n bonded paths. */
  function Hashed(id: int32, n: nat): (i: nat)
    requires n > 0
    ensures i < n
  {
    Abs(TruncMod(id, n))
  }

  /** Two flows share a key exactly if their identifiers agree in the low sixteen bits. */
  lemma KeysAlike(a: int32, b: int32)
    ensures Key(a) == Key(b) <==> (a - b) % 65536 == 0
  {
    assert a - b == 65536 * (a / 65536 - b / 65536) + (a % 65536 - b % 65536);
  }

  lemma HashedIs(id: int32, n: nat)
    requires n > 0
    ensures id >= 0 ==> Hashed(id, n) == id % n
    ensures id < 0 ==> Hashed(id, n) == (0 - id) % n
  {
  }

  /** Of n consecutive identifiers one goes to each bonded path, */
  lemma HashReaches(id: int32, n: nat, j: nat) returns (k: nat)
    requires 0 <= id && id + n < 0x8000_0000 && j < n
    ensures k < n && Hashed(id + k, n) == j
  {
    k := if id % n <= j then j - id % n else j + n - id % n;
    AddSmall(id, n, k);
    HashedIs(id + k, n);
  }

  /** and no two go to the same. */
  lemma HashSpreads(id: int32, n: nat, k: nat, l: nat)
    requires 0 <= id && id + n < 0x8000_0000 && k < l < n
    ensures Hashed(id + k, n) != Hashed(id + l, n)
  {
    HashedIs(id + k, n); HashedIs(id + l, n);
    AddSmall(id, n, k); AddSmall(id, n, l);
  }

  lemma AddSmall(a: nat, n: nat, k: nat)
    requires k < n
    ensures (a + k) % n == if a % n + k < n then a % n + k else a % n + k - n
  {
    var q, r := a / n, a % n;
    assert a == n * q + r;
    if r + k < n {
      Arithmetic.DivUnique(a + k, n, q, r + k);
    } else {
      assert a + k == n * (q + 1) + (r + k - n);
      Arithmetic.DivUnique(a + k, n, q + 1, r + k - n);
    }
  }

  function CountUp(s: Slots, i: nat): Slots
    requires i < MAX_PATHS
  {
    s[i := s[i].(assignedFlowCount := Up(s[i].assignedFlowCount))]
  }

  function CountDown(s: Slots, i: nat): Slots
    requires i < MAX_PATHS
  {
    s[i := s[i].(assignedFlowCount := Down(s[i].assignedFlowCount))]
  }

  lemma OnAdd(flows: Flows, k: int16, f: Flow, i: nat)
    requires k !in flows
    ensures |On(flows[k := f], i)| == |On(flows, i)| + if i == f.assignedPath then 1 else 0
  {
    assert On(flows[k := f], i) == On(flows, i) + if i == f.assignedPath then {k} else {};
  }

  lemma DriftAdd(s: Slots, flows: Flows, k: int16, f: Flow)
    requires k !in flows && f.assignedPath < MAX_PATHS
    ensures SameDrift(s, flows, CountUp(s, f.assignedPath), flows[k := f])
  {
    hide On, Up, Gap;
    forall i | 0 <= i < MAX_PATHS
      ensures Drift(CountUp(s, f.assignedPath), flows[k := f], i) == Drift(s, flows, i)
    {
      OnAdd(flows, k, f, i);
      GapSteps(|On(flows, i)|, s[i].assignedFlowCount);
    }
  }

  lemma DriftRemove(s: Slots, flows: Flows, k: int16)
    requires k in flows && flows[k].assignedPath < MAX_PATHS
    ensures SameDrift(s, flows, CountDown(s, flows[k].assignedPath), flows - {k})
  {
    hide On, Down, Gap;
    var p := flows[k].assignedPath;
    assert (flows - {k})[k := flows[k]] == flows;
    forall i | 0 <= i < MAX_PATHS
      ensures Drift(CountDown(s, p), flows - {k}, i) == Drift(s, flows, i)
    {
      OnAdd(flows - {k}, k, flows[k], i);
      GapSteps(|On(flows, i)|, s[i].assignedFlowCount);
    }
  }

  lemma DriftTouch(s: Slots, flows: Flows, k: int16, f: Flow)
    requires k in flows && f.assignedPath == flows[k].assignedPath
    ensures SameDrift(s, flows, s, flows[k := f])
  {
    forall i | 0 <= i < MAX_PATHS
      ensures On(flows[k := f], i) == On(flows, i)
    {
    }
    hide On, Gap;
  }

  /** A flow moved to another slot: that slot's counter goes up, then the old one's down. */
  lemma DriftMove(s: Slots, flows: Flows, k: int16, f: Flow)
    requires k in flows && flows[k].assignedPath < MAX_PATHS && f.assignedPath < MAX_PATHS
    ensures SameDrift(s, flows, CountDown(CountUp(s, f.assignedPath), flows[k].assignedPath), flows[k := f])
  {
    hide SameDrift, Up, Down;
    var p, q := flows[k].assignedPath, f.assignedPath;
    if p == q {
      DriftTouch(s, flows, k, f);
      GapSteps(0, s[p].assignedFlowCount);
      assert CountDown(CountUp(s, q), p) == s;
    } else {
      DriftRemove(s, flows, k);
      DriftAdd(CountDown(s, p), flows - {k}, k, f);
      assert (flows - {k})[k := f] == flows[k := f];
      assert CountUp(CountDown(s, p), q) == CountDown(CountUp(s, q), p);
      SameDriftTwice(s, flows, CountDown(s, p), flows - {k}, CountUp(CountDown(s, p), q), flows[k := f]);
    }
  }

  /** There are no more keys than sixteen bits allow. */
  lemma FewFlows(flows: Flows)
    ensures |flows| <= ZT_FLOW_MAX_COUNT
  {
    KeysBelow(flows.Keys, 32768);
  }

  lemma {:induction false} KeysBelow(ks: set<int16>, max: int)
    requires -32768 <= max <= 32768 && forall k | k in ks :: k < max
    ensures |ks| <= max + 32768
    decreases max + 32768
  {
    if max == -32768 {
      assert ks == {};
    } else {
      KeysBelow(ks - {max - 1}, max - 1);
    }
  }

  /** A new flow never finds the table full, so the eviction of the oldest flow cannot run. */
  lemma NeverFull(flows: Flows, id: int32)
    requires Key(id) !in flows
    ensures |flows| < ZT_FLOW_MAX_COUNT
  {
    FewFlows(flows[Key(id) := Flow(0, 0, 0, 0)]);
    assert flows[Key(id) := Flow(0, 0, 0, 0)].Keys == flows.Keys + {Key(id)};
    assert |flows[Key(id) := Flow(0, 0, 0, 0)].Keys| == |flows.Keys| + 1;
  }

  /** Below 65536 flows the counters are exact. */
  lemma CountsExact(s: Slots, flows: Flows, i: nat)
    requires Counted(s, flows) && |flows| < 65536 && i < MAX_PATHS
    ensures s[i].assignedFlowCount == |On(flows, i)|
  {
    Subset(On(flows, i), flows.Keys);
    assert |flows.Keys| == |flows|;
  }

  lemma {:induction false} Subset(a: set<int16>, b: set<int16>)
    requires a <= b
    ensures |a| <= |b|
  {
    if x :| x in a { Subset(a - {x}, b - {x}); }
  }

  // ---- Curating and counting ----

  function Refreshed(s: Slots, w: World): Slots { seq(MAX_PATHS, i requires 0 <= i < MAX_PATHS => Refresh(s[i], w).0) }

  /** Refreshing zeroes the counter of a slot that it vacates, and leaves the flows on it. */
  lemma DriftAfterRefresh(s: Slots, w: World, flows: Flows, i: nat)
    requires i < MAX_PATHS
    ensures Drift(Refreshed(s, w), flows, i) == if Vacated(s[i], w) then |On(flows, i)| % 65536 else Drift(s, flows, i)
  {
    assert Refreshed(s, w)[i].assignedFlowCount == if Vacated(s[i], w) then 0 else s[i].assignedFlowCount;
    hide On, Gap, Refresh;
    GapSteps(|On(flows, i)|, 0);
  }

  /** After a refresh the counters are right exactly if no flow was on a slot that was vacated (modulo the counter's
      width). */
  lemma CountedAfterRefresh(s: Slots, w: World, flows: Flows)
    requires Counted(s, flows)
    ensures Counted(Refreshed(s, w), flows) <==>
      forall i | 0 <= i < MAX_PATHS && Vacated(s[i], w) :: |On(flows, i)| % 65536 == 0
  {
    hide On, Drift, Counted, Vacated;
    CountedIsNoDrift(s, flows); CountedIsNoDrift(Refreshed(s, w), flows);
    forall i | 0 <= i < MAX_PATHS
      ensures Drift(Refreshed(s, w), flows, i) == if Vacated(s[i], w) then |On(flows, i)| % 65536 else 0
    {
      DriftAfterRefresh(s, w, flows, i);
    }
  }

  /** Only counters differ. */
  ghost predicate SameButCounts(s: Slots, t: Slots) {
    forall i | 0 <= i < MAX_PATHS :: t[i] == s[i].(assignedFlowCount := t[i].assignedFlowCount)
  }

  /** A flow that is not on an occupied slot that lost its eligibility. */
  predicate OffDeadPath(s: Slots, f: Flow) {
    f.assignedPath < MAX_PATHS && (s[f.assignedPath].p.None? || s[f.assignedPath].eligible)
  }

  predicate Expired(f: Flow, age: uint64, now: int) { Unsigned(now - f.lastActivity) > age }

  lemma ExpiredInPlainTimes(f: Flow, age: uint64, now: int)
    requires 0 <= f.lastActivity <= now < U64
    ensures Expired(f, age, now) <==> now - f.lastActivity > age
  {
    SmallTimes(now, f.lastActivity);
  }

  /** Flows with one of the keys in todo are as before; the others stay only if they are fresh. */
  ghost predicate Forgetting(before: Flows, now: Flows, todo: set<int16>, age: uint64, t: int) {
    && (forall k :: k in now <==> k in before && (k in todo || !Expired(before[k], age, t)))
    && forall k | k in now :: now[k] == before[k]
  }

  lemma ForgetStep(before: Flows, now: Flows, todo: set<int16>, k: int16, age: uint64, t: int)
    requires Forgetting(before, now, todo, age, t) && k in todo && k in before
    ensures k in now && now[k] == before[k]
    ensures Forgetting(before, if Expired(now[k], age, t) then now - {k} else now, todo - {k}, age, t)
  {
    hide Expired;
  }

  function Unexpired(flows: Flows, age: uint64, t: int): Flows {
    map k | k in flows && !Expired(flows[k], age, t) :: flows[k]
  }

  lemma ForgetEnd(before: Flows, now: Flows, age: uint64, t: int)
    requires Forgetting(before, now, {}, age, t)
    ensures now == Unexpired(before, age, t)
  {
    hide Expired;
  }

  // ---- Moving flows from dead paths ----

  /** Entry j of the index map. */
  function Entry(m: seq<nat>, j: nat): nat { if j < |m| then m[j] else MAX_PATHS }

  /** Under balance-xor the slot of a flow that the bond is to place. */
  function Place(id: int32, m: seq<nat>, n: nat): nat { if n == 0 then MAX_PATHS else Entry(m, Hashed(id, n)) }

  /** A flow on a dead path goes where its identifier hashes to; the others stay. */
  function Moved(f: Flow, s: Slots, m: seq<nat>, n: nat, now: int): Flow {
    if OffDeadPath(s, f) then f else f.(assignedPath := Place(f.id, m, n), lastPathReassignment := now)
  }

  /** Flows with a key in todo are where they were; the others have been moved if need be. */
  ghost predicate Moving(before: Flows, flows: Flows, todo: set<int16>, s: Slots, m: seq<nat>, n: nat, now: int) {
    && (forall k :: k in flows <==> k in before)
    && forall k | k in flows :: flows[k] == if k in todo then before[k] else Moved(before[k], s, m, n, now)
  }

  lemma MoveStep(before: Flows, flows: Flows, todo: set<int16>, s: Slots, m: seq<nat>, n: nat, now: int, k: int16)
    requires Moving(before, flows, todo, s, m, n, now) && k in todo && k in before
    ensures k in flows && flows[k] == before[k]
    ensures Moving(before, flows[k := Moved(before[k], s, m, n, now)], todo - {k}, s, m, n, now)
  {
    hide Moved;
  }

  function AllMoved(flows: Flows, s: Slots, m: seq<nat>, n: nat, now: int): Flows {
    map k | k in flows :: Moved(flows[k], s, m, n, now)
  }

  lemma MoveEnd(before: Flows, flows: Flows, s: Slots, m: seq<nat>, n: nat, now: int)
    requires Moving(before, flows, {}, s, m, n, now)
    ensures flows == AllMoved(before, s, m, n, now)
  {
    hide Moved;
  }

  /** Being on a dead path is not a matter of counters. */
  lemma DeadAlike(s: Slots, t: Slots, f: Flow)
    requires SameButCounts(s, t)
    ensures OffDeadPath(s, f) == OffDeadPath(t, f)
  {
    if f.assignedPath < MAX_PATHS {
      assert t[f.assignedPath] == s[f.assignedPath].(assignedFlowCount := t[f.assignedPath].assignedFlowCount);
    }
  }

  lemma SameButCountsTwice(s: Slots, t: Slots, u: Slots)
    requires SameButCounts(s, t) && SameButCounts(t, u)
    ensures SameButCounts(s, u)
  {
  }
}
