/** A bond as a state machine: what each event does to its slots, index map and flows, and what holds over every run. */
module BondSteps {
  import opened Widths
  import opened Wrappers
  import opened BondPaths
  import opened BondFlows

  datatype Policy = BalanceRR | BalanceXor

  datatype State = State(slots: Slots, idxMap: seq<nat>, n: nat, flows: Flows, checked: uint64)

  // ---- Curating ----

  predicate Triggers(s: Slots, w: World) { exists i | 0 <= i < MAX_PATHS :: Refresh(s[i], w).1 }

  predicate Usable(s: Slot) { s.p.Some? && s.bonded && s.alive }

  predicate UsableFound(s: Slots) { exists i | 0 <= i < MAX_PATHS :: Usable(s[i]) }

  ghost function AllSelected(s: Slots, linkOf: Path -> Option<Link>, foundUsable: bool): set<nat> {
    set i: nat | i < MAX_PATHS && Selected(s, linkOf, foundUsable, i)
  }

  /** The slots of base, with exactly those of sel bonded and listed. */
  ghost predicate Formed(base: Slots, sel: set<nat>, t: Slots, m: seq<nat>, n: nat) {
    (forall i | 0 <= i < MAX_PATHS :: t[i] == base[i].(bonded := i in sel)) && Lists(m, n, sel)
  }

  /** Whether curating forms the bond again. */
  predicate Rebuilds(pre: State, w: World, rebuild: bool) {
    rebuild || Triggers(pre.slots, w) || !UsableFound(Refreshed(pre.slots, w)) || pre.n == 0
  }

  ghost predicate Curated(pre: State, w: World, rebuild: bool, post: State) {
    var slots := Refreshed(pre.slots, w);
    && post.flows == pre.flows && post.checked == pre.checked
    && if Rebuilds(pre, w, rebuild)
       then Formed(slots, AllSelected(slots, w.linkOf, UsableFound(slots)), post.slots, post.idxMap, post.n)
       else post.slots == slots && post.idxMap == pre.idxMap && post.n == pre.n
  }

  /** What a rebuild guarantees, in the terms of its users. */
  lemma AfterRebuild(slots: Slots, linkOf: Path -> Option<Link>, found: bool, t: Slots, m: seq<nat>, n: nat)
    requires Formed(slots, AllSelected(slots, linkOf, found), t, m, n)
    ensures |m| == MAX_PATHS && n <= MAX_PATHS && forall j, k | 0 <= j < k < n :: m[j] != m[k]
    ensures forall j | n <= j < MAX_PATHS :: m[j] == MAX_PATHS
    ensures forall i | 0 <= i < MAX_PATHS :: t[i].bonded <==> i in m[..n]
    ensures forall i | 0 <= i < MAX_PATHS && t[i].bonded :: t[i].p.Some? && t[i].eligible
    ensures forall i | 0 <= i < MAX_PATHS && t[i].bonded && t[i].spare :: !found
    ensures forall i, k | 0 <= i < MAX_PATHS && 0 <= k < MAX_PATHS && t[i].bonded && !t[i].spare && !Preferred(t[i])
              && LinkAt(slots, linkOf, i).value.ipvPref in {46, 64}
              && LinkAt(slots, linkOf, k) == LinkAt(slots, linkOf, i) ::
              !FirstChoice(slots[k])
  {
  }

  // ---- Looking after the flows ----

  predicate CheckDue(pre: State, now: int) { Unsigned(now - pre.checked) > ZT_PEER_PATH_EXPIRATION }

  function Remembered(pre: State, now: int): Flows {
    if CheckDue(pre, now) then Unexpired(pre.flows, ZT_PEER_PATH_EXPIRATION, now) else pre.flows
  }

  ghost predicate SameDriftOf(pre: State, post: State) { SameDrift(pre.slots, pre.flows, post.slots, post.flows) }

  /** processBalanceTasks. */
  ghost predicate Tended(policy: Policy, pre: State, now: int, post: State) {
    && post.idxMap == pre.idxMap && post.n == pre.n && SameButCounts(pre.slots, post.slots) && SameDriftOf(pre, post)
    && if pre.n == 0 then post.flows == pre.flows && post.checked == pre.checked
       else
         && post.checked == (if CheckDue(pre, now) then Unsigned(now) else pre.checked)
         && post.flows == if policy == BalanceXor then AllMoved(Remembered(pre, now), pre.slots, pre.idxMap, pre.n, now)
            else Remembered(pre, now)
  }

  // ---- Traffic ----

  /** Under balance-xor the slot that a packet of this flow goes out on. */
  function Carrier(s: State, flowId: int32, freeRandomByte: nat): nat
    requires s.n > 0
  {
    if flowId == -1 then Entry(s.idxMap, freeRandomByte % s.n)
    else if Key(flowId) in s.flows then s.flows[Key(flowId)].assignedPath
    else Place(flowId, s.idxMap, s.n)
  }

  /** The path it is sent on: there is one exactly if the bond is not empty and that slot is occupied. */
  function SentOn(s: State, flowId: int32, freeRandomByte: nat): Option<Path> {
    if s.n == 0 || Carrier(s, flowId, freeRandomByte) >= MAX_PATHS then None
    else s.slots[Carrier(s, flowId, freeRandomByte)].p
  }

  function FlowsSent(s: State, flowId: int32, now: int): Flows {
    if s.n == 0 || flowId == -1 then s.flows
    else if Key(flowId) in s.flows then s.flows[Key(flowId) := s.flows[Key(flowId)].(lastActivity := now)]
    else s.flows[Key(flowId) := Flow(flowId, now, now, Place(flowId, s.idxMap, s.n))]
  }

  function FlowsLearned(s: State, i: nat, flowId: int32, now: int): Flows {
    if s.n == 0 || flowId == -1 || Key(flowId) in s.flows then s.flows
    else s.flows[Key(flowId) := Flow(flowId, now, now, i)]
  }

  /** A dead path that receives something. */
  function Toggled(s: Slots, i: nat, now: int): Slots
    requires i < MAX_PATHS
  {
    if s[i].alive then s else s[i := s[i].(lastAliveToggle := Unsigned(now))]
  }

  function Measured(s: Slots, i: nat, now: int): Slots
    requires i < MAX_PATHS
  {
    s[i := s[i].(lastQoSReceived := Unsigned(now))]
  }

  /** Only flows and counters differ. */
  ghost predicate SameBond(pre: State, post: State) {
    && post.idxMap == pre.idxMap && post.n == pre.n && post.checked == pre.checked
    && SameButCounts(pre.slots, post.slots) && SameDriftOf(pre, post)
  }

  // ---- Events ----

  datatype Event =
    | Background(w: World)
    | Outgoing(flowId: int32, now: int, freeRandomByte: nat)
    | Incoming(path: Path, flowId: int32, now: int)
    | QoS(path: Path, now: int)
    | Nomination(path: Path, allowed: bool, w: World)

  /** An event takes one state to the next. */
  ghost predicate Next(policy: Policy, e: Event, pre: State, post: State) {
    match e
    case Background(w) => exists mid :: Curated(pre, w, false, mid) && Tended(policy, mid, w.now, post)
    case Outgoing(flowId, now, _) =>
      SameBond(pre, post) && post.flows == if policy == BalanceXor then FlowsSent(pre, flowId, now) else pre.flows
    case Incoming(path, flowId, now) =>
      var i := PathIdx(pre.slots, path);
      if i == MAX_PATHS then post == pre
      else SameBond(pre.(slots := Toggled(pre.slots, i, now)), post) && post.flows == FlowsLearned(pre, i, flowId, now)
    case QoS(path, now) =>
      var i := PathIdx(pre.slots, path);
      post == if i == MAX_PATHS then pre else pre.(slots := Measured(pre.slots, i, now))
    case Nomination(path, allowed, w) =>
      if allowed then Curated(pre.(slots := Nominated(pre.slots, path, w)), w, true, post) else post == pre
  }

  ghost predicate Chained(policy: Policy, events: seq<Event>, trace: seq<State>) {
    |trace| == |events| + 1 && forall t | 0 <= t < |events| :: Next(policy, events[t], trace[t], trace[t + 1])
  }

  lemma ChainedMore(policy: Policy, events: seq<Event>, trace: seq<State>, e: Event, post: State)
    requires Chained(policy, events, trace) && Next(policy, e, trace[|events|], post)
    ensures Chained(policy, events + [e], trace + [post])
  {
    hide Next;
    var es, ts := events + [e], trace + [post];
    forall t | 0 <= t < |es|
      ensures Next(policy, es[t], ts[t], ts[t + 1])
    {
      if t < |events| { assert Next(policy, events[t], trace[t], trace[t + 1]); }
    }
  }

  // ---- Distinct slots hold distinct paths ----

  lemma CuratedDistinct(pre: State, w: World, rebuild: bool, post: State)
    requires Curated(pre, w, rebuild, post) && DistinctPaths(pre.slots)
    ensures DistinctPaths(post.slots)
  {
    hide Triggers, UsableFound, AllSelected, Lists, DistinctPaths;
    DistinctRefreshed(pre.slots, post.slots);
  }

  lemma NominatedDistinct(s: Slots, path: Path, w: World)
    requires DistinctPaths(s)
    ensures DistinctPaths(Nominated(s, path, w))
  {
    hide Seated, DistinctPaths;
    var seat := FreeFrom(s, 0);
    if !Present(s, path) && seat < MAX_PATHS { SeatedKeeps(s, seat, path, w.now, w.linkOf); }
  }

  /** Distinct slots hold distinct paths after every event if they did before it. */
  lemma NextKeepsDistinct(policy: Policy, e: Event, pre: State, post: State)
    requires Next(policy, e, pre, post) && DistinctPaths(pre.slots)
    ensures DistinctPaths(post.slots)
  {
    hide Curated, DistinctPaths, Drift, FlowsSent, FlowsLearned, AllMoved, Remembered, Nominated;
    match e
    case Background(w) =>
      var mid :| Curated(pre, w, false, mid) && Tended(policy, mid, w.now, post);
      CuratedDistinct(pre, w, false, mid);
      DistinctRefreshed(mid.slots, post.slots);
    case Outgoing(_, _, _) =>
      DistinctRefreshed(pre.slots, post.slots);
    case Incoming(_, _, _) =>
      DistinctRefreshed(pre.slots, post.slots);
    case QoS(_, _) =>
      DistinctRefreshed(pre.slots, post.slots);
    case Nomination(path, allowed, w) =>
      if allowed {
        NominatedDistinct(pre.slots, path, w);
        CuratedDistinct(pre.(slots := Nominated(pre.slots, path, w)), w, true, post);
      }
  }

  // ---- When the counters of flows are right ----

  /** The event curates the bond and vacates slot i. */
  predicate VacatedBy(e: Event, pre: State, i: nat)
    requires i < MAX_PATHS
  {
    match e
    case Background(w) => Vacated(pre.slots[i], w)
    case Nomination(path, allowed, w) => allowed && Vacated(Nominated(pre.slots, path, w)[i], w)
    case _ => false
  }

  lemma CurateDrift(pre: State, w: World, rebuild: bool, post: State, i: nat)
    requires Curated(pre, w, rebuild, post) && i < MAX_PATHS
    ensures Drift(post.slots, post.flows, i) ==
      if Vacated(pre.slots[i], w) then |On(pre.flows, i)| % 65536 else Drift(pre.slots, pre.flows, i)
  {
    hide Refreshed, Vacated, Triggers, UsableFound, AllSelected, On, Gap, Lists;
    DriftAfterRefresh(pre.slots, w, pre.flows, i);
    assert post.slots[i].assignedFlowCount == Refreshed(pre.slots, w)[i].assignedFlowCount;
  }

  lemma NominatedCounts(s: Slots, path: Path, w: World, flows: Flows, i: nat)
    requires i < MAX_PATHS
    ensures Drift(Nominated(s, path, w), flows, i) == Drift(s, flows, i)
  {
    hide Seated, On, Gap;
    var seat := FreeFrom(s, 0);
    if seat < MAX_PATHS { SeatedPaths(s, seat, path, w.now, w.linkOf); }
  }

  /** Only vacating a slot makes its counter differ: by the flows that were on it. */
  lemma StepDrift(policy: Policy, e: Event, pre: State, post: State, i: nat)
    requires Next(policy, e, pre, post) && i < MAX_PATHS
    ensures Drift(post.slots, post.flows, i) ==
      if VacatedBy(e, pre, i) then |On(pre.flows, i)| % 65536 else Drift(pre.slots, pre.flows, i)
  {
    hide Curated, Vacated, SameButCounts, FlowsSent, FlowsLearned, Nominated, On, Gap;
    match e
    case Background(w) =>
      var mid :| Curated(pre, w, false, mid) && Tended(policy, mid, w.now, post);
      hide Tended;
      CurateDrift(pre, w, false, mid, i);
      TendedDrift(policy, mid, w.now, post, i);
    case Outgoing(_, _, _) =>
    case Incoming(path, _, now) =>
    case QoS(_, _) =>
    case Nomination(path, allowed, w) =>
      if allowed {
        CurateDrift(pre.(slots := Nominated(pre.slots, path, w)), w, true, post, i);
        NominatedCounts(pre.slots, path, w, pre.flows, i);
      }
  }

  lemma TendedDrift(policy: Policy, pre: State, now: int, post: State, i: nat)
    requires Tended(policy, pre, now, post) && i < MAX_PATHS
    ensures Drift(post.slots, post.flows, i) == Drift(pre.slots, pre.flows, i)
  {
    hide Drift, SameButCounts, AllMoved, Remembered;
  }

  /** The last of the first m events that vacates slot i, if there is one. */
  function LastVacated(events: seq<Event>, trace: seq<State>, i: nat, m: nat): (t: Option<nat>)
    requires i < MAX_PATHS && m <= |events| <= |trace|
    ensures t.Some? ==> t.value < m
  {
    if m == 0 then None
    else if VacatedBy(events[m - 1], trace[m - 1], i) then Some(m - 1)
    else LastVacated(events, trace, i, m - 1)
  }

  lemma {:induction false} LastVacatedIs(events: seq<Event>, trace: seq<State>, i: nat, m: nat)
    requires i < MAX_PATHS && m <= |events| <= |trace|
    ensures match LastVacated(events, trace, i, m)
      case None => forall u | 0 <= u < m :: !VacatedBy(events[u], trace[u], i)
      case Some(t) => VacatedBy(events[t], trace[t], i) && forall u | t < u < m :: !VacatedBy(events[u], trace[u], i)
  {
    hide VacatedBy;
    if m > 0 { LastVacatedIs(events, trace, i, m - 1); }
  }

  /** A counter differs by the flows that were on its slot when it was last vacated; if it never was, by what it did at
      the start. */
  lemma {:induction false} DriftOverRun(policy: Policy, events: seq<Event>, trace: seq<State>, i: nat, m: nat)
    requires Chained(policy, events, trace) && i < MAX_PATHS && m <= |events|
    ensures Drift(trace[m].slots, trace[m].flows, i) ==
      var t := LastVacated(events, trace, i, m);
      if t.Some? then |On(trace[t.value].flows, i)| % 65536 else Drift(trace[0].slots, trace[0].flows, i)
  {
    hide Next, VacatedBy, Drift, On;
    if m > 0 {
      DriftOverRun(policy, events, trace, i, m - 1);
      StepDrift(policy, events[m - 1], trace[m - 1], trace[m - 1 + 1], i);
    }
  }

  /** When slot i was last vacated it held flows, not a multiple of 65536. */
  ghost predicate LostFlows(events: seq<Event>, trace: seq<State>, i: nat, m: nat)
    requires i < MAX_PATHS && m <= |events| <= |trace|
  {
    var t := LastVacated(events, trace, i, m);
    t.Some? && |On(trace[t.value].flows, i)| % 65536 != 0
  }

  /** The counters are right after a run exactly if no slot held flows (modulo the counters' width) when it was last
      vacated. */
  lemma CountersRightExactly(policy: Policy, events: seq<Event>, trace: seq<State>, m: nat)
    requires Chained(policy, events, trace) && m <= |events| && Counted(trace[0].slots, trace[0].flows)
    ensures Counted(trace[m].slots, trace[m].flows) <==>
      forall i | 0 <= i < MAX_PATHS :: !LostFlows(events, trace, i, m)
  {
    hide Next, VacatedBy, Drift, On, Counted, LastVacated;
    CountedIsNoDrift(trace[0].slots, trace[0].flows); CountedIsNoDrift(trace[m].slots, trace[m].flows);
    forall i | 0 <= i < MAX_PATHS
      ensures Drift(trace[m].slots, trace[m].flows, i) == 0 <==> !LostFlows(events, trace, i, m)
    {
      DriftOverRun(policy, events, trace, i, m);
    }
  }

  // ---- Which flows are remembered, and where they go out ----

  /** A background task forgets a flow exactly if the bond is not empty, more than 243 seconds have passed since the
      last check, and the flow was idle for longer than that. */
  lemma ForgottenExactly(policy: Policy, w: World, pre: State, post: State, k: int16)
    requires Next(policy, Background(w), pre, post) && k in pre.flows
    requires 0 <= pre.checked <= w.now < U64 && 0 <= pre.flows[k].lastActivity <= w.now
    ensures k !in post.flows <==>
      post.n > 0 && w.now - pre.checked > 243000 && w.now - pre.flows[k].lastActivity > 243000
    ensures k in post.flows ==> post.flows[k].id == pre.flows[k].id
    ensures k in post.flows ==> post.flows[k].lastActivity == pre.flows[k].lastActivity
  {
    hide Formed, SameDriftOf, SameButCounts, Refreshed, Triggers, UsableFound, OffDeadPath, Place;
    var mid :| Curated(pre, w, false, mid) && Tended(policy, mid, w.now, post);
    SmallTimes(w.now, pre.checked);
    ExpiredInPlainTimes(pre.flows[k], ZT_PEER_PATH_EXPIRATION, w.now);
    hide Expired;
  }

  /** An event that does not form the bond anew. */
  predicate Quiet(e: Event) { e.Outgoing? || e.Incoming? || e.QoS? }

  /** The flow is known, on the slot that holds the path. */
  predicate RunsOver(s: State, k: int16, i: nat, path: Path) {
    && i < MAX_PATHS && s.n > 0 && s.slots[i].p == Some(path)
    && k in s.flows && s.flows[k].assignedPath == i
  }

  lemma QuietKeepsPath(policy: Policy, e: Event, pre: State, post: State, k: int16, i: nat, path: Path)
    requires Next(policy, e, pre, post) && Quiet(e) && RunsOver(pre, k, i, path)
    ensures RunsOver(post, k, i, path)
  {
    hide SameDrift, Place;
  }

  lemma {:induction false} KeepsPath(policy: Policy, events: seq<Event>, trace: seq<State>, k: int16, i: nat,
      path: Path, from: nat, m: nat)
    requires Chained(policy, events, trace) && from <= m <= |events| && RunsOver(trace[from], k, i, path)
    requires forall t | from <= t < m :: Quiet(events[t])
    ensures RunsOver(trace[m], k, i, path)
    decreases m
  {
    hide Next, Quiet, RunsOver;
    if from < m {
      KeepsPath(policy, events, trace, k, i, path, from, m - 1);
      QuietKeepsPath(policy, events[m - 1], trace[m - 1], trace[m - 1 + 1], k, i, path);
    }
  }

  /** Until the bond is curated, a new flow that comes in on a nominated path goes out on that path, however often. */
  lemma RepliesGoBack(policy: Policy, events: seq<Event>, trace: seq<State>, m: nat, freeRandomByte: nat)
    requires Chained(policy, events, trace) && 0 < m <= |events| && forall t | 0 <= t < m :: Quiet(events[t])
    requires events[0].Incoming? && events[0].flowId != -1 && Present(trace[0].slots, events[0].path) && trace[0].n > 0
    requires Key(events[0].flowId) !in trace[0].flows
    ensures SentOn(trace[m], events[0].flowId, freeRandomByte) == Some(events[0].path)
  {
    hide SameDrift, Quiet;
    var e := events[0];
    var i := PathIdx(trace[0].slots, e.path);
    assert Next(policy, e, trace[0], trace[0 + 1]);
    assert RunsOver(trace[1], Key(e.flowId), i, e.path);
    KeepsPath(policy, events, trace, Key(e.flowId), i, e.path, 1, m);
  }

  /** And all packets of a flow go out on the path of the first one. */
  lemma FlowKeepsPath(events: seq<Event>, trace: seq<State>, m: nat, freeRandomByte: nat, path: Path)
    requires Chained(BalanceXor, events, trace) && 0 < m <= |events| && forall t | 0 <= t < m :: Quiet(events[t])
    requires events[0].Outgoing? && events[0].flowId != -1
    requires SentOn(trace[0], events[0].flowId, events[0].freeRandomByte) == Some(path)
    ensures SentOn(trace[m], events[0].flowId, freeRandomByte) == Some(path)
  {
    hide SameDrift, Quiet, Place;
    var e := events[0];
    var i := Carrier(trace[0], e.flowId, e.freeRandomByte);
    assert Next(BalanceXor, e, trace[0], trace[0 + 1]);
    assert RunsOver(trace[1], Key(e.flowId), i, path);
    KeepsPath(BalanceXor, events, trace, Key(e.flowId), i, path, 1, m);
  }

  // ---- Flows left on a vacated slot ----

  /** The flow with key k is on slot i, which is empty. */
  predicate Stranded(s: State, k: int16, i: nat) {
    i < MAX_PATHS && s.slots[i].p.None? && k in s.flows && s.flows[k].assignedPath == i
  }

  /** The event is a background task that forgets the flow for its age. */
  predicate ForgottenBy(e: Event, pre: State, post: State, k: int16)
    requires k in pre.flows
  {
    e.Background? && post.n > 0 && CheckDue(pre, e.w.now) && Expired(pre.flows[k], ZT_PEER_PATH_EXPIRATION, e.w.now)
  }

  /** A flow on an empty slot stays there, unless it is forgotten or a new path takes the slot: no background task moves
      it. */
  lemma StrandedStays(policy: Policy, e: Event, pre: State, post: State, k: int16, i: nat)
    requires Next(policy, e, pre, post) && Stranded(pre, k, i)
    ensures k in post.flows <==> !ForgottenBy(e, pre, post, k)
    ensures k in post.flows && post.slots[i].p.None? ==> Stranded(post, k, i)
    ensures !e.Nomination? ==> post.slots[i].p.None?
  {
    hide Triggers, UsableFound, AllSelected, Lists, SameDriftOf, Expired, Nominated;
    match e
    case Background(w) =>
      var mid :| Curated(pre, w, false, mid) && Tended(policy, mid, w.now, post);
      assert Refreshed(pre.slots, w)[i] == pre.slots[i];
      assert mid.slots[i].p.None?;
    case Outgoing(_, _, _) =>
    case Incoming(_, _, _) =>
    case QoS(_, _) =>
    case Nomination(_, _, _) =>
  }

  /** And nothing can be sent on it. */
  lemma StrandedSendsNothing(s: State, flowId: int32, freeRandomByte: nat, i: nat)
    requires flowId != -1 && Stranded(s, Key(flowId), i)
    ensures SentOn(s, flowId, freeRandomByte) == None
  {
  }

  /** Over a run that nominates nothing, a flow on an empty slot stays there for as long as it is remembered. */
  lemma {:induction false} StrandedOverRun(policy: Policy, events: seq<Event>, trace: seq<State>, k: int16, i: nat,
      m: nat)
    requires Chained(policy, events, trace) && m <= |events| && Stranded(trace[0], k, i)
    requires forall t | 0 <= t < m :: !events[t].Nomination?
    requires forall t | 0 <= t < m && k in trace[t].flows :: !ForgottenBy(events[t], trace[t], trace[t + 1], k)
    ensures Stranded(trace[m], k, i)
  {
    hide Next, ForgottenBy;
    if m > 0 {
      StrandedOverRun(policy, events, trace, k, i, m - 1);
      StrandedStays(policy, events[m - 1], trace[m - 1], trace[m - 1 + 1], k, i);
    }
  }
}
