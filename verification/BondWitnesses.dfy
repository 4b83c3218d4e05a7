/** Runs of a real bond from its construction: one that meets what the fairness theorem asks for, and one in which flow
    counters go wrong and a flow is left on an empty slot. */
module BondWitnesses {
  import opened Widths
  import opened Wrappers
  import opened BondPaths
  import opened BondFlows
  import opened BondStripe
  import opened BondSteps
  import opened BondHealth
  import B = Bond

  const FIRST := Path(0, true, false)
  const SECOND := Path(1, true, false)

  /** Both paths work, over a link of their own each. */
  function BothLinks(p: Path): Option<Link> { Some(Link(p.id, 0, false)) }

  /** The link of the first path is gone. */
  function FirstGone(p: Path): Option<Link> { if p == FIRST then None else Some(Link(p.id, 0, false)) }

  function At0(linkOf: Path -> Option<Link>): World { World(0, true, 5000, 0, 0, linkOf, p => 0) }

  /** A slot whose path is bonded, and whose flow counter may be anything. */
  predicate Taken(s: Slot, p: Path) {
    s == VACANT.(p := Some(p), alive := true, eligible := true, onlyPathOnLink := true, bonded := true,
                 assignedFlowCount := s.assignedFlowCount)
  }

  /** The first slots are taken by these paths, and the others are free. */
  predicate Holding(s: Slots, ps: seq<Path>) {
    && |ps| <= MAX_PATHS
    && forall i | 0 <= i < MAX_PATHS :: if i < |ps| then Taken(s[i], ps[i]) else s[i] == VACANT
  }

  /** The next path has a link of its own. */
  predicate OwnLink(ps: seq<Path>, p: Path) { forall q | q in ps :: q.id != p.id }

  function JustSeated(p: Path): Slot { VACANT.(p := Some(p), onlyPathOnLink := true) }

  lemma SeatedNext(s: Slots, ps: seq<Path>, p: Path)
    requires Holding(s, ps) && |ps| < MAX_PATHS && OwnLink(ps, p)
    ensures Nominated(s, p, At0(BothLinks)) == s[|ps| := JustSeated(p)]
  {
    var seat := FreeFrom(s, 0);
    assert forall k | 0 <= k < |ps| :: Taken(s[k], ps[k]) && s[k].p.Some?;
    assert s[|ps|].p.None?;
    forall k | 0 <= k < MAX_PATHS
      ensures s[k].p != Some(p) && !SharesLink(s, seat, k, BothLinks, BothLinks(p).value)
    {
      if k < |ps| { assert Taken(s[k], ps[k]) && ps[k] in ps; }
    }
    hide SharesLink;
    assert Nominated(s, p, At0(BothLinks)) == Seated(s, seat, p, 0, BothLinks);
  }

  lemma RefreshTaken(s: Slot, p: Path, linkOf: Path -> Option<Link>)
    requires (Taken(s, p) || s == JustSeated(p)) && linkOf(p).Some?
    ensures var t := Refresh(s, At0(linkOf)).0;
      Taken(t.(bonded := true), p) && t.assignedFlowCount == s.assignedFlowCount
  {
  }

  /** The slots are taken but for being bonded. */
  predicate Ready(s: Slots, all: seq<Path>) {
    && |all| <= MAX_PATHS
    && forall i | 0 <= i < MAX_PATHS :: if i < |all| then Taken(s[i].(bonded := true), all[i]) else s[i] == VACANT
  }

  lemma RefreshedReady(s: Slots, ps: seq<Path>, p: Path)
    requires Holding(s, ps) && |ps| < MAX_PATHS
    ensures Ready(Refreshed(s[|ps| := JustSeated(p)], At0(BothLinks)), ps + [p])
  {
    hide Refresh;
    var w, all := At0(BothLinks), ps + [p];
    var seated: Slots := s[|ps| := JustSeated(p)];
    forall i | 0 <= i < MAX_PATHS
      ensures var t := Refreshed(seated, w)[i]; if i < |all| then Taken(t.(bonded := true), all[i]) else t == VACANT
    {
      if i < |all| { RefreshTaken(seated[i], all[i], BothLinks); } else { VacantStays(w); }
    }
  }

  /** Nominating one more path bonds it beside the others. */
  lemma Nominating(policy: Policy, pre: State, ps: seq<Path>, p: Path, post: State)
    requires Holding(pre.slots, ps) && |ps| < MAX_PATHS && OwnLink(ps, p)
    requires Next(policy, Nomination(p, true, At0(BothLinks)), pre, post)
    ensures Holding(post.slots, ps + [p]) && post.n == |ps| + 1
    ensures post.flows == pre.flows && post.checked == pre.checked
  {
    hide Refreshed, UsableFound, Nominated, Lists, AllSelected, Holding;
    var w, all := At0(BothLinks), ps + [p];
    SeatedNext(pre.slots, ps, p);
    var slots := Refreshed(pre.slots[|ps| := JustSeated(p)], w);
    var sel := AllSelected(slots, BothLinks, UsableFound(slots));
    RefreshedReady(pre.slots, ps, p);
    AllTakenSelected(slots, all, UsableFound(slots));
    ListsSize(post.idxMap, post.n, sel);
    ReadyHolds(slots, all, post.slots);
  }

  lemma ReadyHolds(slots: Slots, all: seq<Path>, t: Slots)
    requires Ready(slots, all) && forall i | 0 <= i < MAX_PATHS :: t[i] == slots[i].(bonded := i in First(|all|))
    ensures Holding(t, all)
  {
    forall i | 0 <= i < MAX_PATHS
      ensures if i < |all| then Taken(t[i], all[i]) else t[i] == VACANT
    {
    }
  }

  lemma VacantStays(w: World)
    ensures Refresh(VACANT, w).0 == VACANT
  {
  }

  function First(k: nat): (s: set<nat>)
    ensures |s| == k && forall i: nat :: i in s <==> i < k
  {
    if k == 0 then {} else First(k - 1) + {k - 1}
  }

  lemma AllTakenSelected(slots: Slots, all: seq<Path>, found: bool)
    requires Ready(slots, all)
    ensures AllSelected(slots, BothLinks, found) == First(|all|)
  {
    hide HasFirstChoice;
    forall i: nat | i < MAX_PATHS
      ensures Selected(slots, BothLinks, found, i) <==> i < |all|
    {
      if i < |all| {
        assert Taken(slots[i].(bonded := true), all[i]);
        assert slots[i].p == Some(all[i]) && slots[i].eligible && !slots[i].spare && slots[i].ipvPref == 0;
      }
    }
  }

  /** A new bond with both paths. */
  method BothPaths(policy: Policy, packetsPerLink: int32) returns (b: B.Bond)
    ensures fresh(b) && fresh(b.paths) && fresh(b.realIdxMap) && b.Sound()
    ensures b.policy == policy && b.packetsPerLink == packetsPerLink
    ensures Holding(b.paths[..], [FIRST, SECOND]) && b.numBondedPaths == 2
    ensures b.flows == map[] && b.lastFlowExpirationCheck == 0
    ensures DistinctPaths(b.paths[..]) && b.AllUsable(b.numBondedPaths)
  {
    hide Next, DistinctPaths, Counted, B.Mapped, Nominated, Selected, Lists, Refresh;
    var w := At0(BothLinks);
    b := new B.Bond(policy, packetsPerLink);
    ghost var start := b.Now();
    assert Holding(start.slots, []);
    b.NominatePath(FIRST, true, w);
    ghost var one := b.Now();
    Nominating(policy, start, [], FIRST, one);
    assert [] + [FIRST] == [FIRST];
    NextKeepsDistinct(policy, Nomination(FIRST, true, w), start, one);
    b.NominatePath(SECOND, true, w);
    Nominating(policy, one, [FIRST], SECOND, b.Now());
    assert [FIRST] + [SECOND] == [FIRST, SECOND];
    NextKeepsDistinct(policy, Nomination(SECOND, true, w), one, b.Now());
    NominatedFormed(policy, one, SECOND, w, b.Now());
    ghost var slots := Refreshed(Nominated(one.slots, SECOND, w), w);
    b.RebuiltIsUsable(slots, w.linkOf, UsableFound(slots));
  }

  lemma NominatedFormed(policy: Policy, pre: State, p: Path, w: World, post: State)
    requires Next(policy, Nomination(p, true, w), pre, post)
    ensures var slots := Refreshed(Nominated(pre.slots, p, w), w);
      Formed(slots, AllSelected(slots, w.linkOf, UsableFound(slots)), post.slots, post.idxMap, post.n)
  {
  }

  /** From its construction on a round-robin bond is fair: with two paths, a window sends on each equally often. */
  method FairFromTheStart(packetsPerLink: int32, freeRandomByte: nat) returns (sent: seq<Option<Path>>)
    requires packetsPerLink != 0 && packetsPerLink < 65536
    ensures var limit := if packetsPerLink < 0 then 0 else packetsPerLink;
      && |sent| == 2 * (limit + 1)
      && multiset(sent)[Some(FIRST)] == limit + 1
      && multiset(sent)[Some(SECOND)] == limit + 1
  {
    var b := BothPaths(BalanceRR, packetsPerLink);
    BothListed(b);
    ghost var x, y := b.PathAt(0), b.PathAt(1);
    sent := b.SendWindow(freeRandomByte);
    assert b.PathAt(0) == x && b.PathAt(1) == y;
    assert Some(FIRST) in {x, y} && Some(SECOND) in {x, y};
  }

  lemma BothListed(b: B.Bond)
    requires b.Sound() && Holding(b.paths[..], [FIRST, SECOND]) && b.numBondedPaths == 2 && b.AllUsable(2)
    ensures {b.PathAt(0), b.PathAt(1)} == {Some(FIRST), Some(SECOND)}
  {
    var s: Slots := b.paths[..];
    assert b.UsableAt(0) && b.UsableAt(1);
    assert b.realIdxMap[..][0] != b.realIdxMap[..][1];
    assert Taken(s[0], FIRST) && Taken(s[1], SECOND);
    assert forall i | 2 <= i < MAX_PATHS :: s[i].p.None?;
    assert forall j | 0 <= j < 2 :: b.paths[b.realIdxMap[j]] == s[b.realIdxMap[j]];
  }

  const FLOW := Flow(5, 0, 0, 0)

  predicate Both(s: Slots) { Taken(s[0], FIRST) && Taken(s[1], SECOND) }

  /** A packet of flow 5 comes in on the first path. */
  lemma Learning(pre: State, post: State)
    requires Both(pre.slots) && pre.n == 2 && pre.flows == map[]
    requires Next(BalanceXor, Incoming(FIRST, 5, 0), pre, post)
    ensures Both(post.slots) && post.n == 2
    ensures post.flows == map[5 := FLOW] && post.checked == pre.checked
  {
    hide SameDrift;
    var i := PathIdx(pre.slots, FIRST);
    assert pre.slots[0].p == Some(FIRST);
    assert i == 0;
  }

  /** Then the background task runs with the first link gone. */
  lemma LeftBehind(pre: State, post: State)
    requires Both(pre.slots) && pre.n == 2 && pre.flows == map[5 := FLOW] && pre.checked == 0
    requires Next(BalanceXor, Background(At0(FirstGone)), pre, post)
    ensures Stranded(post, 5, 0) && post.n > 0 && !Counted(post.slots, post.flows)
  {
    hide Refresh, UsableFound, Lists, Drift, Counted, SameDrift, Triggers;
    var w := At0(FirstGone);
    LinkGone(pre.slots[0]);
    RefreshTaken(pre.slots[1], SECOND, FirstGone);
    var mid :| Curated(pre, w, false, mid) && Tended(BalanceXor, mid, 0, post);
    StillBonded(pre, mid);
    assert mid.slots[0].p.None? && post.slots[0].p.None?;
    assert AllMoved(mid.flows, mid.slots, mid.idxMap, mid.n, 0) == mid.flows;
    StepDrift(BalanceXor, Background(w), pre, post, 0);
    OneFlow();
    CountedIsNoDrift(post.slots, post.flows);
  }

  lemma LinkGone(s: Slot)
    requires Taken(s, FIRST)
    ensures Refresh(s, At0(FirstGone)).0 == VACANT && Vacated(s, At0(FirstGone))
  {
  }

  lemma OneFlow()
    ensures |On(map[5 := FLOW], 0)| % 65536 == 1
  {
    assert On(map[5 := FLOW], 0) == {5};
  }

  /** The second path stays in the bond. */
  lemma StillBonded(pre: State, mid: State)
    requires Both(pre.slots) && pre.n == 2
    requires Curated(pre, At0(FirstGone), false, mid)
    ensures mid.n > 0
  {
    hide Refresh, UsableFound, Triggers, HasFirstChoice;
    var w := At0(FirstGone);
    var slots := Refreshed(pre.slots, w);
    RefreshTaken(pre.slots[1], SECOND, FirstGone);
    assert slots[1].p == Some(SECOND) && slots[1].eligible && !slots[1].spare && slots[1].ipvPref == 0;
    assert Selected(slots, FirstGone, UsableFound(slots), 1);
  }

  /** A send finds nothing to go out on, and leaves things as they are. */
  lemma SendsNothing(pre: State, post: State)
    requires Stranded(pre, 5, 0) && !Counted(pre.slots, pre.flows)
    requires Next(BalanceXor, Outgoing(5, 0, 0), pre, post)
    ensures Stranded(post, 5, 0) && post.n == pre.n && !Counted(post.slots, post.flows)
    ensures SentOn(pre, 5, 0) == None
  {
    StrandedSendsNothing(pre, 5, 0, 0);
    StrandedStays(BalanceXor, Outgoing(5, 0, 0), pre, post, 5, 0);
    CountedKept(pre.slots, pre.flows, post.slots, post.flows);
    hide Counted, Stranded, SentOn, Drift;
  }

  /** Two paths, a flow learned on the first one, and then its link goes away: the flow is left on an empty slot of a
      bond that is not empty, nothing can be sent on it, and the slot's counter is wrong. */
  method FlowLeftBehind() returns (b: B.Bond, p: Option<Path>)
    ensures fresh(b) && b.Sound() && b.numBondedPaths > 0
    ensures Stranded(b.Now(), 5, 0) && p == None
    ensures !Counted(b.paths[..], b.flows)
  {
    hide Next, Counted, B.Mapped, Stranded, SentOn, Taken;
    b := BothPaths(BalanceXor, 1);
    ghost var both := b.Now();
    b.RecordIncomingPacket(FIRST, 5, 0);
    ghost var learned := b.Now();
    Learning(both, learned);
    b.Tick(At0(FirstGone));
    ghost var left := b.Now();
    LeftBehind(learned, left);
    p := b.AppropriatePath(0, 5, 0);
    SendsNothing(left, b.Now());
  }

  /** Half a minute later, well past the trial: both paths were heard a moment ago. */
  const LATER := World(30000, true, 5000, 0, 0, BothLinks, p => 29999)

  /** A path that is heard and measured is still in the bond long after its trial. */
  method HealthyAfterTrial() returns (b: B.Bond)
    ensures fresh(b) && b.Sound() && InBond(b.Now(), 0, FIRST)
  {
    hide Next, B.Mapped, InBond, Taken, DistinctPaths;
    b := BothPaths(BalanceXor, 1);
    ghost var both := b.Now();
    assert Taken(both.slots[0], FIRST);
    b.ReceivedQoS(FIRST, 29000);
    ghost var measured := b.Now();
    Measuring(both, measured);
    b.Tick(LATER);
    StillIn(measured, b.Now());
  }

  lemma Measuring(pre: State, post: State)
    requires Next(BalanceXor, QoS(FIRST, 29000), pre, post) && DistinctPaths(pre.slots)
    requires Taken(pre.slots[0], FIRST)
    ensures Taken(post.slots[0].(lastQoSReceived := 0), FIRST) && post.slots[0].lastQoSReceived == 29000
  {
    MeasuredNow(BalanceXor, FIRST, 29000, pre, post, 0);
  }

  lemma StillIn(pre: State, post: State)
    requires Next(BalanceXor, Background(LATER), pre, post)
    requires Taken(pre.slots[0].(lastQoSReceived := 0), FIRST) && pre.slots[0].lastQoSReceived == 29000
    ensures InBond(post, 0, FIRST)
  {
    FitStays(BalanceXor, Background(LATER), pre, post, 0, FIRST);
  }
}
