/** Bond formation under the balance policies, round-robin striping and flow assignment. */
module Bond {
  import opened Widths
  import opened Wrappers
  import opened BondPaths
  import opened BondFlows
  import opened BondStripe
  import opened BondSteps

  ghost predicate Mapped(s: Slots, m: seq<nat>, n: nat) {
    && |m| == MAX_PATHS && n <= MAX_PATHS && (forall j, k | 0 <= j < k < n :: m[j] != m[k])
    && forall j | 0 <= j < n :: m[j] < MAX_PATHS && s[m[j]].eligible && (s[m[j]].bonded || s[m[j]].p.None?)
  }

  lemma UpKeeps(s: Slots, i: nat, m: seq<nat>, n: nat)
    requires i < MAX_PATHS
    ensures SameButCounts(s, CountUp(s, i)) && (Mapped(s, m, n) ==> Mapped(CountUp(s, i), m, n))
  {
  }

  lemma DownKeeps(s: Slots, i: nat, m: seq<nat>, n: nat)
    requires i < MAX_PATHS
    ensures SameButCounts(s, CountDown(s, i)) && (Mapped(s, m, n) ==> Mapped(CountDown(s, i), m, n))
  {
  }

  lemma SameSelf(s: Slots, flows: Flows)
    ensures SameButCounts(s, s) && SameDrift(s, flows, s, flows)
  {
  }

  lemma ForgettingStart(flows: Flows, age: uint64, t: int)
    ensures Forgetting(flows, flows, flows.Keys, age, t)
  {
  }

  lemma MovedAlike(s: Slots, t: Slots, f: Flow, m: seq<nat>, n: nat, now: int)
    requires SameButCounts(s, t)
    ensures Moved(f, s, m, n, now) == Moved(f, t, m, n, now)
  {
    hide OffDeadPath, SameButCounts;
    DeadAlike(s, t, f);
  }

  /** Every flow that was moved is off dead paths. */
  lemma AllOffDead(flows: Flows, s: Slots, m: seq<nat>, n: nat, now: int)
    requires Mapped(s, m, n) && n > 0
    ensures var moved := AllMoved(flows, s, m, n, now);
      Placed(moved) && forall k | k in moved :: OffDeadPath(s, moved[k])
  {
    hide Hashed;
  }

  lemma AllMovedAlike(flows: Flows, s: Slots, t: Slots, m: seq<nat>, n: nat, now: int)
    requires SameButCounts(s, t)
    ensures AllMoved(flows, s, m, n, now) == AllMoved(flows, t, m, n, now)
  {
    hide Moved, SameButCounts;
    forall k | k in flows
      ensures Moved(flows[k], s, m, n, now) == Moved(flows[k], t, m, n, now)
    {
      MovedAlike(s, t, flows[k], m, n, now);
    }
  }

  lemma MovingStart(flows: Flows, s: Slots, m: seq<nat>, n: nat, now: int)
    ensures Moving(flows, flows, flows.Keys, s, m, n, now)
  {
  }

  lemma LearnToggled(pre: State, i: nat, flowId: int32, now: int)
    requires i < MAX_PATHS
    ensures FlowsLearned(pre.(slots := Toggled(pre.slots, i, now)), i, flowId, now) == FlowsLearned(pre, i, flowId, now)
  {
  }

  lemma ToggledKeeps(s: Slots, i: nat, now: int, m: seq<nat>, n: nat)
    requires i < MAX_PATHS && Mapped(s, m, n)
    ensures Mapped(Toggled(s, i, now), m, n) && Mapped(Measured(s, i, now), m, n)
  {
  }

  /** Unless a rebuild is triggered, a bonded path that loses its eligibility has left the bond. */
  lemma StillMapped(s: Slots, w: World, m: seq<nat>, n: nat)
    requires Mapped(s, m, n) && !Triggers(s, w)
    ensures Mapped(Refreshed(s, w), m, n)
  {
    forall j | 0 <= j < n
      ensures var t := Refreshed(s, w)[m[j]]; t.eligible && (t.bonded || t.p.None?)
    {
      assert !Refresh(s[m[j]], w).1;
    }
  }

  // What the four loops over a link's paths look for.
  predicate UsableSpare(s: Slot) { s.p.Some? && s.eligible && Allowed(s) && s.spare }
  predicate UsablePrimary(s: Slot) { s.p.Some? && s.eligible && Allowed(s) && !s.spare }
  predicate AnyPrimary(s: Slot) { s.p.Some? && s.eligible && !s.spare }

  ghost predicate IgnoresBonded(pick: Slot -> bool) { forall s: Slot, b: bool :: pick(s.(bonded := b)) == pick(s) }

  lemma PicksIgnoreBonded()
    ensures IgnoresBonded(UsableSpare) && IgnoresBonded(UsablePrimary) && IgnoresBonded(FirstChoice)
    ensures IgnoresBonded(AnyPrimary)
  {
  }

  /** The slots of a list that a loop picks. */
  ghost function Picked(base: Slots, idxs: seq<nat>, pick: Slot -> bool): set<nat> {
    set i | i in idxs && i < MAX_PATHS && pick(base[i])
  }

  /** The paths of each link, as the first loop of a rebuild collects them. */
  type LinkMap = map<Link, seq<nat>>

  ghost predicate Grouped(s: Slots, linkOf: Path -> Option<Link>, m: LinkMap, n: nat) {
    && n <= MAX_PATHS
    && (forall i | 0 <= i < n && LinkAt(s, linkOf, i).Some? ::
       LinkAt(s, linkOf, i).value in m && i in m[LinkAt(s, linkOf, i).value])
    && forall link | link in m ::
         && (forall i | i in m[link] :: i < n && LinkAt(s, linkOf, i) == Some(link))
         && forall j, k | 0 <= j < k < |m[link]| :: m[link][j] != m[link][k]
  }

  lemma GroupedNext(s: Slots, linkOf: Path -> Option<Link>, m: LinkMap, i: nat)
    requires Grouped(s, linkOf, m, i) && i < MAX_PATHS
    ensures var l := LinkAt(s, linkOf, i);
      Grouped(s, linkOf, if l.None? then m else m[l.value := (if l.value in m then m[l.value] else []) + [i]], i + 1)
  {
  }

  lemma DistinctSlots(s: Slots, m: seq<nat>, n: nat, j: nat, k: nat)
    requires Mapped(s, m, n) && DistinctPaths(s) && j < n && k < n && j != k && s[m[j]].p.Some?
    ensures s[m[j]].p != s[m[k]].p
  {
    assert m[j] != m[k];
  }

  lemma NoSends(s: Stripe, perLink: nat, n: nat)
    ensures After(s, perLink, n, 0) == s && forall j :: Uses(s, perLink, n, 0, j) == 0
  {
  }

  lemma OneSend(s: Stripe, perLink: nat, n: nat, i: nat, j: nat)
    ensures var t := Send(After(s, perLink, n, i), perLink, n);
      && After(s, perLink, n, i + 1) == t
      && Uses(s, perLink, n, i + 1, j) == Uses(s, perLink, n, i, j) + if t.idx == j then 1 else 0
  {
    hide Send;
    Together(s, perLink, n, i, 1, j);
    var here := After(s, perLink, n, i);
    assert After(here, perLink, n, 1) == After(Send(here, perLink, n), perLink, n, 0);
  }

  class Bond {
    const policy: Policy
    const packetsPerLink: int32
    const paths: array<Slot>
    const realIdxMap: array<nat>
    var numBondedPaths: nat
    var rrIdx: nat
    var rrPacketsSentOnCurrLink: uint16
    var flows: Flows
    var lastFlowExpirationCheck: uint64

    ghost predicate Shape()
    {
      paths.Length == MAX_PATHS && realIdxMap.Length == MAX_PATHS
    }

    /** The slots are those of base, but exactly the slots of sel are bonded and listed. */
    ghost predicate Bonding(base: Slots, sel: set<nat>, n: nat)
      reads paths, realIdxMap
    {
      && Shape() && (forall i | i in sel :: i < MAX_PATHS)
      && (forall i | 0 <= i < MAX_PATHS :: paths[i] == base[i].(bonded := i in sel))
      && Lists(realIdxMap[..], n, sel)
    }

    /** Between operations: the mapped slots are eligible, and bonded unless they were vacated; flows have a slot. */
    ghost predicate Sound()
      reads this, paths, realIdxMap
    {
      Shape() && Mapped(paths[..], realIdxMap[..], numBondedPaths) && InRange() && Placed(flows)
    }

    ghost predicate InRange()
      reads this
    {
      policy == BalanceRR ==> rrIdx == 0 || rrIdx < numBondedPaths
    }

    ghost function Now(): State
      reads this, paths, realIdxMap
      requires Shape()
    {
      State(paths[..], realIdxMap[..], numBondedPaths, flows, lastFlowExpirationCheck)
    }

    ghost function Striper(): Stripe
      reads this
    {
      Stripe(rrIdx, rrPacketsSentOnCurrLink)
    }

    constructor (policy: Policy, packetsPerLink: int32)
      ensures Sound() && fresh(paths) && fresh(realIdxMap)
      ensures this.policy == policy && this.packetsPerLink == packetsPerLink
      ensures numBondedPaths == 0 && flows == map[] && lastFlowExpirationCheck == 0
      ensures forall i | 0 <= i < MAX_PATHS :: paths[i] == VACANT
      ensures Counted(paths[..], flows) && DistinctPaths(paths[..])
    {
      this.policy, this.packetsPerLink := policy, packetsPerLink;
      paths := new Slot[MAX_PATHS](i => VACANT);
      realIdxMap := new nat[MAX_PATHS](i => if i == 0 then MAX_PATHS else 0);
      numBondedPaths, rrIdx, rrPacketsSentOnCurrLink, flows, lastFlowExpirationCheck := 0, 0, 0, map[], 0;
      new;
      forall i ensures On(flows, i) == {} {}
    }

    method AddPathToBond(nominatedIdx: nat, bondedIdx: nat, ghost base: Slots, ghost sel: set<nat>)
      requires Bonding(base, sel, bondedIdx) && nominatedIdx < MAX_PATHS && nominatedIdx !in sel
      modifies realIdxMap, paths
      ensures Bonding(base, sel + {nominatedIdx}, bondedIdx + 1)
    {
      RoomLeft(realIdxMap[..], bondedIdx, sel, nominatedIdx);
      hide Lists;
      ghost var m := realIdxMap[..];
      realIdxMap[bondedIdx] := nominatedIdx;
      paths[nominatedIdx] := paths[nominatedIdx].(bonded := true);
      assert realIdxMap[..] == m[bondedIdx := nominatedIdx];
    }

    /** One of the loops over a link's paths: bonds those that pick accepts. */
    method AddWhere(idxs: seq<nat>, pick: Slot -> bool, n: nat, ghost base: Slots, ghost sel: set<nat>)
        returns (n': nat, any: bool)
      requires Bonding(base, sel, n) && IgnoresBonded(pick)
      requires (forall j, k | 0 <= j < k < |idxs| :: idxs[j] != idxs[k]) && forall i | i in idxs :: i < MAX_PATHS
      requires sel !! Picked(base, idxs, pick)
      modifies realIdxMap, paths
      ensures Bonding(base, sel + Picked(base, idxs, pick), n') && any == (Picked(base, idxs, pick) != {})
    {
      hide Bonding;
      n', any := n, false;
      ghost var now := sel;
      for j := 0 to |idxs|
        invariant Bonding(base, now, n') && now == sel + Picked(base, idxs[..j], pick)
        invariant any == (Picked(base, idxs[..j], pick) != {})
      {
        var idx := idxs[j];
        assert idx in idxs;
        PickedNext(base, idxs, pick, j);
        SlotNow(base, now, n', idx);
        if pick(paths[idx]) {
          AddPathToBond(idx, n', base, now);
          now := now + {idx};
          n', any := n' + 1, true;
        }
      }
      assert idxs[..|idxs|] == idxs;
    }

    /** What a rebuild does for one link. */
    method BondLink(link: Link, idxs: seq<nat>, linkOf: Path -> Option<Link>, foundUsable: bool, n: nat,
        ghost base: Slots, ghost sel: set<nat>) returns (n': nat)
      requires Bonding(base, sel, n) && PathsOf(base, linkOf, link, idxs) && forall i | i in sel :: i !in idxs
      modifies realIdxMap, paths
      ensures Bonding(base, sel + SelectedOn(base, linkOf, foundUsable, link), n')
    {
      hide Bonding;
      PicksIgnoreBonded();
      n' := n;
      ghost var now := sel;
      var any;
      if !foundUsable {
        n', any := AddWhere(idxs, UsableSpare, n', base, now);
        now := now + Picked(base, idxs, UsableSpare);
      }
      ghost var spares := now;
      if link.ipvPref == 0 {
        n', any := AddWhere(idxs, UsablePrimary, n', base, now);
        now := now + Picked(base, idxs, UsablePrimary);
      }
      if link.ipvPref == 4 || link.ipvPref == 6 {
        n', any := AddWhere(idxs, UsablePrimary, n', base, now);
        now := now + Picked(base, idxs, UsablePrimary);
      }
      if link.ipvPref == 46 || link.ipvPref == 64 {
        n', any := AddWhere(idxs, FirstChoice, n', base, now);
        now := now + Picked(base, idxs, FirstChoice);
        if !any {
          n', any := AddWhere(idxs, AnyPrimary, n', base, now);
          now := now + Picked(base, idxs, AnyPrimary);
        }
      }
      SelectedOnIs(base, linkOf, foundUsable, link, idxs);
      assert now == sel + SelectedOn(base, linkOf, foundUsable, link);
    }

    /** Clears the bond and forms it again from the slots as they are. */
    method Rebuild(linkOf: Path -> Option<Link>, foundUsable: bool) returns (n: nat)
      requires Shape()
      modifies realIdxMap, paths
      ensures Bonding(old(paths[..]), AllSelected(old(paths[..]), linkOf, foundUsable), n)
    {
      hide Bonding, Grouped;
      ghost var base: Slots := paths[..];
      ClearBond(base);
      var linkMap := MapLinks(linkOf, base);
      var links := linkMap.Keys;
      ghost var sel := {};
      n := 0;
      while links != {}
        invariant links <= linkMap.Keys && Bonding(base, sel, n)
        invariant sel == SelectedOver(base, linkOf, foundUsable, linkMap.Keys - links)
        decreases |links|
      {
        var link :| link in links;
        GroupedPaths(base, linkOf, linkMap, link);
        n := BondLink(link, linkMap[link], linkOf, foundUsable, n, base, sel);
        sel := sel + SelectedOn(base, linkOf, foundUsable, link);
        assert linkMap.Keys - (links - {link}) == (linkMap.Keys - links) + {link};
        links := links - {link};
      }
      AllGrouped(base, linkOf, foundUsable, linkMap);
      assert linkMap.Keys - links == linkMap.Keys;
    }

    /** The eligibility loop. */
    method RefreshAll(w: World) returns (rebuild: bool)
      requires Shape()
      modifies paths
      ensures paths[..] == Refreshed(old(paths[..]), w) && rebuild == Triggers(old(paths[..]), w)
    {
      rebuild := false;
      ghost var base: Slots := paths[..];
      for i := 0 to MAX_PATHS
        invariant forall j | 0 <= j < MAX_PATHS :: paths[j] == if j < i then Refresh(base[j], w).0 else base[j]
        invariant rebuild == exists j | 0 <= j < i :: Refresh(base[j], w).1
      {
        hide Refresh;
        var (slot, go) := Refresh(paths[i], w);
        paths[i] := slot;
        rebuild := rebuild || go;
      }
    }

    method UsablePrimaryPath() returns (found: bool)
      requires Shape()
      ensures found == UsableFound(paths[..])
    {
      found := false;
      for i := 0 to MAX_PATHS
        invariant found == exists j | 0 <= j < i :: Usable(paths[j])
      {
        if Usable(paths[i]) { found := true; }
      }
      assert forall j | 0 <= j < MAX_PATHS :: paths[..][j] == paths[j];
    }

    method CurateBond(w: World, rebuildBond: bool)
      requires Shape() && (rebuildBond || Sound()) && InRange() && Placed(flows)
      modifies this, paths, realIdxMap
      ensures Sound() && Curated(old(Now()), w, rebuildBond, Now())
      ensures if policy == BalanceRR && Rebuilds(old(Now()), w, rebuildBond) then FreshStripe()
        else Striper() == old(Striper())
    {
      hide Bonding, Refreshed, Mapped, Lists, Selected, Refresh, Formed, Placed;
      ghost var pre := Now();
      var go := RefreshAll(w);
      go := rebuildBond || go;
      ghost var slots: Slots := paths[..];
      var found := UsablePrimaryPath();
      go := go || !found;
      if numBondedPaths == 0 {
        go := true;
      }
      if go {
        Reform(w.linkOf, found);
      } else {
        StillMapped(pre.slots, w, realIdxMap[..], numBondedPaths);
      }
    }

    /** The striper after a rebuild: the next send switches paths, unless the limit is beyond its counter. */
    ghost predicate FreshStripe()
      reads this
    {
      rrIdx == 0 && rrPacketsSentOnCurrLink == packetsPerLink % 65536
    }

    /** The rebuild, and the reset of the striper that goes with it. */
    method Reform(linkOf: Path -> Option<Link>, found: bool)
      requires Shape() && Placed(flows)
      modifies this, paths, realIdxMap
      ensures Sound() && flows == old(flows) && lastFlowExpirationCheck == old(lastFlowExpirationCheck)
      ensures Formed(old(paths[..]), AllSelected(old(paths[..]), linkOf, found), paths[..], realIdxMap[..],
        numBondedPaths)
      ensures if policy == BalanceRR then FreshStripe() else Striper() == old(Striper())
    {
      hide Bonding, Mapped, Lists, Selected, Formed;
      ghost var slots: Slots := paths[..];
      numBondedPaths := Rebuild(linkOf, found);
      BondingMaps(slots, linkOf, found, numBondedPaths);
      if policy == BalanceRR {
        rrPacketsSentOnCurrLink := packetsPerLink % 65536;
        rrIdx := 0;
      }
    }

    lemma BondingMaps(slots: Slots, linkOf: Path -> Option<Link>, found: bool, n: nat)
      requires Bonding(slots, AllSelected(slots, linkOf, found), n)
      ensures Mapped(paths[..], realIdxMap[..], n)
      ensures Formed(slots, AllSelected(slots, linkOf, found), paths[..], realIdxMap[..], n)
    {
    }

    // ---- Round robin ----

    /** The j-th mapped slot can carry traffic. */
    predicate UsableAt(j: nat)
      requires Shape() && j < MAX_PATHS
      reads paths, realIdxMap
    {
      realIdxMap[j] < MAX_PATHS && paths[realIdxMap[j]].p.Some? && paths[realIdxMap[j]].eligible
    }

    ghost predicate UsableAfter(e: nat)
      requires Sound() && rrIdx < numBondedPaths && e < numBondedPaths
      reads this, paths, realIdxMap
    {
      UsableAt(Wrap(rrIdx + e, numBondedPaths))
    }

    /** The next usable index after the current one, d places on, or the current one if there is none. */
    method NextStripe() returns (idx: nat, ghost d: nat)
      requires Sound() && 0 < numBondedPaths && rrIdx < numBondedPaths
      ensures d < numBondedPaths && idx == Wrap(rrIdx + d, numBondedPaths) && idx < numBondedPaths
      ensures d > 0 ==> UsableAt(idx)
      ensures forall e | 1 <= e < (if d == 0 then numBondedPaths else d) :: !UsableAfter(e)
    {
      var tempIdx := rrIdx;
      for searchCount := 0 to numBondedPaths - 1
        invariant tempIdx == Wrap(rrIdx + searchCount, numBondedPaths)
        invariant forall e | 1 <= e <= searchCount :: !UsableAfter(e)
      {
        tempIdx := if tempIdx == numBondedPaths - 1 then 0 else tempIdx + 1;
        assert UsableAfter(searchCount + 1) == UsableAt(tempIdx);
        if realIdxMap[tempIdx] != MAX_PATHS {
          if paths[realIdxMap[tempIdx]].p.Some? && paths[realIdxMap[tempIdx]].eligible {
            return tempIdx, searchCount + 1;
          }
        }
      }
      return rrIdx, 0;
    }

    /** The limit of the striper: a negative one switches with every send, as zero would. */
    function Limit(): nat { if packetsPerLink < 0 then 0 else packetsPerLink }

    /** getAppropriatePath under balance-rr. */
    method PathRR(freeRandomByte: nat) returns (p: Option<Path>)
      requires Sound() && policy == BalanceRR
      modifies `rrIdx, `rrPacketsSentOnCurrLink
      ensures Sound()
      ensures numBondedPaths == 0 || packetsPerLink == 0 ==>
        rrIdx == old(rrIdx) && rrPacketsSentOnCurrLink == old(rrPacketsSentOnCurrLink)
      ensures if numBondedPaths == 0 then p == None
        else if packetsPerLink == 0 then p == paths[realIdxMap[freeRandomByte % numBondedPaths]].p
        else p == paths[realIdxMap[rrIdx]].p
      ensures packetsPerLink != 0 && numBondedPaths > 0 && AllUsable(numBondedPaths) ==>
        p.Some? && Striper() == Send(old(Striper()), Limit(), numBondedPaths)
      ensures old(rrPacketsSentOnCurrLink) < packetsPerLink ==> rrIdx == old(rrIdx)
    {
      if numBondedPaths == 0 {
        return None;
      }
      if packetsPerLink == 0 {
        return paths[realIdxMap[freeRandomByte % numBondedPaths]].p;
      }
      Stride();
      assert AllUsable(numBondedPaths) ==> UsableAt(rrIdx);
      return paths[realIdxMap[rrIdx]].p;
    }

    /** Counts a send on the current path, or switches to the next one. */
    method Stride()
      requires Sound() && policy == BalanceRR && 0 < numBondedPaths && packetsPerLink != 0
      modifies `rrIdx, `rrPacketsSentOnCurrLink
      ensures Sound()
      ensures AllUsable(numBondedPaths) ==> Striper() == Send(old(Striper()), Limit(), numBondedPaths)
      ensures old(rrPacketsSentOnCurrLink) < packetsPerLink ==> rrIdx == old(rrIdx)
    {
      if rrPacketsSentOnCurrLink < packetsPerLink {
        rrPacketsSentOnCurrLink := (rrPacketsSentOnCurrLink + 1) % 65536;
        return;
      }
      rrPacketsSentOnCurrLink := 0;
      if numBondedPaths == 1 || rrIdx >= MAX_PATHS - 1 {
        rrIdx := 0;
      } else {
        var idx;
        ghost var d;
        idx, d := NextStripe();
        if AllUsable(numBondedPaths) {
          assert UsableAt(Wrap(rrIdx + 1, numBondedPaths));
          assert UsableAfter(1);
          assert d == 1;
        }
        rrIdx := idx;
      }
    }

    /** A rebuild leaves every bonded path usable. */
    lemma RebuiltIsUsable(slots: Slots, linkOf: Path -> Option<Link>, found: bool)
      requires Shape() && Formed(slots, AllSelected(slots, linkOf, found), paths[..], realIdxMap[..], numBondedPaths)
      ensures AllUsable(numBondedPaths)
    {
      forall j | 0 <= j < numBondedPaths
        ensures UsableAt(j)
      {
        assert realIdxMap[..][j] in AllSelected(slots, linkOf, found);
        assert paths[..][realIdxMap[j]] == slots[realIdxMap[j]].(bonded := true);
      }
    }

    ghost predicate AllUsable(n: nat)
      requires Shape() && n <= MAX_PATHS
      reads paths, realIdxMap
    {
      forall j | 0 <= j < n :: UsableAt(j)
    }

    /** Sends in a row: as long as every bonded path is usable, each is used as often as the pure striper says. */
    method SendMany(count: nat, freeRandomByte: nat) returns (sent: seq<Option<Path>>)
      requires Sound() && policy == BalanceRR && packetsPerLink != 0 && 0 < numBondedPaths
      requires AllUsable(numBondedPaths) && DistinctPaths(paths[..])
      modifies `rrIdx, `rrPacketsSentOnCurrLink
      ensures Sound() && |sent| == count && Striper() == After(old(Striper()), Limit(), numBondedPaths, count)
      ensures forall j | 0 <= j < numBondedPaths ::
        multiset(sent)[PathAt(j)] == Uses(old(Striper()), Limit(), numBondedPaths, count, j)
    {
      hide Send, DistinctPaths, After, Uses;
      ghost var start, n := Striper(), numBondedPaths;
      sent := [];
      NoSends(start, Limit(), n);
      for i := 0 to count
        invariant Sound() && |sent| == i && Striper() == After(start, Limit(), n, i)
        invariant forall j | 0 <= j < n :: multiset(sent)[PathAt(j)] == Uses(start, Limit(), n, i, j)
      {
        var p := PathRR(freeRandomByte);
        assert UsableAt(rrIdx) && p == PathAt(rrIdx);
        forall j | 0 <= j < n
          ensures PathAt(j) == p <==> j == rrIdx
          ensures Uses(start, Limit(), n, i + 1, j) == Uses(start, Limit(), n, i, j) + if j == rrIdx then 1 else 0
        {
          PathsApart(j, rrIdx);
          OneSend(start, Limit(), n, i, j);
        }
        OneSend(start, Limit(), n, i, 0);
        sent := sent + [p];
      }
    }

    /** A window of sends uses each bonded path equally often, wherever the striper stands. */
    method SendWindow(freeRandomByte: nat) returns (sent: seq<Option<Path>>)
      requires Sound() && policy == BalanceRR && packetsPerLink != 0 && packetsPerLink < 65536 && 0 < numBondedPaths
      requires AllUsable(numBondedPaths) && DistinctPaths(paths[..])
      modifies `rrIdx, `rrPacketsSentOnCurrLink
      ensures Sound() && |sent| == numBondedPaths * (Limit() + 1)
      ensures forall j | 0 <= j < numBondedPaths :: multiset(sent)[PathAt(j)] == Limit() + 1
    {
      hide Mapped, DistinctPaths, Uses, After, AllUsable;
      ghost var start, n := Striper(), numBondedPaths;
      sent := SendMany(Stripes(numBondedPaths, Limit()), freeRandomByte);
      forall j | 0 <= j < n
        ensures Uses(start, Limit(), n, Stripes(n, Limit()), j) == Limit() + 1
      {
        WindowIsFair(start, Limit(), n, j);
        assert Fair(start, Limit(), n, j);
      }
    }

    /** The path that the j-th entry of the index map stands for. */
    function PathAt(j: nat): Option<Path>
      requires Shape() && j < MAX_PATHS
      reads paths, realIdxMap
    {
      if realIdxMap[j] < MAX_PATHS then paths[realIdxMap[j]].p else None
    }

    lemma PathsApart(j: nat, k: nat)
      requires Sound() && j < numBondedPaths && k < numBondedPaths && AllUsable(numBondedPaths)
      requires DistinctPaths(paths[..])
      ensures PathAt(j) == PathAt(k) <==> j == k
    {
      assert UsableAt(j) && UsableAt(k);
      if j != k { DistinctSlots(paths[..], realIdxMap[..], numBondedPaths, j, k); }
    }

    // ---- Flows under balance-xor ----

    method IncCount(i: nat)
      requires Shape() && i < MAX_PATHS
      modifies paths
      ensures paths[..] == CountUp(old(paths[..]), i)
    {
      paths[i] := paths[i].(assignedFlowCount := Up(paths[i].assignedFlowCount));
    }

    method DecCount(i: nat)
      requires Shape() && i < MAX_PATHS
      modifies paths
      ensures paths[..] == CountDown(old(paths[..]), i)
    {
      paths[i] := paths[i].(assignedFlowCount := Down(paths[i].assignedFlowCount));
    }

    /** assignFlowToBondedPath: the flow's new place and the counter of its new slot. */
    method AssignFlow(flow: Flow, now: int) returns (placed: Flow, ok: bool)
      requires Sound() && policy == BalanceXor
      modifies paths
      ensures ok == (numBondedPaths > 0)
      ensures !ok ==> placed == flow && paths[..] == old(paths[..])
      ensures ok ==>
        var i := realIdxMap[Hashed(flow.id, numBondedPaths)];
        i < MAX_PATHS && placed == flow.(assignedPath := i, lastPathReassignment := now)
        && paths[..] == CountUp(old(paths[..]), i) && OffDeadPath(paths[..], placed)
    {
      if numBondedPaths == 0 {
        return flow, false;
      }
      var bondedIdx := Abs(TruncMod(flow.id, numBondedPaths));
      IncCount(realIdxMap[bondedIdx]);
      return flow.(assignedPath := realIdxMap[bondedIdx], lastPathReassignment := now), true;
    }

    /** createFlow, for a flow that is not in the table; pathIdx is MAX_PATHS when the bond is to choose. */
    method CreateFlow(pathIdx: nat, flowId: int32, now: int) returns (created: bool)
      requires Sound() && pathIdx <= MAX_PATHS && (policy == BalanceXor || pathIdx < MAX_PATHS) && Key(flowId) !in flows
      modifies paths, `flows
      ensures Sound() && SameBond(old(Now()), Now()) && created == (numBondedPaths > 0)
      ensures if !created then flows == old(flows)
        else
          var i := if pathIdx < MAX_PATHS then pathIdx else Place(flowId, realIdxMap[..], numBondedPaths);
          flows == old(flows)[Key(flowId) := Flow(flowId, now, now, i)]
    {
      hide SameDrift;
      ghost var before: Slots := paths[..];
      SameSelf(before, flows);
      if numBondedPaths == 0 {
        return false;
      }
      NeverFull(flows, flowId);
      if |flows| >= ZT_FLOW_MAX_COUNT {
        assert false;
      }
      var flow := Flow(flowId, now, 0, MAX_PATHS);
      if pathIdx != MAX_PATHS {
        flow := flow.(assignedPath := pathIdx, lastPathReassignment := now);
        IncCount(pathIdx);
      } else {
        var ok;
        flow, ok := AssignFlow(flow, now);
      }
      DriftAdd(before, flows, Key(flowId), flow);
      flows := flows[Key(flowId) := flow];
      UpKeeps(before, flow.assignedPath, realIdxMap[..], numBondedPaths);
      return true;
    }

    /** forgetFlowsWhenNecessary by age. */
    method ForgetByAge(age: uint64, now: int)
      requires Sound()
      modifies paths, `flows
      ensures Sound() && SameBond(old(Now()), Now()) && flows == Unexpired(old(flows), age, now)
    {
      hide SameDrift, SameButCounts, Expired, Forgetting, Mapped;
      ghost var before, slots: Slots := flows, paths[..];
      var todo := flows.Keys;
      ForgettingStart(flows, age, now);
      SameSelf(slots, flows);
      while todo != {}
        invariant Sound() && SameButCounts(slots, paths[..]) && SameDrift(slots, before, paths[..], flows)
        invariant Forgetting(before, flows, todo, age, now) && todo <= before.Keys
        decreases |todo|
      {
        var k :| k in todo;
        ForgetStep(before, flows, todo, k, age, now);
        ghost var s: Slots := paths[..];
        if Expired(flows[k], age, now) {
          var i := flows[k].assignedPath;
          DriftRemove(s, flows, k);
          DownKeeps(s, i, realIdxMap[..], numBondedPaths);
          DecCount(i);
          SameButCountsTwice(slots, s, paths[..]);
          SameDriftTwice(slots, before, s, flows, paths[..], flows - {k});
          flows := flows - {k};
        }
        todo := todo - {k};
      }
      ForgetEnd(before, flows, age, now);
    }

    /** Moves one flow if its slot is occupied and not eligible. */
    method MoveFlow(k: int16, now: int)
      requires Sound() && policy == BalanceXor && numBondedPaths > 0 && k in flows
      modifies paths, `flows
      ensures Sound() && SameBond(old(Now()), Now())
      ensures flows == old(flows)[k := Moved(old(flows)[k], old(paths[..]), realIdxMap[..], numBondedPaths, now)]
    {
      hide SameDrift, Hashed;
      ghost var s: Slots := paths[..];
      SameSelf(s, flows);
      var originalPathIdx := flows[k].assignedPath;
      if paths[originalPathIdx].p.Some? && !paths[originalPathIdx].eligible {
        var f, ok := AssignFlow(flows[k], now);
        UpKeeps(s, f.assignedPath, realIdxMap[..], numBondedPaths);
        DownKeeps(paths[..], originalPathIdx, realIdxMap[..], numBondedPaths);
        DriftMove(s, flows, k, f);
        ghost var t: Slots := paths[..];
        if ok {
          DecCount(originalPathIdx);
        }
        SameButCountsTwice(s, t, paths[..]);
        flows := flows[k := f];
      } else {
        assert flows == flows[k := flows[k]];
      }
    }

    /** The loop of processBalanceTasks that moves flows from dead paths. */
    method MoveDeadFlows(now: int)
      requires Sound() && policy == BalanceXor && numBondedPaths > 0
      modifies paths, `flows
      ensures Sound() && SameBond(old(Now()), Now())
      ensures flows == AllMoved(old(flows), old(paths[..]), realIdxMap[..], numBondedPaths, now)
    {
      hide SameDrift, SameButCounts, Moving, Moved, Mapped;
      ghost var before, slots: Slots := flows, paths[..];
      ghost var m, n := realIdxMap[..], numBondedPaths;
      var todo := flows.Keys;
      MovingStart(flows, slots, m, n, now);
      SameSelf(slots, flows);
      while todo != {}
        invariant Sound() && SameButCounts(slots, paths[..]) && SameDrift(slots, before, paths[..], flows)
        invariant Moving(before, flows, todo, slots, m, n, now) && todo <= before.Keys
        decreases |todo|
      {
        var k :| k in todo;
        MoveStep(before, flows, todo, slots, m, n, now, k);
        ghost var s: Slots, f := paths[..], flows;
        MovedAlike(slots, s, before[k], m, n, now);
        MoveFlow(k, now);
        SameButCountsTwice(slots, s, paths[..]);
        SameDriftTwice(slots, before, s, f, paths[..], flows);
        todo := todo - {k};
      }
      MoveEnd(before, flows, slots, m, n, now);
    }

    /** processBalanceTasks. */
    method ProcessBalanceTasks(now: int)
      requires Sound()
      modifies paths, `flows, `lastFlowExpirationCheck
      ensures Sound() && Tended(policy, old(Now()), now, Now())
      ensures numBondedPaths > 0 && policy == BalanceXor ==> forall k | k in flows :: OffDeadPath(paths[..], flows[k])
    {
      hide SameDrift, SameButCounts, Mapped, Expired, OffDeadPath, Moved, Placed;
      ghost var slots: Slots, before := paths[..], flows;
      SameSelf(slots, flows);
      if numBondedPaths == 0 {
        return;
      }
      if Unsigned(now - lastFlowExpirationCheck) > ZT_PEER_PATH_EXPIRATION {
        ForgetByAge(ZT_PEER_PATH_EXPIRATION, now);
        lastFlowExpirationCheck := Unsigned(now);
      }
      if policy == BalanceXor {
        ghost var s: Slots, kept := paths[..], flows;
        MoveDeadFlows(now);
        SameButCountsTwice(slots, s, paths[..]);
        SameDriftTwice(slots, before, s, kept, paths[..], flows);
        AllMovedAlike(kept, slots, s, realIdxMap[..], numBondedPaths, now);
        AllMovedAlike(kept, slots, paths[..], realIdxMap[..], numBondedPaths, now);
        AllOffDead(kept, paths[..], realIdxMap[..], numBondedPaths, now);
      }
    }

    /** The background task of a balance policy: curate, then look after the flows. */
    method Tick(w: World)
      requires Sound()
      modifies this, paths, realIdxMap
      ensures Sound() && Next(policy, Background(w), old(Now()), Now())
      ensures numBondedPaths > 0 && policy == BalanceXor ==> forall k | k in flows :: OffDeadPath(paths[..], flows[k])
    {
      hide Mapped, Placed, OffDeadPath, Curated, Tended;
      CurateBond(w, false);
      ProcessBalanceTasks(w.now);
    }

    /** getAppropriatePath under balance-xor. */
    method PathXor(now: int, flowId: int32, freeRandomByte: nat) returns (p: Option<Path>)
      requires Sound() && policy == BalanceXor
      modifies paths, `flows
      ensures Sound() && SameBond(old(Now()), Now())
      ensures flows == FlowsSent(old(Now()), flowId, now) && p == SentOn(old(Now()), flowId, freeRandomByte)
    {
      hide SameDrift, Hashed;
      ghost var slots: Slots := paths[..];
      SameSelf(slots, flows);
      if numBondedPaths == 0 {
        return None;
      }
      if flowId == -1 {
        return paths[realIdxMap[freeRandomByte % numBondedPaths]].p;
      }
      var k := Key(flowId);
      if k in flows {
        var f := flows[k].(lastActivity := now);
        DriftTouch(slots, flows, k, f);
        flows := flows[k := f];
      } else {
        var created := CreateFlow(MAX_PATHS, flowId, now);
      }
      return paths[flows[k].assignedPath].p;
    }

    /** getAppropriatePath under the balance policies. */
    method AppropriatePath(now: int, flowId: int32, freeRandomByte: nat) returns (p: Option<Path>)
      requires Sound()
      modifies paths, `flows, `rrIdx, `rrPacketsSentOnCurrLink
      ensures Sound() && Next(policy, Outgoing(flowId, now, freeRandomByte), old(Now()), Now())
      ensures policy == BalanceXor ==> p == SentOn(old(Now()), flowId, freeRandomByte)
    {
      hide SameDrift, SameButCounts, Mapped, FlowsSent, SentOn;
      SameSelf(paths[..], flows);
      if policy == BalanceRR {
        p := PathRR(freeRandomByte);
      } else {
        p := PathXor(now, flowId, freeRandomByte);
      }
    }

    /** The part of recordIncomingPacket that learns a flow from the slot it came in on. */
    method LearnFlow(pathIdx: nat, flowId: int32, now: int)
      requires Sound() && pathIdx < MAX_PATHS
      modifies paths, `flows
      ensures Sound() && SameBond(old(Now()), Now()) && flows == FlowsLearned(old(Now()), pathIdx, flowId, now)
    {
      hide SameDrift, SameButCounts, Mapped;
      SameSelf(paths[..], flows);
      if flowId != -1 {
        if Key(flowId) !in flows {
          var created := CreateFlow(pathIdx, flowId, now);
        }
      }
    }

    method NominatedPathIdx(path: Path) returns (i: nat)
      requires Shape()
      ensures i == PathIdx(paths[..], path)
    {
      i := 0;
      while i < MAX_PATHS && paths[i].p != Some(path)
        invariant i <= MAX_PATHS && PathIdx(paths[..], path) == PathIdxFrom(paths[..], path, i)
      {
        i := i + 1;
      }
    }

    /** recordIncomingPacket: a path that comes alive is noted, and its flow is learned. */
    method RecordIncomingPacket(path: Path, flowId: int32, now: int)
      requires Sound()
      modifies paths, `flows
      ensures Sound() && Next(policy, Incoming(path, flowId, now), old(Now()), Now())
    {
      hide SameDrift, SameButCounts, Mapped, PathIdx, FlowsLearned;
      ghost var pre := Now();
      var pathIdx := NominatedPathIdx(path);
      if pathIdx == MAX_PATHS {
        return;
      }
      ToggledKeeps(paths[..], pathIdx, now, realIdxMap[..], numBondedPaths);
      if !paths[pathIdx].alive {
        paths[pathIdx] := paths[pathIdx].(lastAliveToggle := Unsigned(now));
      }
      assert paths[..] == Toggled(pre.slots, pathIdx, now);
      LearnToggled(pre, pathIdx, flowId, now);
      LearnFlow(pathIdx, flowId, now);
    }

    /** receivedQoS. */
    method ReceivedQoS(path: Path, now: int)
      requires Sound()
      modifies paths
      ensures Sound() && Next(policy, QoS(path, now), old(Now()), Now())
    {
      hide Mapped, PathIdx;
      ghost var pre := Now();
      var pathIdx := NominatedPathIdx(path);
      if pathIdx == MAX_PATHS {
        return;
      }
      ToggledKeeps(paths[..], pathIdx, now, realIdxMap[..], numBondedPaths);
      paths[pathIdx] := paths[pathIdx].(lastQoSReceived := Unsigned(now));
      assert paths[..] == Measured(pre.slots, pathIdx, now);
    }

    // ---- Nomination ----

    method FindPath(path: Path) returns (present: bool)
      requires Shape()
      ensures present == Present(paths[..], path)
    {
      for i := 0 to MAX_PATHS
        invariant forall j | 0 <= j < i :: paths[j].p != Some(path)
      {
        if paths[i].p == Some(path) {
          assert paths[..][i].p == Some(path);
          return true;
        }
      }
      return false;
    }

    /** Finds somewhere to stick the path, and updates the other paths on its link. */
    method SeatPath(path: Path, now: int, linkOf: Path -> Option<Link>)
      requires Shape() && !Present(paths[..], path)
      modifies paths
      ensures var seat := FreeFrom(old(paths[..]), 0);
        paths[..] == if seat < MAX_PATHS then Seated(old(paths[..]), seat, path, now, linkOf) else old(paths[..])
    {
      ghost var s: Slots := paths[..];
      for i := 0 to MAX_PATHS
        invariant paths[..] == s && FreeFrom(s, 0) == FreeFrom(s, i)
      {
        if paths[i].p.None? {
          paths[i] := paths[i].(p := Some(path), whenNominated := Unsigned(now));
          assert paths[..] == s[i := s[i].(p := Some(path), whenNominated := Unsigned(now))];
          var sl := linkOf(path);
          if sl.Some? {
            MarkLink(i, path, now, linkOf, sl.value, s);
          }
          return;
        }
      }
    }

    method MarkLink(i: nat, path: Path, now: int, linkOf: Path -> Option<Link>, link: Link, ghost s: Slots)
      requires Shape() && i < MAX_PATHS && linkOf(path) == Some(link) && !Present(s, path)
      requires paths[..] == s[i := s[i].(p := Some(path), whenNominated := Unsigned(now))]
      modifies paths
      ensures paths[..] == Seated(s, i, path, now, linkOf)
    {
      ghost var seat := s[i].(p := Some(path), whenNominated := Unsigned(now));
      var foundCommonLink := false;
      for j := 0 to MAX_PATHS
        invariant forall k | 0 <= k < MAX_PATHS ::
          paths[k] == if k == i then seat
              else if k < j && SharesLink(s, i, k, linkOf, link) then s[k].(onlyPathOnLink := false) else s[k]
        invariant foundCommonLink == exists k | 0 <= k < j :: SharesLink(s, i, k, linkOf, link)
      {
        if paths[j].p.Some? && paths[j].p != paths[i].p {
          if linkOf(paths[j].p.value) == Some(link) {
            foundCommonLink := true;
            paths[j] := paths[j].(onlyPathOnLink := false);
          }
        }
      }
      paths[i] := paths[i].(ipvPref := link.ipvPref, spare := link.spare, onlyPathOnLink := !foundCommonLink);
    }

    /** nominatePathToBond, for a path whose link the user's rules allow or not. */
    method NominatePath(path: Path, allowed: bool, w: World)
      requires Sound()
      modifies this, paths, realIdxMap
      ensures Sound() && Next(policy, Nomination(path, allowed, w), old(Now()), Now())
    {
      hide Mapped, Placed, Seated, Curated, Rebuilds, Present, FreeFrom;
      if !allowed {
        return;
      }
      ghost var pre := Now();
      var alreadyPresent := FindPath(path);
      if !alreadyPresent {
        SeatPath(path, w.now, w.linkOf);
      }
      assert Now() == pre.(slots := Nominated(pre.slots, path, w));
      CurateBond(w, true);
    }

    method ClearBond(ghost base: Slots)
      requires Shape() && paths[..] == base
      modifies realIdxMap, paths
      ensures Bonding(base, {}, 0)
    {
      for i := 0 to MAX_PATHS
        invariant forall j | 0 <= j < MAX_PATHS :: paths[j] == if j < i then base[j].(bonded := false) else base[j]
        invariant forall j | 0 <= j < i :: realIdxMap[j] == MAX_PATHS
      {
        realIdxMap[i] := MAX_PATHS;
        paths[i] := paths[i].(bonded := false);
      }
    }

    method MapLinks(linkOf: Path -> Option<Link>, ghost base: Slots) returns (m: LinkMap)
      requires Bonding(base, {}, 0)
      ensures Grouped(base, linkOf, m, MAX_PATHS)
    {
      m := map[];
      assert Grouped(base, linkOf, m, 0);
      hide Grouped;
      for i := 0 to MAX_PATHS
        invariant Grouped(base, linkOf, m, i)
      {
        GroupedNext(base, linkOf, m, i);
        if paths[i].p.Some? {
          var link := linkOf(paths[i].p.value);
          if link.Some? {
            m := m[link.value := (if link.value in m then m[link.value] else []) + [i]];
          }
        }
      }
    }

    lemma SlotNow(base: Slots, sel: set<nat>, n: nat, i: nat)
      requires Bonding(base, sel, n) && i < MAX_PATHS
      ensures Shape() && paths[i] == base[i].(bonded := i in sel)
    {
    }
  }

  /** idxs are the slots whose path runs over the link. */
  ghost predicate PathsOf(s: Slots, linkOf: Path -> Option<Link>, link: Link, idxs: seq<nat>) {
    && (forall i: nat :: i in idxs <==> i < MAX_PATHS && LinkAt(s, linkOf, i) == Some(link))
    && forall j, k | 0 <= j < k < |idxs| :: idxs[j] != idxs[k]
  }

  ghost function SelectedOn(s: Slots, linkOf: Path -> Option<Link>, foundUsable: bool, link: Link): set<nat> {
    set i: nat | i < MAX_PATHS && LinkAt(s, linkOf, i) == Some(link) && Selected(s, linkOf, foundUsable, i)
  }

  ghost function SelectedOver(s: Slots, linkOf: Path -> Option<Link>, foundUsable: bool, links: set<Link>): set<nat> {
    set i: nat | i < MAX_PATHS && Selected(s, linkOf, foundUsable, i) && LinkAt(s, linkOf, i).value in links
  }

  lemma GroupedPaths(s: Slots, linkOf: Path -> Option<Link>, m: LinkMap, link: Link)
    requires Grouped(s, linkOf, m, MAX_PATHS) && link in m
    ensures PathsOf(s, linkOf, link, m[link])
  {
  }

  lemma AllGrouped(s: Slots, linkOf: Path -> Option<Link>, foundUsable: bool, m: LinkMap)
    requires Grouped(s, linkOf, m, MAX_PATHS)
    ensures SelectedOver(s, linkOf, foundUsable, m.Keys) == AllSelected(s, linkOf, foundUsable)
  {
    hide HasFirstChoice;
  }

  lemma SelectedOnIs(s: Slots, linkOf: Path -> Option<Link>, foundUsable: bool, link: Link, idxs: seq<nat>)
    requires PathsOf(s, linkOf, link, idxs)
    ensures SelectedOn(s, linkOf, foundUsable, link) ==
      (if foundUsable then {} else Picked(s, idxs, UsableSpare))
      + (if link.ipvPref in {0, 4, 6} then Picked(s, idxs, UsablePrimary)
         else if link.ipvPref in {46, 64} then
           if Picked(s, idxs, FirstChoice) != {} then Picked(s, idxs, FirstChoice) else Picked(s, idxs, AnyPrimary)
         else {})
  {
    FirstChoices(s, linkOf, link, idxs);
    hide HasFirstChoice;
  }

  lemma FirstChoices(s: Slots, linkOf: Path -> Option<Link>, link: Link, idxs: seq<nat>)
    requires PathsOf(s, linkOf, link, idxs)
    ensures HasFirstChoice(s, linkOf, link) <==> Picked(s, idxs, FirstChoice) != {}
  {
    if HasFirstChoice(s, linkOf, link) {
      var i: nat :| i < MAX_PATHS && LinkAt(s, linkOf, i) == Some(link) && FirstChoice(s[i]);
      assert i in Picked(s, idxs, FirstChoice);
    }
    if i :| i in Picked(s, idxs, FirstChoice) {
      assert LinkAt(s, linkOf, i) == Some(link) && FirstChoice(s[i]);
    }
  }

  lemma PickedNext(base: Slots, idxs: seq<nat>, pick: Slot -> bool, j: nat)
    requires j < |idxs| && idxs[j] < MAX_PATHS && forall j, k | 0 <= j < k < |idxs| :: idxs[j] != idxs[k]
    ensures Picked(base, idxs[..j + 1], pick) == Picked(base, idxs[..j], pick)
      + if pick(base[idxs[j]]) then {idxs[j]} else {}
    ensures idxs[j] !in Picked(base, idxs[..j], pick)
    ensures pick(base[idxs[j]]) ==> idxs[j] in Picked(base, idxs, pick)
  {
    assert idxs[..j + 1] == idxs[..j] + [idxs[j]];
  }

  // ---- Runs ----

  method Handle(b: Bond, e: Event) returns (p: Option<Path>)
    requires b.Sound()
    modifies b, b.paths, b.realIdxMap
    ensures b.Sound() && Next(b.policy, e, old(b.Now()), b.Now())
    ensures e.Outgoing? && b.policy == BalanceXor ==> p == SentOn(old(b.Now()), e.flowId, e.freeRandomByte)
    ensures e.Background? && b.numBondedPaths > 0 && b.policy == BalanceXor ==>
      forall k | k in b.flows :: OffDeadPath(b.paths[..], b.flows[k])
  {
    hide Bond.Sound, Next, OffDeadPath, SentOn;
    p := None;
    match e {
      case Background(w) =>
        b.Tick(w);
      case Outgoing(flowId, now, byte) =>
        p := b.AppropriatePath(now, flowId, byte);
      case Incoming(path, flowId, now) =>
        b.RecordIncomingPacket(path, flowId, now);
      case QoS(path, now) =>
        b.ReceivedQoS(path, now);
      case Nomination(path, allowed, w) =>
        b.NominatePath(path, allowed, w);
    }
  }

  /** Any run follows the steps of the state machine, from state to state of the trace. So the flow counters are right
      after it exactly if no slot held flows when it was last vacated; distinct slots hold distinct paths; and after a
      background task no flow is on a dead path of a non-empty bond. */
  method Run(b: Bond, events: seq<Event>) returns (sent: seq<Option<Path>>, ghost trace: seq<State>)
    requires b.Sound()
    modifies b, b.paths, b.realIdxMap
    ensures b.Sound() && Chained(b.policy, events, trace) && trace[0] == old(b.Now()) && trace[|events|] == b.Now()
    ensures |sent| == |events| && forall t | 0 <= t < |events| && events[t].Outgoing? && b.policy == BalanceXor ::
      sent[t] == SentOn(trace[t], events[t].flowId, events[t].freeRandomByte)
    ensures Counted(old(b.paths[..]), old(b.flows)) ==>
      (Counted(b.paths[..], b.flows) <==> forall i | 0 <= i < MAX_PATHS :: !LostFlows(events, trace, i, |events|))
    ensures DistinctPaths(old(b.paths[..])) ==> DistinctPaths(b.paths[..])
    ensures events != [] && events[|events| - 1].Background? && b.numBondedPaths > 0 && b.policy == BalanceXor ==>
      forall k | k in b.flows :: var i := b.flows[k].assignedPath;
        i < MAX_PATHS && (b.paths[i].p.None? || b.paths[i].eligible)
  {
    hide Counted, OffDeadPath, DistinctPaths, Mapped, Placed, Next, LostFlows, Chained, SentOn;
    sent, trace := [], [b.Now()];
    NoSteps(b.policy, b.Now());
    assert events[..0] == [];
    for t := 0 to |events|
      invariant b.Sound() && |trace| == t + 1 && Chained(b.policy, events[..t], trace) && trace[0] == old(b.Now())
      invariant trace[t] == b.Now()
      invariant |sent| == t && forall u | 0 <= u < t && events[u].Outgoing? && b.policy == BalanceXor ::
        sent[u] == SentOn(trace[u], events[u].flowId, events[u].freeRandomByte)
      invariant DistinctPaths(old(b.paths[..])) ==> DistinctPaths(b.paths[..])
      invariant 0 < t && events[t - 1].Background? && b.numBondedPaths > 0 && b.policy == BalanceXor ==>
        forall k | k in b.flows :: OffDeadPath(b.paths[..], b.flows[k])
    {
      ghost var pre := b.Now();
      var p := Handle(b, events[t]);
      if DistinctPaths(pre.slots) { NextKeepsDistinct(b.policy, events[t], pre, b.Now()); }
      ChainedMore(b.policy, events[..t], trace, events[t], b.Now());
      assert events[..t + 1] == events[..t] + [events[t]];
      sent, trace := sent + [p], trace + [b.Now()];
    }
    assert events[..|events|] == events;
    if Counted(old(b.paths[..]), old(b.flows)) { CountersRightExactly(b.policy, events, trace, |events|); }
    OffDeadMeans(b);
  }

  lemma OffDeadMeans(b: Bond)
    requires b.Shape()
    ensures forall k | k in b.flows && OffDeadPath(b.paths[..], b.flows[k]) :: var i := b.flows[k].assignedPath;
      i < MAX_PATHS && (b.paths[i].p.None? || b.paths[i].eligible)
  {
  }

  lemma NoSteps(policy: Policy, s: State)
    ensures Chained(policy, [], [s])
  {
  }
}
