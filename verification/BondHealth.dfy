/** Which paths are in a bond, in plain times and address types: healthy ones stay, silent ones leave, and what links
    prefer. */
module BondHealth {
  import opened Widths
  import opened Wrappers
  import opened BondPaths
  import opened BondFlows
  import opened BondSteps

  // ---- What a link's preference bonds ----

  /** The link's paths are as nomination leaves them: of one address type each, and with the link's preference; none is
      spare or alone on the link. */
  predicate Uniform(s: Slots, linkOf: Path -> Option<Link>, link: Link) {
    forall i | 0 <= i < MAX_PATHS && LinkAt(s, linkOf, i) == Some(link) ::
      && s[i].p.value.v4 != s[i].p.value.v6
      && s[i].ipvPref == link.ipvPref && !s[i].spare && !s[i].onlyPathOnLink
  }

  predicate SomeEligible(s: Slots, linkOf: Path -> Option<Link>, link: Link, v4: bool) {
    exists i | 0 <= i < MAX_PATHS ::
      LinkAt(s, linkOf, i) == Some(link) && s[i].eligible && if v4 then s[i].p.value.v4 else s[i].p.value.v6
  }

  /** On a link without preference a rebuild bonds every eligible path; on a 4 or 6 link those of that type; on a 46
      link the eligible IPv4 paths, and the IPv6 ones exactly if there is none; on a 64 link the other way round. */
  lemma BondedByPreference(s: Slots, linkOf: Path -> Option<Link>, found: bool, t: Slots, m: seq<nat>, n: nat, i: nat)
    requires Formed(s, AllSelected(s, linkOf, found), t, m, n) && i < MAX_PATHS && LinkAt(s, linkOf, i).Some?
    requires Uniform(s, linkOf, LinkAt(s, linkOf, i).value)
    ensures var link := LinkAt(s, linkOf, i).value; var p := s[i].p.value;
      && (link.ipvPref == 0 ==> (t[i].bonded <==> s[i].eligible))
      && (link.ipvPref == 4 ==> (t[i].bonded <==> s[i].eligible && p.v4))
      && (link.ipvPref == 6 ==> (t[i].bonded <==> s[i].eligible && p.v6))
      && (link.ipvPref == 46 ==> (t[i].bonded <==> s[i].eligible && (p.v4 || !SomeEligible(s, linkOf, link, true))))
      && (link.ipvPref == 64 ==> (t[i].bonded <==> s[i].eligible && (p.v6 || !SomeEligible(s, linkOf, link, false))))
  {
    var link := LinkAt(s, linkOf, i).value;
    if link.ipvPref == 46 { FirstChoicesAre(s, linkOf, link, true); }
    if link.ipvPref == 64 { FirstChoicesAre(s, linkOf, link, false); }
    hide Lists, HasFirstChoice, SomeEligible;
    assert t[i].bonded <==> Selected(s, linkOf, found, i);
  }

  lemma FirstChoicesAre(s: Slots, linkOf: Path -> Option<Link>, link: Link, v4: bool)
    requires Uniform(s, linkOf, link) && link.ipvPref == (if v4 then 46 else 64)
    ensures HasFirstChoice(s, linkOf, link) <==> SomeEligible(s, linkOf, link, v4)
  {
    if HasFirstChoice(s, linkOf, link) {
      var i: nat :| i < MAX_PATHS && LinkAt(s, linkOf, i) == Some(link) && FirstChoice(s[i]);
      assert SomeEligible(s, linkOf, link, v4);
    }
    if SomeEligible(s, linkOf, link, v4) {
      var i :| 0 <= i < MAX_PATHS && LinkAt(s, linkOf, i) == Some(link) && s[i].eligible
          && if v4 then s[i].p.value.v4 else s[i].p.value.v6;
      assert FirstChoice(s[i]);
    }
  }

  /** A spare path is bonded exactly if it is eligible and admitted, and no usable bonded path was found. */
  lemma SparesBonded(s: Slots, linkOf: Path -> Option<Link>, found: bool, t: Slots, m: seq<nat>, n: nat, i: nat)
    requires Formed(s, AllSelected(s, linkOf, found), t, m, n)
    requires i < MAX_PATHS && LinkAt(s, linkOf, i).Some? && s[i].spare
    ensures t[i].bonded <==> s[i].eligible && TypeAdmitted(s[i].ipvPref, s[i].p.value) && !found
  {
    hide Lists, HasFirstChoice;
    assert t[i].bonded <==> Selected(s, linkOf, found, i);
  }

  // ---- Healthy paths stay ----

  /** In its trial, or healthy and not long ineligible; admitted, over a known link. */
  predicate Fit(s: Slot, w: World) {
    && s.p.Some? && InTime(s, w) && w.linkOf(s.p.value).Some? && TypeAdmitted(s.ipvPref, s.p.value)
    && (w.now - s.whenNominated < 15000 || (Healthy(s, w) && w.now - s.lastEligibility <= 600000))
  }

  /** No rebuild prefers another path to it. */
  predicate Firm(s: Slot, w: World) {
    && s.p.Some? && w.linkOf(s.p.value).Some? && !s.spare
    && var pref := w.linkOf(s.p.value).value.ipvPref; var p := s.p.value;
       || pref in {0, 4, 6}
       || (pref in {46, 64}
           && (s.onlyPathOnLink || (p.v4 && s.ipvPref in {4, 46}) || (p.v6 && s.ipvPref in {6, 64})))
  }

  lemma FitIsEligible(pre: State, w: World, rebuild: bool, post: State, i: nat)
    requires Curated(pre, w, rebuild, post) && i < MAX_PATHS && Fit(pre.slots[i], w)
    ensures post.slots[i].p == pre.slots[i].p && post.slots[i].eligible
    ensures post.slots[i].ipvPref == pre.slots[i].ipvPref
    ensures Firm(pre.slots[i], w) && pre.slots[i].bonded ==> post.slots[i].bonded
    ensures Firm(pre.slots[i], w) && !pre.slots[i].eligible ==> post.slots[i].bonded
  {
    RefreshInPlainTimes(pre.slots[i], w);
    hide Refresh, UsableFound, Lists;
    var slots := Refreshed(pre.slots, w);
    assert slots[i] == Refresh(pre.slots[i], w).0;
    if Firm(pre.slots[i], w) {
      FirmIsSelected(slots, w, UsableFound(slots), i);
      if !pre.slots[i].eligible { ReturnTriggers(pre.slots, w, i); }
    }
  }

  lemma FirmIsSelected(s: Slots, w: World, found: bool, i: nat)
    requires i < MAX_PATHS && Firm(s[i], w) && s[i].eligible && TypeAdmitted(s[i].ipvPref, s[i].p.value)
    ensures i in AllSelected(s, w.linkOf, found)
  {
    hide HasFirstChoice;
  }

  /** A path that becomes eligible again has the bond formed anew. */
  lemma ReturnTriggers(s: Slots, w: World, i: nat)
    requires i < MAX_PATHS && Refresh(s[i], w).0.eligible && !s[i].eligible && Refresh(s[i], w).0.p.Some?
    ensures Triggers(s, w)
  {
    assert Refresh(s[i], w).1;
  }

  predicate Curates(e: Event) { e.Background? || (e.Nomination? && e.allowed) }

  /** The slots as a curating event finds them. */
  function Seen(e: Event, pre: State): Slots
    requires Curates(e)
  {
    if e.Background? then pre.slots else Nominated(pre.slots, e.path, e.w)
  }

  /** Slot i holds the path, in the bond. */
  predicate InBond(s: State, i: nat, path: Path) {
    i < MAX_PATHS && s.slots[i].p == Some(path) && s.slots[i].bonded && s.slots[i].eligible
  }

  lemma SeatKeepsOthers(s: Slots, path: Path, w: World, i: nat)
    requires i < MAX_PATHS && s[i].p.Some?
    ensures var t := Nominated(s, path, w)[i]; t == s[i].(onlyPathOnLink := t.onlyPathOnLink)
  {
    hide Seated;
    var seat := FreeFrom(s, 0);
    if !Present(s, path) && seat < MAX_PATHS { SeatedPaths(s, seat, path, w.now, w.linkOf); }
  }

  /** No single event takes a fit and firm path out of the bond. */
  lemma FitStays(policy: Policy, e: Event, pre: State, post: State, i: nat, path: Path)
    requires Next(policy, e, pre, post) && InBond(pre, i, path)
    requires Curates(e) ==> Fit(Seen(e, pre)[i], e.w) && Firm(Seen(e, pre)[i], e.w)
    ensures InBond(post, i, path)
  {
    hide Curated, Fit, Firm, Nominated, Drift, FlowsSent, FlowsLearned, AllMoved, Remembered;
    match e
    case Background(w) =>
      var mid :| Curated(pre, w, false, mid) && Tended(policy, mid, w.now, post);
      FitIsEligible(pre, w, false, mid, i);
    case Outgoing(_, _, _) =>
    case Incoming(_, _, _) =>
    case QoS(_, _) =>
    case Nomination(p, allowed, w) =>
      if allowed {
        SeatKeepsOthers(pre.slots, p, w, i);
        FitIsEligible(pre.(slots := Nominated(pre.slots, p, w)), w, true, post, i);
      }
  }

  /** Over any run a bonded path is never dropped, if whenever the bond is curated it is admitted, heard, measured and
      past its up-delay (or in its trial), and no other path is preferred to it. */
  lemma {:induction false} HealthyStaysBonded(policy: Policy, events: seq<Event>, trace: seq<State>, i: nat, path: Path,
      m: nat)
    requires Chained(policy, events, trace) && m <= |events| && InBond(trace[0], i, path)
    requires forall t | 0 <= t < m && Curates(events[t]) ::
      Fit(Seen(events[t], trace[t])[i], events[t].w) && Firm(Seen(events[t], trace[t])[i], events[t].w)
    ensures InBond(trace[m], i, path)
  {
    hide Next, Fit, Firm, Seen, InBond;
    if m > 0 {
      HealthyStaysBonded(policy, events, trace, i, path, m - 1);
      InBondSlot(trace[m - 1], i, path);
      FitStays(policy, events[m - 1], trace[m - 1], trace[m - 1 + 1], i, path);
    }
  }

  lemma InBondSlot(s: State, i: nat, path: Path)
    requires InBond(s, i, path)
    ensures i < MAX_PATHS
  {
  }

  // ---- Silent paths leave ----

  /** Bonded slots are occupied and eligible. */
  ghost predicate BondedAreEligible(s: Slots) {
    forall i | 0 <= i < MAX_PATHS && s[i].bonded :: s[i].p.Some? && s[i].eligible
  }

  lemma RefreshKeepsBonded(s: Slot, w: World)
    requires s.bonded ==> s.p.Some? && s.eligible
    ensures var t := Refresh(s, w).0; t.bonded ==> t.p.Some? && t.eligible
  {
    hide Allowed;
  }

  lemma CuratedKeepsBonded(pre: State, w: World, rebuild: bool, post: State)
    requires Curated(pre, w, rebuild, post) && BondedAreEligible(pre.slots)
    ensures BondedAreEligible(post.slots)
  {
    hide Refresh, UsableFound, Lists, HasFirstChoice, Triggers;
    forall i | 0 <= i < MAX_PATHS && post.slots[i].bonded
      ensures post.slots[i].p.Some? && post.slots[i].eligible
    {
      RefreshKeepsBonded(pre.slots[i], w);
    }
  }

  lemma SeatKeepsBonded(s: Slots, path: Path, w: World)
    requires BondedAreEligible(s)
    ensures BondedAreEligible(Nominated(s, path, w))
  {
    var seat := FreeFrom(s, 0);
    if !Present(s, path) && seat < MAX_PATHS {
      SeatedPaths(s, seat, path, w.now, w.linkOf);
      SeatUnbonded(s, seat, path, w.now, w.linkOf);
      hide Seated;
    }
  }

  lemma SeatUnbonded(s: Slots, i: nat, path: Path, now: int, linkOf: Path -> Option<Link>)
    requires i < MAX_PATHS
    ensures Seated(s, i, path, now, linkOf)[i].bonded == s[i].bonded
  {
    hide SharesLink;
  }

  lemma NextKeepsBonded(policy: Policy, e: Event, pre: State, post: State)
    requires Next(policy, e, pre, post) && BondedAreEligible(pre.slots)
    ensures BondedAreEligible(post.slots)
  {
    hide Curated, Nominated, Drift, FlowsSent, FlowsLearned, AllMoved, Remembered;
    match e
    case Background(w) =>
      var mid :| Curated(pre, w, false, mid) && Tended(policy, mid, w.now, post);
      CuratedKeepsBonded(pre, w, false, mid);
    case Outgoing(_, _, _) =>
    case Incoming(_, _, _) =>
    case QoS(_, _) =>
    case Nomination(path, allowed, w) =>
      if allowed {
        SeatKeepsBonded(pre.slots, path, w);
        CuratedKeepsBonded(pre.(slots := Nominated(pre.slots, path, w)), w, true, post);
      }
  }

  /** In every state of a run that starts so, bonded slots are occupied and eligible. */
  lemma {:induction false} BondedStayEligible(policy: Policy, events: seq<Event>, trace: seq<State>, m: nat)
    requires Chained(policy, events, trace) && m <= |events| && BondedAreEligible(trace[0].slots)
    ensures BondedAreEligible(trace[m].slots)
  {
    hide Next, BondedAreEligible;
    if m > 0 {
      BondedStayEligible(policy, events, trace, m - 1);
      NextKeepsBonded(policy, events[m - 1], trace[m - 1], trace[m - 1 + 1]);
    }
  }

  /** Past its trial, and silent or unmeasured for too long. */
  predicate Failing(s: Slot, w: World)
    requires s.p.Some?
  {
    && InTime(s, w) && w.now - s.whenNominated >= 15000
    && (Silence(s, w) >= (if w.isLeaf then w.failoverInterval + w.downDelay else 243000)
        || w.now - s.lastQoSReceived >= 600000)
  }

  /** The path is on no bonded slot, and on no eligible one. */
  predicate OutOfBond(s: Slots, path: Path) {
    forall i | 0 <= i < MAX_PATHS && s[i].p == Some(path) :: !s[i].bonded && !s[i].eligible
  }

  /** After the next background task of a run such a path is on no bonded slot. */
  lemma SilentLeavesBond(policy: Policy, events: seq<Event>, trace: seq<State>, m: nat, path: Path)
    requires Chained(policy, events, trace) && BondedAreEligible(trace[0].slots) && m < |events|
    requires events[m].Background?
    requires forall i | 0 <= i < MAX_PATHS && trace[m].slots[i].p == Some(path) ::
      Failing(trace[m].slots[i], events[m].w)
    ensures OutOfBond(trace[m + 1].slots, path)
  {
    hide BondedAreEligible, Curated, Failing, Drift, AllMoved, Remembered;
    BondedStayEligible(policy, events, trace, m);
    var pre, post, w := trace[m], trace[m + 1], events[m].w;
    assert Next(policy, events[m], pre, post);
    var mid :| Curated(pre, w, false, mid) && Tended(policy, mid, w.now, post);
    forall i | 0 <= i < MAX_PATHS && post.slots[i].p == Some(path)
      ensures !post.slots[i].bonded && !post.slots[i].eligible
    {
      FailingLeaves(pre, w, mid, i);
    }
  }

  lemma FailingLeaves(pre: State, w: World, mid: State, i: nat)
    requires Curated(pre, w, false, mid) && BondedAreEligible(pre.slots) && i < MAX_PATHS
    ensures mid.slots[i].p.Some? ==> mid.slots[i].p == pre.slots[i].p
    ensures mid.slots[i].p.Some? && Failing(pre.slots[i], w) ==> !mid.slots[i].bonded && !mid.slots[i].eligible
  {
    CuratedKeepsBonded(pre, w, false, mid);
    RefreshPath(pre.slots[i], w);
    if pre.slots[i].p.Some? && Failing(pre.slots[i], w) { RefreshInPlainTimes(pre.slots[i], w); }
    hide Refresh, UsableFound, Lists, HasFirstChoice, Triggers;
    assert Refreshed(pre.slots, w)[i] == Refresh(pre.slots[i], w).0;
  }

  lemma RefreshPath(s: Slot, w: World)
    ensures var t := Refresh(s, w).0; t.p.Some? ==> t.p == s.p
  {
    hide Allowed;
  }

  /** A path in its trial that is admitted is eligible after a background task, whatever was heard or measured. */
  lemma TrialIsEligible(policy: Policy, w: World, pre: State, post: State, i: nat)
    requires Next(policy, Background(w), pre, post) && i < MAX_PATHS && pre.slots[i].p.Some?
    requires InTime(pre.slots[i], w) && w.now - pre.slots[i].whenNominated < 15000
    requires w.linkOf(pre.slots[i].p.value).Some?
    ensures post.slots[i].p == pre.slots[i].p
    ensures post.slots[i].eligible <==> TypeAdmitted(pre.slots[i].ipvPref, pre.slots[i].p.value)
  {
    hide Drift, AllMoved, Remembered, UsableFound, Lists, Triggers, AllSelected;
    var mid :| Curated(pre, w, false, mid) && Tended(policy, mid, w.now, post);
    RefreshInPlainTimes(pre.slots[i], w);
    hide Refresh;
    assert Refreshed(pre.slots, w)[i] == Refresh(pre.slots[i], w).0;
  }

  // ---- Where the times come from ----

  lemma OneSlot(s: Slots, path: Path, i: nat)
    requires DistinctPaths(s) && i < MAX_PATHS && s[i].p == Some(path)
    ensures PathIdx(s, path) == i
  {
  }

  /** A measurement that comes in on a nominated path is noted as received now, and nothing else changes. */
  lemma MeasuredNow(policy: Policy, path: Path, now: int, pre: State, post: State, i: nat)
    requires Next(policy, QoS(path, now), pre, post) && DistinctPaths(pre.slots) && 0 <= now < U64
    requires i < MAX_PATHS && pre.slots[i].p == Some(path)
    ensures post == pre.(slots := pre.slots[i := pre.slots[i].(lastQoSReceived := now)])
  {
    OneSlot(pre.slots, path, i);
    SmallTimes(now, 0);
  }

  /** A packet on a path that was dead starts its up-delay; on a live one it does not. */
  lemma UpDelayStarts(policy: Policy, path: Path, flowId: int32, now: int, pre: State, post: State, i: nat)
    requires Next(policy, Incoming(path, flowId, now), pre, post) && DistinctPaths(pre.slots) && 0 <= now < U64
    requires i < MAX_PATHS && pre.slots[i].p == Some(path)
    ensures post.slots[i].lastAliveToggle == if pre.slots[i].alive then pre.slots[i].lastAliveToggle else now
    ensures post.slots[i].lastQoSReceived == pre.slots[i].lastQoSReceived
  {
    hide Drift, FlowsLearned;
    OneSlot(pre.slots, path, i);
    SmallTimes(now, 0);
  }

  // ---- What nomination and rebuilding go by ----

  /** A new path takes the first free slot with its link's preference. It is eligible at once if the link admits its
      type; it is marked as the only path on its link exactly if no other slot's path is on that link, and those lose
      their mark. */
  lemma NominatedPath(policy: Policy, path: Path, w: World, pre: State, post: State)
    requires Next(policy, Nomination(path, true, w), pre, post) && !Present(pre.slots, path)
    requires w.linkOf(path).Some? && 0 <= w.now < U64 && FreeFrom(pre.slots, 0) < MAX_PATHS
    requires var s := pre.slots[FreeFrom(pre.slots, 0)].(p := Some(path), whenNominated := 0); InTime(s, w)
    ensures var i := FreeFrom(pre.slots, 0); var link := w.linkOf(path).value; var t := post.slots[i];
      && t.p == Some(path) && t.whenNominated == w.now && t.ipvPref == link.ipvPref && t.spare == link.spare
      && (t.eligible <==> TypeAdmitted(link.ipvPref, path))
      && (t.onlyPathOnLink <==> forall k | 0 <= k < MAX_PATHS && k != i :: LinkAt(pre.slots, w.linkOf, k) != Some(link))
      && forall k | 0 <= k < MAX_PATHS && k != i && LinkAt(pre.slots, w.linkOf, k) == Some(link)
           && post.slots[k].p.Some? :: !post.slots[k].onlyPathOnLink
  {
    hide Refresh, UsableFound, Lists, AllSelected, Triggers, Seated, TypeAdmitted, LinkAt;
    var i := FreeFrom(pre.slots, 0);
    var s := Nominated(pre.slots, path, w);
    SmallTimes(w.now, 0);
    SeatMarks(pre.slots, i, path, w.now, w.linkOf);
    RefreshInPlainTimes(s[i], w);
    assert Refreshed(s, w)[i] == Refresh(s[i], w).0;
    forall k | 0 <= k < MAX_PATHS && post.slots[k].p.Some?
      ensures post.slots[k].onlyPathOnLink == s[k].onlyPathOnLink
    {
      RefreshKeepsMark(s[k], w);
    }
  }

  lemma SeatMarks(s: Slots, i: nat, path: Path, now: int, linkOf: Path -> Option<Link>)
    requires i < MAX_PATHS && linkOf(path).Some?
    ensures var link := linkOf(path).value; var t := Seated(s, i, path, now, linkOf);
      && t[i] == s[i].(p := Some(path), whenNominated := Unsigned(now), ipvPref := link.ipvPref, spare := link.spare,
                       onlyPathOnLink := t[i].onlyPathOnLink)
      && (t[i].onlyPathOnLink <==> forall k | 0 <= k < MAX_PATHS && k != i :: LinkAt(s, linkOf, k) != Some(link))
      && forall k | 0 <= k < MAX_PATHS && k != i && LinkAt(s, linkOf, k) == Some(link) :: !t[k].onlyPathOnLink
  {
    var link := linkOf(path).value;
    assert forall k: nat | k < MAX_PATHS :: SharesLink(s, i, k, linkOf, link) <==>
        k != i && LinkAt(s, linkOf, k) == Some(link);
    hide LinkAt;
  }

  lemma RefreshKeepsMark(s: Slot, w: World)
    ensures var t := Refresh(s, w).0; t.p.Some? ==> t.onlyPathOnLink == s.onlyPathOnLink
  {
    hide Allowed;
  }

  /** The bond is formed anew exactly on request, while nothing is bonded, when a path gains eligibility, when a bonded
      one loses it, or when afterwards no bonded path is alive. */
  lemma RebuildsExactly(pre: State, w: World, rebuild: bool)
    ensures Rebuilds(pre, w, rebuild) <==>
      || rebuild
      || pre.n == 0
      || (exists i | 0 <= i < MAX_PATHS :: Gains(pre.slots[i], Refreshed(pre.slots, w)[i]))
      || (exists i | 0 <= i < MAX_PATHS :: Loses(pre.slots[i], Refreshed(pre.slots, w)[i]))
      || forall i | 0 <= i < MAX_PATHS ::
           var t := Refreshed(pre.slots, w)[i]; t.p.None? || !t.bonded || !t.alive
  {
    var slots := Refreshed(pre.slots, w);
    forall i | 0 <= i < MAX_PATHS
      ensures Refresh(pre.slots[i], w).1 <==> Gains(pre.slots[i], slots[i]) || Loses(pre.slots[i], slots[i])
    {
      TriggersBy(pre.slots[i], w);
    }
    hide Refresh, Gains, Loses;
  }

  predicate Gains(s: Slot, t: Slot) { s.p.Some? && t.p.Some? && !s.eligible && t.eligible }

  predicate Loses(s: Slot, t: Slot) { s.p.Some? && t.p.Some? && s.eligible && !t.eligible && s.bonded }

  lemma TriggersBy(s: Slot, w: World)
    ensures Refresh(s, w).1 <==> Gains(s, Refresh(s, w).0) || Loses(s, Refresh(s, w).0)
  {
    hide Allowed;
  }
}
