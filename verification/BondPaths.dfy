/** The slots of a bond: eligibility of each path, and which paths a rebuild selects. */
module BondPaths {
  import opened Widths
  import opened Wrappers

  const MAX_PATHS: nat := 64
  const ZT_BOND_OPTIMIZE_INTERVAL: nat := 15000
  const ZT_PEER_PATH_EXPIRATION: nat := 243000
  const ZT_PEER_EXPIRED_PATH_TRIAL_PERIOD: nat := 600000

  /** A signed value converted to 64 unsigned bits. */
  function Unsigned(x: int): uint64 { x % U64 }

  datatype Path = Path(id: nat, v4: bool, v6: bool)

  datatype Link = Link(id: nat, ipvPref: nat, spare: bool)

  /** A nominated path; a slot without a path is free. */
  datatype Slot = Slot(
    p: Option<Path>, alive: bool, eligible: bool, lastEligibility: uint64, whenNominated: uint64,
    lastAliveToggle: uint64, lastQoSReceived: uint64, ipvPref: nat, spare: bool, onlyPathOnLink: bool,
    bonded: bool, shouldAvoid: bool, assignedFlowCount: uint16)

  const VACANT := Slot(None, false, true, 0, 0, 0, 0, 0, false, false, false, false, 0)

  predicate Allowed(s: Slot)
    requires s.p.Some?
  {
    var p := s.p.value;
    s.ipvPref == 0 || (p.v4 && s.ipvPref in {4, 46, 64}) || (p.v6 && s.ipvPref in {6, 46, 64})
  }

  predicate Preferred(s: Slot)
    requires s.p.Some?
  {
    var p := s.p.value;
    s.onlyPathOnLink || (p.v4 && s.ipvPref in {4, 46}) || (p.v6 && s.ipvPref in {6, 64})
  }

  /** What the outside world says when the bond is curated. */
  datatype World = World(now: int, isLeaf: bool, failoverInterval: uint64, upDelay: uint32, downDelay: uint32,
                         linkOf: Path -> Option<Link>, lastIn: Path -> int)

  /** One turn of the eligibility loop: the slot's new state, and whether the bond must be rebuilt. */
  function Refresh(s: Slot, w: World): (Slot, bool) {
    if s.p.None? then (s, false)
    else
      var p := s.p.value;
      var inTrial := Unsigned(w.now - s.whenNominated) < ZT_BOND_OPTIMIZE_INTERVAL;
      if w.linkOf(p).None? then (VACANT, false)
      else if Unsigned(w.now - s.lastEligibility) > ZT_PEER_EXPIRED_PATH_TRIAL_PERIOD && !inTrial then (VACANT, false)
      else
        var sinceIn := w.now - w.lastIn(p);
        var alive := if w.isLeaf then Unsigned(sinceIn) < w.failoverInterval else sinceIn < ZT_PEER_PATH_EXPIRATION;
        var acceptableAge := if w.isLeaf then Unsigned(sinceIn) < Unsigned(w.failoverInterval + w.downDelay) else alive;
        var satisfiedUpDelay := Unsigned(w.now - s.lastAliveToggle) >= w.upDelay;
        var acceptableQoSAge := (s.lastQoSReceived == 0 && inTrial)
                                || Unsigned(w.now - s.lastQoSReceived) < ZT_PEER_EXPIRED_PATH_TRIAL_PERIOD;
        var eligible := Allowed(s) && ((acceptableAge && satisfiedUpDelay && acceptableQoSAge) || inTrial);
        var dropped := s.eligible && !eligible && s.bonded;
        (s.(alive := alive, eligible := eligible,
            lastEligibility := if eligible then Unsigned(w.now) else s.lastEligibility,
            shouldAvoid := s.shouldAvoid || dropped, bonded := s.bonded && !dropped),
         (eligible && !s.eligible) || dropped)
  }

  /** The slot was occupied and is not any more. */
  predicate Vacated(s: Slot, w: World) { s.p.Some? && Refresh(s, w).0.p.None? }

  // ---- Eligibility in plain times ----

  /** Nothing remembered or heard is later than now, and the intervals add up without overflow. */
  predicate InTime(s: Slot, w: World)
    requires s.p.Some?
  {
    && w.now < U64
    && s.whenNominated <= w.now && s.lastEligibility <= w.now
    && s.lastAliveToggle <= w.now && s.lastQoSReceived <= w.now
    && 0 <= w.lastIn(s.p.value) <= w.now
    && w.failoverInterval + w.downDelay < U64
  }

  /** For how long the path has been silent. */
  function Silence(s: Slot, w: World): int
    requires s.p.Some?
  {
    w.now - w.lastIn(s.p.value)
  }

  /** Heard lately, past the up-delay, and measured lately. */
  predicate Healthy(s: Slot, w: World)
    requires s.p.Some?
  {
    && Silence(s, w) < (if w.isLeaf then w.failoverInterval + w.downDelay else 243000)
    && w.now - s.lastAliveToggle >= w.upDelay
    && w.now - s.lastQoSReceived < 600000
  }

  /** The link's preference admits the address type of the path. */
  predicate TypeAdmitted(ipvPref: nat, p: Path) {
    (p.v4 && ipvPref in {0, 4, 46, 64}) || (p.v6 && ipvPref in {0, 6, 46, 64}) || ipvPref == 0
  }

  /** A path leaves its slot exactly if its link is gone, or if it has not been eligible for ten minutes and its trial
      is over. Otherwise it is eligible exactly if it is admitted and in its trial or healthy; and it leaves the bond at
      once if it was eligible and no longer is. */
  lemma RefreshInPlainTimes(s: Slot, w: World)
    requires s.p.Some? && InTime(s, w)
    ensures var t := Refresh(s, w).0; var trial := w.now - s.whenNominated < 15000;
      if w.linkOf(s.p.value).None? || (w.now - s.lastEligibility > 600000 && !trial) then t.p.None?
      else
        && t.p == s.p
        && (t.alive <==> Silence(s, w) < if w.isLeaf then w.failoverInterval else 243000)
        && (t.eligible <==> TypeAdmitted(s.ipvPref, s.p.value) && (trial || Healthy(s, w)))
        && t.lastEligibility == (if t.eligible then w.now else s.lastEligibility)
        && (t.bonded <==> s.bonded && (t.eligible || !s.eligible))
        && t == s.(alive := t.alive, eligible := t.eligible, lastEligibility := t.lastEligibility, bonded := t.bonded,
                   shouldAvoid := t.shouldAvoid)
  {
    SmallTimes(w.now, s.whenNominated); SmallTimes(w.now, s.lastEligibility); SmallTimes(w.now, s.lastAliveToggle);
    SmallTimes(w.now, s.lastQoSReceived); SmallTimes(w.now, w.lastIn(s.p.value));
    SmallTimes(w.now, 0); SmallTimes(w.failoverInterval + w.downDelay, 0);
    hide Unsigned;
  }

  /** Between two times in order, the unsigned difference is the difference. */
  lemma SmallTimes(now: int, earlier: int)
    requires 0 <= earlier <= now < U64
    ensures Unsigned(now - earlier) == now - earlier
  {
  }

  // ---- Selection ----

  type Slots = s: seq<Slot> | |s| == MAX_PATHS witness seq(MAX_PATHS, i => VACANT)

  /** The link that slot i's path runs over, if the slot is occupied and its link is known. */
  function LinkAt(s: Slots, linkOf: Path -> Option<Link>, i: nat): Option<Link>
    requires i < MAX_PATHS
  {
    if s[i].p.None? then None else linkOf(s[i].p.value)
  }

  /** An eligible path whose address type the link prefers. */
  predicate FirstChoice(s: Slot) { s.p.Some? && s.eligible && Allowed(s) && !s.spare && Preferred(s) }

  predicate HasFirstChoice(s: Slots, linkOf: Path -> Option<Link>, link: Link) {
    exists i: nat | i < MAX_PATHS :: LinkAt(s, linkOf, i) == Some(link) && FirstChoice(s[i])
  }

  /** Whether a rebuild puts slot i into the bond. */
  predicate Selected(s: Slots, linkOf: Path -> Option<Link>, foundUsable: bool, i: nat)
    requires i < MAX_PATHS
  {
    && LinkAt(s, linkOf, i).Some? && s[i].eligible
    && var link := LinkAt(s, linkOf, i).value;
       if s[i].spare then !foundUsable && Allowed(s[i])
       else if link.ipvPref in {0, 4, 6} then Allowed(s[i])
       else if link.ipvPref in {46, 64} then (Allowed(s[i]) && Preferred(s[i])) || !HasFirstChoice(s, linkOf, link)
       else false
  }

  /** The first n entries of the index map list the slots of sel once each; the others are the sentinel. */
  ghost predicate Lists(m: seq<nat>, n: nat, sel: set<nat>) {
    && |m| == MAX_PATHS && n <= MAX_PATHS
    && (forall j, k | 0 <= j < k < n :: m[j] != m[k])
    && (forall j | 0 <= j < n :: m[j] in sel) && (forall i | i in sel :: i in m[..n])
    && forall j | n <= j < MAX_PATHS :: m[j] == MAX_PATHS
  }

  lemma ListsSize(m: seq<nat>, n: nat, sel: set<nat>)
    requires Lists(m, n, sel)
    ensures |sel| == n
  {
    var s := m[..n];
    assert sel == set j | 0 <= j < |s| :: s[j];
    Injective(s);
  }

  lemma {:induction false} Injective(s: seq<nat>)
    requires forall j, k | 0 <= j < k < |s| :: s[j] != s[k]
    ensures |set j | 0 <= j < |s| :: s[j]| == |s|
  {
    if s != [] {
      var t := s[..|s| - 1];
      Injective(t);
      assert (set j | 0 <= j < |s| :: s[j]) == (set j | 0 <= j < |t| :: t[j]) + {s[|s| - 1]};
    }
  }

  lemma {:induction false} FewSlots(sel: set<nat>, max: nat)
    requires forall i | i in sel :: i < max
    ensures |sel| <= max
  {
    if max > 0 {
      FewSlots(sel - {max - 1}, max - 1);
    }
  }

  /** There is room in the map for another slot. */
  lemma RoomLeft(m: seq<nat>, n: nat, sel: set<nat>, i: nat)
    requires Lists(m, n, sel) && i < MAX_PATHS && i !in sel && forall k | k in sel :: k < MAX_PATHS
    ensures n < MAX_PATHS && Lists(m[n := i], n + 1, sel + {i})
  {
    ListsSize(m, n, sel);
    FewSlots(sel + {i}, MAX_PATHS);
    var m' := m[n := i];
    forall k | k in sel + {i}
      ensures k in m'[..n + 1]
    {
      if k == i {
        assert m'[n] == i;
      } else {
        var j :| 0 <= j < n && m[j] == k;
        assert m'[j] == k;
      }
    }
  }

  // ---- Nomination ----

  /** Distinct occupied slots hold distinct paths. */
  ghost predicate DistinctPaths(s: Slots) {
    forall i, j | 0 <= i < j < MAX_PATHS && s[i].p.Some? :: s[i].p != s[j].p
  }

  predicate Present(s: Slots, path: Path) { exists i | 0 <= i < MAX_PATHS :: s[i].p == Some(path) }

  /** i is the first free slot. */
  predicate FirstFree(s: Slots, i: nat) { i < MAX_PATHS && s[i].p.None? && forall j | 0 <= j < i :: s[j].p.Some? }

  /** getNominatedPathIdx from slot i on: the first slot that holds the path, or MAX_PATHS. */
  function PathIdxFrom(s: Slots, path: Path, i: nat): (r: nat)
    requires i <= MAX_PATHS
    ensures i <= r <= MAX_PATHS && (forall j | i <= j < r :: s[j].p != Some(path))
    ensures r < MAX_PATHS ==> s[r].p == Some(path)
    decreases MAX_PATHS - i
  {
    if i == MAX_PATHS || s[i].p == Some(path) then i else PathIdxFrom(s, path, i + 1)
  }

  function PathIdx(s: Slots, path: Path): (r: nat)
    ensures r <= MAX_PATHS && (r < MAX_PATHS <==> Present(s, path)) && (r < MAX_PATHS ==> s[r].p == Some(path))
  {
    PathIdxFrom(s, path, 0)
  }

  /** The first free slot from i on, or MAX_PATHS. */
  function FreeFrom(s: Slots, i: nat): (r: nat)
    requires i <= MAX_PATHS
    ensures i <= r <= MAX_PATHS && (forall j | i <= j < r :: s[j].p.Some?) && (r < MAX_PATHS ==> s[r].p.None?)
    decreases MAX_PATHS - i
  {
    if i == MAX_PATHS || s[i].p.None? then i else FreeFrom(s, i + 1)
  }

  predicate SharesLink(s: Slots, i: nat, j: nat, linkOf: Path -> Option<Link>, link: Link)
    requires i < MAX_PATHS && j < MAX_PATHS
  {
    j != i && LinkAt(s, linkOf, j) == Some(link)
  }

  /** The slots after a new path was put into the free slot i. */
  function Seated(s: Slots, i: nat, path: Path, now: int, linkOf: Path -> Option<Link>): Slots
    requires i < MAX_PATHS
  {
    var seat := s[i].(p := Some(path), whenNominated := Unsigned(now));
    match linkOf(path)
    case None => s[i := seat]
    case Some(link) =>
      seq(MAX_PATHS, j requires 0 <= j < MAX_PATHS =>
        if j == i then
          seat.(ipvPref := link.ipvPref, spare := link.spare,
                onlyPathOnLink := !exists k | 0 <= k < MAX_PATHS :: SharesLink(s, i, k, linkOf, link))
        else if SharesLink(s, i, j, linkOf, link) then s[j].(onlyPathOnLink := false) else s[j])
  }

  /** The slots after nomination: a path that is new gets the first free slot, if there is one. */
  function Nominated(s: Slots, path: Path, w: World): Slots {
    var seat := FreeFrom(s, 0);
    if Present(s, path) || seat == MAX_PATHS then s else Seated(s, seat, path, w.now, w.linkOf)
  }

  lemma SeatedPaths(s: Slots, i: nat, path: Path, now: int, linkOf: Path -> Option<Link>)
    requires i < MAX_PATHS
    ensures var t := Seated(s, i, path, now, linkOf);
      && t[i].p == Some(path) && t[i].assignedFlowCount == s[i].assignedFlowCount
      && forall j | 0 <= j < MAX_PATHS && j != i :: t[j] == s[j].(onlyPathOnLink := t[j].onlyPathOnLink)
  {
    hide SharesLink;
    var t := Seated(s, i, path, now, linkOf);
    forall j | 0 <= j < MAX_PATHS && j != i
      ensures t[j] == s[j].(onlyPathOnLink := t[j].onlyPathOnLink)
    {
    }
  }

  /** A new path leaves the paths distinct, and every other slot as it was but for its only-path mark. */
  lemma SeatedKeeps(s: Slots, i: nat, path: Path, now: int, linkOf: Path -> Option<Link>)
    requires DistinctPaths(s) && !Present(s, path) && FirstFree(s, i)
    ensures DistinctPaths(Seated(s, i, path, now, linkOf)) && Present(Seated(s, i, path, now, linkOf), path)
  {
    hide Seated;
    SeatedPaths(s, i, path, now, linkOf);
    var t := Seated(s, i, path, now, linkOf);
    assert forall j | 0 <= j < MAX_PATHS && j != i :: t[j].p == s[j].p;
  }

  lemma DistinctRefreshed(s: Slots, t: Slots)
    requires DistinctPaths(s) && forall i | 0 <= i < MAX_PATHS :: t[i].p == s[i].p || t[i].p.None?
    ensures DistinctPaths(t)
  {
  }
}
