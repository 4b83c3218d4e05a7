/** What a membership record remembers, and how each credential message changes it. */
module Credentials {
  import opened Widths
  import opened Blocks
  import opened Wrappers

  /** A 64-bit word read as a signed integer. */
  function ToInt64(x: uint64): int { if x < U63 then x else x - U64 }

  /** The two's complement reading: the same residue, in the signed range. */
  lemma ToInt64Is(x: uint64)
    ensures -0x8000_0000_0000_0000 <= ToInt64(x) < 0x8000_0000_0000_0000 && (ToInt64(x) - x) % U64 == 0
  {
  }

  // ---- Certificates of membership ----

  datatype Qualifier = Qualifier(id: uint64, value: uint64, maxDelta: uint64)

  datatype Com = Com(qualifiers: seq<Qualifier>, signedBy: Address, signature: Bytes)

  const COM_RESERVED_ID_TIMESTAMP: uint64 := 0

  /** The value of the first timestamp qualifier, as a signed integer, or zero. */
  function Timestamp(com: Com): int { TimestampFrom(com.qualifiers) }

  function TimestampFrom(qs: seq<Qualifier>): int {
    if qs == [] then 0
    else if qs[0].id == COM_RESERVED_ID_TIMESTAMP then ToInt64(qs[0].value)
    else TimestampFrom(qs[1..])
  }

  lemma {:induction false} TimestampSkips(qs: seq<Qualifier>, i: nat)
    requires i <= |qs| && forall j | 0 <= j < i :: qs[j].id != COM_RESERVED_ID_TIMESTAMP
    ensures TimestampFrom(qs) == TimestampFrom(qs[i..])
  {
    if i > 0 {
      TimestampSkips(qs[1..], i - 1);
      assert qs[1..][i - 1..] == qs[i..];
    } else {
      assert qs[0..] == qs;
    }
  }

  method ComTimestamp(com: Com) returns (t: int)
    ensures t == Timestamp(com)
  {
    var qs := com.qualifiers;
    for i := 0 to |qs|
      invariant forall j | 0 <= j < i :: qs[j].id != COM_RESERVED_ID_TIMESTAMP
    {
      TimestampSkips(qs, i);
      if qs[i].id == COM_RESERVED_ID_TIMESTAMP {
        return ToInt64(qs[i].value);
      }
    }
    TimestampSkips(qs, |qs|);
    return 0;
  }

  const NO_COM := Com([], 0, [])

  // ---- The multicast gate ----

  const ZT_MULTICAST_ANNOUNCE_PERIOD: int := 60000

  /** Whether the gate opens at a time, and when it opened last. */
  function Gate(last: int, now: int): (bool, int) {
    if now - last >= ZT_MULTICAST_ANNOUNCE_PERIOD then (true, now) else (false, last)
  }

  /** When the gate opens if it is tried at these times, one after the other. */
  function Openings(last: int, times: seq<int>): (o: seq<bool>)
    ensures |o| == |times|
    decreases |times|
  {
    if times == [] then [] else var (open, later) := Gate(last, times[0]); [open] + Openings(later, times[1..])
  }

  /** It opens exactly if a whole period has passed since every earlier opening. */
  lemma {:induction false} GateOpensExactly(last: int, times: seq<int>, j: nat)
    requires j < |times|
    ensures Openings(last, times)[j] <==>
      && times[j] - last >= ZT_MULTICAST_ANNOUNCE_PERIOD
      && forall i | 0 <= i < j && Openings(last, times)[i] :: times[j] - times[i] >= ZT_MULTICAST_ANNOUNCE_PERIOD
    decreases |times|
  {
    if j > 0 {
      var later := Gate(last, times[0]).1;
      var o, rest := Openings(last, times), Openings(later, times[1..]);
      GateOpensExactly(later, times[1..], j - 1);
      assert forall i | 0 < i < j :: o[i] == rest[i - 1] && times[i] == times[1..][i - 1];
      assert forall i | 0 <= i < j - 1 :: rest[i] == o[i + 1] && times[1..][i] == times[i + 1];
    }
  }

  // ---- The other credentials ----

  datatype Kind = CapabilityKind | TagKind | CooKind

  /** A credential's type code on the wire. */
  function Code(kind: Kind): (c: uint32) {
    match kind
    case CapabilityKind => 2
    case TagKind => 3
    case CooKind => 4
  }

  const CREDENTIAL_TYPE_COM: uint32 := 1

  /** A tag, capability or certificate of ownership: the fields this record looks at, and the rest. */
  datatype Credential = Credential(id: uint32, timestamp: int, body: Bytes)

  datatype Revocation = Revocation(typeCode: uint32, credentialId: uint32, threshold: int)

  /** What checking a signature says: 0 good, 1 the signer must be looked up first, anything else bad. */
  datatype Verdict = Good | Unknown | Bad

  datatype Result = Rejected | AcceptedNew | AcceptedRedundant | Deferred

  /** The part of a network's configuration that dates credentials. */
  datatype Dating = Dating(timestamp: int, maxDelta: int)

  function CredentialKey(code: uint32, id: uint32): (k: uint64) { code * U32 + id }

  lemma KeysDiffer(c: uint32, i: uint32, d: uint32, j: uint32)
    ensures CredentialKey(c, i) == CredentialKey(d, j) <==> c == d && i == j
  {
    if CredentialKey(c, i) == CredentialKey(d, j) {
      assert i == CredentialKey(c, i) % U32 && j == CredentialKey(d, j) % U32;
    }
  }

  // ---- The record and its transitions ----

  type Held = map<uint32, Credential>

  datatype State = State(com: Com, comThreshold: int, revocations: map<uint64, int>, caps: Held, tags: Held, coos: Held)

  function HeldOf(s: State, kind: Kind): Held {
    match kind
    case CapabilityKind => s.caps
    case TagKind => s.tags
    case CooKind => s.coos
  }

  function WithHeld(s: State, kind: Kind, held: Held): (t: State)
    ensures forall k :: HeldOf(t, k) == if k == kind then held else HeldOf(s, k)
  {
    match kind
    case CapabilityKind => s.(caps := held)
    case TagKind => s.(tags := held)
    case CooKind => s.(coos := held)
  }

  /** A credential lies under its own id. */
  ghost predicate WellKept(s: State) {
    forall kind, id | id in HeldOf(s, kind) :: HeldOf(s, kind)[id].id == id
  }

  const START := State(NO_COM, 0, map[], map[], map[], map[])

  ghost predicate SameHeld(s: State, t: State) { forall kind :: HeldOf(s, kind) == HeldOf(t, kind) }

  function AddCom(s: State, com: Com, v: Verdict): (p: (Result, State))
    ensures SameHeld(s, p.1) && (WellKept(s) ==> WellKept(p.1))
  {
    if Timestamp(com) <= s.comThreshold then (Rejected, s)
    else if Timestamp(com) < Timestamp(s.com) then (Rejected, s)
    else if s.com == com then (AcceptedRedundant, s)
    else match v
      case Good => (AcceptedNew, s.(com := com))
      case Unknown => (Deferred, s)
      case Bad => (Rejected, s)
  }

  /** The template that adds a tag, capability or certificate of ownership to its table. */
  function AddTo(held: Held, revocations: map<uint64, int>, kind: Kind, c: Credential, v: Verdict): (Result, Held) {
    var key := CredentialKey(Code(kind), c.id);
    if c.id in held && held[c.id].timestamp > c.timestamp then (Rejected, held)
    else if c.id in held && held[c.id] == c then (AcceptedRedundant, held)
    else if key in revocations && revocations[key] >= c.timestamp then (Rejected, held)
    else match v
      case Good => (AcceptedNew, held[c.id := c])
      case Unknown => (Deferred, held)
      case Bad => (Rejected, held)
  }

  function AddCredential(s: State, kind: Kind, c: Credential, v: Verdict): (p: (Result, State))
    ensures WellKept(s) ==> WellKept(p.1)
  {
    var (r, held) := AddTo(HeldOf(s, kind), s.revocations, kind, c, v);
    (r, WithHeld(s, kind, held))
  }

  function KindOf(code: uint32): (k: Option<Kind>)
    ensures forall kind: Kind :: k == Some(kind) <==> Code(kind) == code
  {
    if code == 2 then Some(CapabilityKind)
    else if code == 3 then Some(TagKind)
    else if code == 4 then Some(CooKind)
    else None
  }

  function Stored(revocations: map<uint64, int>, key: uint64): int {
    if key in revocations then revocations[key] else 0
  }

  function AddRevocation(s: State, r: Revocation, v: Verdict): (p: (Result, State))
    ensures SameHeld(s, p.1) && (WellKept(s) ==> WellKept(p.1))
  {
    match v
    case Bad => (Rejected, s)
    case Unknown => (Deferred, s)
    case Good =>
      if r.typeCode == CREDENTIAL_TYPE_COM then
        if r.threshold > s.comThreshold then (AcceptedNew, s.(comThreshold := r.threshold)) else (AcceptedRedundant, s)
      else if KindOf(r.typeCode).Some? then
        var key := CredentialKey(r.typeCode, r.credentialId);
        var stored := Stored(s.revocations, key);
        if stored < r.threshold
        then (AcceptedNew, s.(revocations := s.revocations[key := r.threshold], comThreshold := r.threshold))
        else (AcceptedRedundant, s.(revocations := s.revocations[key := stored]))
      else (Rejected, s)
  }

  /** The credential is near the network's own timestamp and newer than its revocation threshold, if it has one. */
  predicate TimestampValid(d: Dating, revocations: map<uint64, int>, kind: Kind, c: Credential) {
    && (if c.timestamp >= d.timestamp then c.timestamp - d.timestamp else d.timestamp - c.timestamp) <= d.maxDelta
    && var key := CredentialKey(Code(kind), c.id); (key in revocations ==> c.timestamp > revocations[key])
  }

  function Cleaned(held: Held, d: Dating, revocations: map<uint64, int>, kind: Kind): Held {
    map id | id in held && TimestampValid(d, revocations, kind, held[id]) :: held[id]
  }

  function Clean(s: State, d: Dating): (t: State)
    ensures forall kind :: HeldOf(t, kind) == Cleaned(HeldOf(s, kind), d, s.revocations, kind)
    ensures WellKept(s) ==> WellKept(t)
  {
    s.(caps := Cleaned(s.caps, d, s.revocations, CapabilityKind), tags := Cleaned(s.tags, d, s.revocations, TagKind),
       coos := Cleaned(s.coos, d, s.revocations, CooKind))
  }

  // ---- Runs ----

  datatype Event =
    | NewCom(com: Com, verdict: Verdict)
    | NewCredential(kind: Kind, credential: Credential, verdict: Verdict)
    | NewRevocation(revocation: Revocation, verdict: Verdict)
    | CleanUp(dating: Dating)

  function Next(s: State, e: Event): (t: State)
    ensures WellKept(s) ==> WellKept(t)
  {
    match e
    case NewCom(com, v) => AddCom(s, com, v).1
    case NewCredential(kind, c, v) => AddCredential(s, kind, c, v).1
    case NewRevocation(r, v) => AddRevocation(s, r, v).1
    case CleanUp(d) => Clean(s, d)
  }

  function Run(s: State, events: seq<Event>): (t: State)
    ensures WellKept(s) ==> WellKept(t)
    decreases events
  {
    if events == [] then s else Run(Next(s, events[0]), events[1..])
  }

  lemma RunTurn(s: State, events: seq<Event>)
    ensures Run(s, events) == if events == [] then s else Run(Next(s, events[0]), events[1..])
  {
  }

  // ---- Where what is remembered comes from ----

  /** A credential is newly accepted exactly if it checks out, nothing newer and not the same is held under its id, and
      it is not revoked. Then it is stored, and otherwise nothing changes. */
  lemma AcceptedExactly(s: State, kind: Kind, c: Credential, v: Verdict)
    ensures var (r, t) := AddCredential(s, kind, c, v); var held := HeldOf(s, kind);
      var key := CredentialKey(Code(kind), c.id);
      && (r == AcceptedNew <==>
           && v == Good
           && (c.id in held ==> held[c.id].timestamp <= c.timestamp && held[c.id] != c)
           && (key in s.revocations ==> s.revocations[key] < c.timestamp))
      && (r == AcceptedNew ==> c.id in HeldOf(t, kind) && HeldOf(t, kind)[c.id] == c)
      && (r != AcceptedNew ==> t == s)
      && (r == Deferred ==> v == Unknown)
  {
  }

  lemma AcceptedComExactly(s: State, com: Com, v: Verdict)
    ensures var (r, t) := AddCom(s, com, v);
      && (r == AcceptedNew <==>
           v == Good && com != s.com && s.comThreshold < Timestamp(com) && Timestamp(s.com) <= Timestamp(com))
      && t == (if r == AcceptedNew then s.(com := com) else s)
      && (r == Deferred ==> v == Unknown)
  {
    hide Timestamp;
  }

  /** An event that adds this credential, verified. */
  predicate Adds(e: Event, kind: Kind, c: Credential) { e == NewCredential(kind, c, Good) }

  lemma HeldStep(s: State, e: Event, kind: Kind, id: uint32)
    requires id in HeldOf(Next(s, e), kind)
    ensures var c := HeldOf(Next(s, e), kind)[id];
      (id in HeldOf(s, kind) && HeldOf(s, kind)[id] == c) || Adds(e, kind, c)
  {
    hide AddCom, AddRevocation, TimestampValid, WellKept;
  }

  /** After any run a stored credential was there at the start, or came in a message that checked out. */
  lemma {:induction false} HeldWereVerified(s: State, events: seq<Event>, kind: Kind, id: uint32)
    requires id in HeldOf(Run(s, events), kind)
    ensures var c := HeldOf(Run(s, events), kind)[id];
      || (id in HeldOf(s, kind) && HeldOf(s, kind)[id] == c)
      || exists i | 0 <= i < |events| :: Adds(events[i], kind, c)
    decreases |events|
  {
    hide Next, Adds;
    if events != [] {
      var c := HeldOf(Run(s, events), kind)[id];
      HeldWereVerified(Next(s, events[0]), events[1..], kind, id);
      if id in HeldOf(Next(s, events[0]), kind) && HeldOf(Next(s, events[0]), kind)[id] == c {
        HeldStep(s, events[0], kind, id);
        assert Adds(events[0], kind, c) ==> exists i | 0 <= i < |events| :: Adds(events[i], kind, c);
      } else {
        var i :| 0 <= i < |events| - 1 && Adds(events[1..][i], kind, c);
        assert events[1..][i] == events[i + 1];
      }
    }
  }

  /** And so did the stored certificate of membership. */
  lemma {:induction false} ComWasVerified(s: State, events: seq<Event>)
    ensures var com := Run(s, events).com;
      com == s.com || exists i | 0 <= i < |events| :: events[i] == NewCom(com, Good)
    decreases |events|
  {
    if events != [] {
      var com := Run(s, events).com;
      ComWasVerified(Next(s, events[0]), events[1..]);
      ComStep(s, events[0]);
      hide Next;
      if com == Next(s, events[0]).com {
        assert events[0] == NewCom(com, Good) ==> exists i | 0 <= i < |events| :: events[i] == NewCom(com, Good);
      } else {
        var i :| 0 <= i < |events| - 1 && events[1..][i] == NewCom(com, Good);
        assert events[i + 1] == NewCom(com, Good);
      }
    }
  }

  lemma ComStep(s: State, e: Event)
    ensures Next(s, e).com == s.com || e == NewCom(Next(s, e).com, Good)
  {
    hide AddTo, Timestamp, WellKept, Cleaned;
  }

  /** A revocation that checked out, for this key and threshold. */
  predicate Revokes(e: Event, key: uint64, threshold: int) {
    && e.NewRevocation? && e.verdict == Good && e.revocation.threshold == threshold
    && CredentialKey(e.revocation.typeCode, e.revocation.credentialId) == key
  }

  lemma RevocationStep(s: State, e: Event, key: uint64)
    requires key in Next(s, e).revocations
    ensures var t := Next(s, e).revocations[key];
      t == Stored(s.revocations, key) || Revokes(e, key, t)
  {
    hide AddTo, Timestamp, WellKept, Cleaned, CredentialKey;
  }

  /** A stored threshold is that of the start, or zero if there was none, or came in a revocation that checked out. */
  lemma {:induction false} RevocationsWereVerified(s: State, events: seq<Event>, key: uint64)
    requires key in Run(s, events).revocations
    ensures var t := Run(s, events).revocations[key];
      t == Stored(s.revocations, key) || exists i | 0 <= i < |events| :: Revokes(events[i], key, t)
    decreases |events|
  {
    hide Next, Revokes;
    if events != [] {
      var t := Run(s, events).revocations[key];
      var later := Next(s, events[0]);
      RevocationsWereVerified(later, events[1..], key);
      if t == Stored(later.revocations, key) {
        if key in later.revocations {
          RevocationStep(s, events[0], key);
          assert Revokes(events[0], key, t) ==> exists i | 0 <= i < |events| :: Revokes(events[i], key, t);
        } else {
          RevocationsStay(s, events[0], key);
        }
      } else {
        var i :| 0 <= i < |events| - 1 && Revokes(events[1..][i], key, t);
        assert events[1..][i] == events[i + 1];
      }
    }
  }

  lemma RevocationsStay(s: State, e: Event, key: uint64)
    ensures key in s.revocations ==> key in Next(s, e).revocations
  {
    hide AddTo, Timestamp, WellKept, Cleaned, CredentialKey;
  }

  /** While nothing is cleaned up, what is held under an id is only replaced by what is not older. */
  lemma {:induction false} HeldNeverOlder(s: State, events: seq<Event>, kind: Kind, id: uint32)
    requires id in HeldOf(s, kind) && forall i | 0 <= i < |events| :: !events[i].CleanUp?
    ensures id in HeldOf(Run(s, events), kind)
    ensures HeldOf(s, kind)[id].timestamp <= HeldOf(Run(s, events), kind)[id].timestamp
    decreases |events|
  {
    if events != [] {
      NotOlder(s, events[0], kind, id);
      hide Next, HeldOf;
      HeldNeverOlder(Next(s, events[0]), events[1..], kind, id);
    }
  }

  lemma NotOlder(s: State, e: Event, kind: Kind, id: uint32)
    requires id in HeldOf(s, kind) && !e.CleanUp?
    ensures id in HeldOf(Next(s, e), kind)
    ensures HeldOf(s, kind)[id].timestamp <= HeldOf(Next(s, e), kind)[id].timestamp
  {
    hide AddCom, AddRevocation, TimestampValid, WellKept;
  }

  /** Cleaning keeps exactly what is at most maxDelta away from the network's timestamp and newer than its threshold. */
  lemma CleanKeepsExactly(s: State, d: Dating, kind: Kind, id: uint32)
    ensures id in HeldOf(Clean(s, d), kind) <==>
      && id in HeldOf(s, kind)
      && var c := HeldOf(s, kind)[id]; var key := CredentialKey(Code(kind), c.id);
         && -d.maxDelta <= c.timestamp - d.timestamp <= d.maxDelta
         && (key in s.revocations ==> s.revocations[key] < c.timestamp)
    ensures id in HeldOf(Clean(s, d), kind) ==> HeldOf(Clean(s, d), kind)[id] == HeldOf(s, kind)[id]
  {
  }

  // ---- Revocation over runs ----

  ghost predicate RevokedUpTo(s: State, kind: Kind, id: uint32, threshold: int) {
    var key := CredentialKey(Code(kind), id); key in s.revocations && threshold <= s.revocations[key]
  }

  lemma RevokedStays(s: State, e: Event, kind: Kind, id: uint32, threshold: int)
    requires RevokedUpTo(s, kind, id, threshold)
    ensures RevokedUpTo(Next(s, e), kind, id, threshold)
  {
  }

  lemma {:induction false} RevokedForever(s: State, events: seq<Event>, kind: Kind, id: uint32, threshold: int)
    requires RevokedUpTo(s, kind, id, threshold)
    ensures RevokedUpTo(Run(s, events), kind, id, threshold)
    decreases events
  {
    if events != [] {
      RevokedStays(s, events[0], kind, id, threshold);
      RevokedForever(Next(s, events[0]), events[1..], kind, id, threshold);
    }
  }

  /** Once a verified revocation has been processed, in every later state of every run no credential of its type and
      id with a timestamp at most its threshold counts as valid, under any configuration. */
  lemma RevocationIsPermanent(s: State, r: Revocation, kind: Kind, later: seq<Event>, d: Dating, c: Credential)
    requires r.typeCode == Code(kind) && c.id == r.credentialId && c.timestamp <= r.threshold
    ensures !TimestampValid(d, Run(Next(s, NewRevocation(r, Good)), later).revocations, kind, c)
  {
    var t := Next(s, NewRevocation(r, Good));
    assert RevokedUpTo(t, kind, c.id, r.threshold);
    RevokedForever(t, later, kind, c.id, r.threshold);
  }

  lemma ComNotOlder(s: State, e: Event)
    ensures Timestamp(s.com) <= Timestamp(Next(s, e).com)
  {
    hide Timestamp;
  }

  /** The stored tag with this id, if it is valid now. */
  function TagAt(s: State, d: Dating, id: uint32): Option<Credential> {
    if id in s.tags && TimestampValid(d, s.revocations, TagKind, s.tags[id]) then Some(s.tags[id]) else None
  }

  /** So a record never again serves a tag under a revoked id that is not newer than the threshold, whatever it held
      before. */
  lemma RevokedTagNeverServed(s: State, r: Revocation, later: seq<Event>, d: Dating)
    requires WellKept(s) && r.typeCode == Code(TagKind)
    ensures var tag := TagAt(Run(Next(s, NewRevocation(r, Good)), later), d, r.credentialId);
      tag.Some? ==> tag.value.timestamp > r.threshold
  {
    var t := Run(Next(s, NewRevocation(r, Good)), later);
    var tag := TagAt(t, d, r.credentialId);
    if tag.Some? {
      assert HeldOf(t, TagKind)[r.credentialId].id == r.credentialId;
      if tag.value.timestamp <= r.threshold { RevocationIsPermanent(s, r, TagKind, later, d, tag.value); }
    }
  }

  /** Nor is such a credential ever accepted again. */
  lemma RevokedNeverAccepted(s: State, r: Revocation, kind: Kind, later: seq<Event>, c: Credential, v: Verdict)
    requires r.typeCode == Code(kind) && c.id == r.credentialId && c.timestamp <= r.threshold
    ensures AddCredential(Run(Next(s, NewRevocation(r, Good)), later), kind, c, v).0 in {Rejected, AcceptedRedundant}
  {
    var t := Next(s, NewRevocation(r, Good));
    assert RevokedUpTo(t, kind, c.id, r.threshold);
    RevokedForever(t, later, kind, c.id, r.threshold);
  }

  /** The timestamp of the stored membership certificate never decreases. */
  lemma {:induction false} ComNeverOlder(s: State, events: seq<Event>)
    ensures Timestamp(s.com) <= Timestamp(Run(s, events).com)
    decreases events
  {
    if events != [] {
      ComNotOlder(s, events[0]);
      ComNeverOlder(Next(s, events[0]), events[1..]);
    }
  }

  /** The membership threshold itself is not monotone: exactly these events lower it. */
  lemma ThresholdDropsExactly(s: State, e: Event)
    ensures Next(s, e).comThreshold < s.comThreshold <==>
      && e.NewRevocation? && e.verdict == Good && KindOf(e.revocation.typeCode).Some?
      && var r := e.revocation;
         Stored(s.revocations, CredentialKey(r.typeCode, r.credentialId)) < r.threshold < s.comThreshold
  {
  }

  /** The membership threshold that an event stores, if it stores one. */
  function StoredBy(s: State, e: Event): Option<int> {
    if !e.NewRevocation? || e.verdict != Good then None
    else
      var r := e.revocation;
      var stores :=
        if r.typeCode == CREDENTIAL_TYPE_COM then s.comThreshold < r.threshold
        else KindOf(r.typeCode).Some? && Stored(s.revocations, CredentialKey(r.typeCode, r.credentialId)) < r.threshold;
      if stores then Some(r.threshold) else None
  }

  lemma ThresholdAfter(s: State, e: Event)
    ensures Next(s, e).comThreshold == var t := StoredBy(s, e); if t.Some? then t.value else s.comThreshold
  {
  }

  /** The state that event i finds. */
  function Before(s: State, events: seq<Event>, i: nat): State
    requires i <= |events|
  {
    Run(s, events[..i])
  }

  lemma {:induction false} RunLast(s: State, events: seq<Event>, e: Event)
    ensures Run(s, events + [e]) == Next(Run(s, events), e)
    decreases |events|
  {
    hide Next;
    if events == [] {
      assert ([e])[1..] == [];
      assert events + [e] == [e];
    } else {
      assert (events + [e])[1..] == events[1..] + [e];
      RunLast(Next(s, events[0]), events[1..], e);
    }
  }

  lemma BeforeNext(s: State, events: seq<Event>, i: nat)
    requires i < |events|
    ensures Before(s, events, i + 1) == Next(Before(s, events, i), events[i])
    ensures Before(s, events, |events|) == Run(s, events)
  {
    hide Next, Run;
    assert events[..i + 1] == events[..i] + [events[i]] && events[..|events|] == events;
    RunLast(s, events[..i], events[i]);
  }

  /** The last of the first m events that stores a membership threshold, if there is one. */
  function LastStored(s: State, events: seq<Event>, m: nat): (i: Option<nat>)
    requires m <= |events|
    ensures i.Some? ==> i.value < m && events[i.value].NewRevocation?
  {
    if m == 0 then None
    else if StoredBy(Before(s, events, m - 1), events[m - 1]).Some? then Some(m - 1)
    else LastStored(s, events, m - 1)
  }

  lemma {:induction false} LastStoredIs(s: State, events: seq<Event>, m: nat)
    requires m <= |events|
    ensures match LastStored(s, events, m)
      case None => forall j | 0 <= j < m :: StoredBy(Before(s, events, j), events[j]).None?
      case Some(i) =>
        && StoredBy(Before(s, events, i), events[i]) == Some(events[i].revocation.threshold)
        && forall j | i < j < m :: StoredBy(Before(s, events, j), events[j]).None?
  {
    hide Before;
    if m > 0 { LastStoredIs(s, events, m - 1); }
  }

  /** After a run the membership threshold is the one stored last, or the one at the start if none was stored. */
  lemma {:induction false} ThresholdAfterRun(s: State, events: seq<Event>, m: nat)
    requires m <= |events|
    ensures Before(s, events, m).comThreshold ==
      var i := LastStored(s, events, m); if i.Some? then events[i.value].revocation.threshold else s.comThreshold
  {
    hide Next, Run, Before;
    if m == 0 {
      NothingBefore(s, events);
    } else {
      ThresholdAfterRun(s, events, m - 1);
      BeforeNext(s, events, m - 1);
      ThresholdAfter(Before(s, events, m - 1), events[m - 1]);
    }
  }

  lemma NothingBefore(s: State, events: seq<Event>)
    ensures Before(s, events, 0) == s
  {
    hide Next;
  }

  /** A certificate that a verified revocation of memberships covers is accepted again exactly if the threshold stored
      last since then is below it, and no newer certificate is held. */
  lemma ReadmittedExactly(s: State, r: Revocation, later: seq<Event>, com: Com)
    requires r.typeCode == CREDENTIAL_TYPE_COM && Timestamp(com) <= r.threshold
    ensures
      var revoked := Next(s, NewRevocation(r, Good));
      var now := Run(revoked, later);
      AddCom(now, com, Good).0 != Rejected <==>
        && Timestamp(now.com) <= Timestamp(com)
        && var i := LastStored(revoked, later, |later|); i.Some? && later[i.value].revocation.threshold < Timestamp(com)
  {
    hide Run, Timestamp, LastStored, StoredBy;
    var revoked := Next(s, NewRevocation(r, Good));
    ThresholdAfterRun(revoked, later, |later|);
    assert later[..|later|] == later;
    assert revoked.comThreshold >= Timestamp(com);
  }

  /** That takes a revocation of another kind: one that raises its own entry, and lies below the certificate. */
  lemma {:induction false} ReadmissionNeedsDrop(s: State, events: seq<Event>, m: nat, ts: int) returns (i: nat)
    requires m <= |events| && s.comThreshold >= ts > Before(s, events, m).comThreshold
    ensures i < m && events[i].NewRevocation? && events[i].verdict == Good && events[i].revocation.threshold < ts
    ensures KindOf(events[i].revocation.typeCode).Some?
  {
    hide Run, Before;
    if m == 0 {
      NothingBefore(s, events);
      assert false;
    } else {
      BeforeNext(s, events, m - 1);
      if Before(s, events, m - 1).comThreshold < ts {
        i := ReadmissionNeedsDrop(s, events, m - 1, ts);
      } else {
        i := m - 1;
        ThresholdDropsExactly(Before(s, events, i), events[i]);
        ThresholdAfter(Before(s, events, i), events[i]);
      }
    }
  }

  /** A membership revocation at 1000, then a tag revocation at 5, and memberships from 6 on are accepted again. */
  lemma ThresholdCanDrop(com: Com)
    requires Timestamp(com) == 6
    ensures
      var revoked := Run(START, [NewRevocation(Revocation(CREDENTIAL_TYPE_COM, 0, 1000), Good)]);
      var after := Next(revoked, NewRevocation(Revocation(3, 7, 5), Good));
      AddCom(revoked, com, Good).0 == Rejected && AddCom(after, com, Good).0 == AcceptedNew
  {
  }
}
