/** The membership record: credential tables and the operations on them, which follow the transitions of Credentials. */
module Membership {
  import opened Widths
  import opened Blocks
  import opened Wrappers
  import opened Hashtable
  import opened Credentials

  type Creds = Table<uint32, Credential>
  type Thresholds = Table<uint64, int>

  const NO_CREDENTIAL := Credential(0, 0, [])

  method IsTimestampValid(d: Dating, revocations: Thresholds, kind: Kind, c: Credential) returns (r: bool)
    requires revocations.Valid()
    ensures r == TimestampValid(d, revocations.model, kind, c)
  {
    hide Table.Valid;
    var ts := c.timestamp;
    var delta := if ts >= d.timestamp then ts - d.timestamp else d.timestamp - ts;
    if delta <= d.maxDelta {
      var threshold := revocations.Get(CredentialKey(Code(kind), c.id));
      return threshold.None? || ts > threshold.value;
    }
    return false;
  }

  /** The template behind the three methods that add a tag, a capability or a certificate of ownership. */
  method AddCredImpl(remote: Creds, revocations: Thresholds, kind: Kind, c: Credential, v: Verdict) returns (r: Result)
    requires remote.Valid() && revocations.Valid() && remote.Footprint() !! revocations.Footprint()
    modifies remote.Footprint()
    ensures remote.Valid() && revocations.Valid() && fresh(remote.Footprint() - old(remote.Footprint()))
    ensures (r, remote.model) == AddTo(old(remote.model), revocations.model, kind, c, v)
  {
    hide Table.Valid;
    var rc := remote.Find(c.id);
    if rc != null {
      if rc.v.timestamp > c.timestamp {
        return Rejected;
      }
      if rc.v == c {
        return AcceptedRedundant;
      }
    }
    var rt := revocations.Get(CredentialKey(Code(kind), c.id));
    if rt.Some? && rt.value >= c.timestamp {
      return Rejected;
    }
    match v
    case Bad => return Rejected;
    case Good =>
      if rc == null {
        rc := remote.Index(c.id, NO_CREDENTIAL);
      }
      remote.Write(rc, c);
      assert remote.model == old(remote.model)[c.id := c];
      return AcceptedNew;
    case Unknown => return Deferred;
  }

  // ---- Cleaning ----

  ghost function KeysOf(todo: Chain<uint32, Credential>): set<uint32> { set n | n in todo :: n.k }

  /** Entries already passed are kept if they are valid; those in todo are still there. */
  ghost predicate Sieved(before: Held, now: Held, todo: set<uint32>, d: Dating, revocations: map<uint64, int>,
      kind: Kind) {
    && (forall id :: id in now <==> id in before && (id in todo || TimestampValid(d, revocations, kind, before[id])))
    && forall id | id in now :: now[id] == before[id]
  }

  lemma SieveStart(remote: Creds, d: Dating, revocations: map<uint64, int>, kind: Kind)
    requires remote.Valid()
    ensures Sieved(remote.model, remote.model, KeysOf(remote.Entries()), d, revocations, kind)
  {
    remote.EntriesAreModel();
    hide Table.Valid;
    forall id | id in remote.model
      ensures id in KeysOf(remote.Entries())
    {
      var n :| n in remote.Entries() && n.k == id;
    }
  }

  lemma NoKeys()
    ensures KeysOf([]) == {}
  {
  }

  lemma SieveKeys(n: Node<uint32, Credential>, todo: Chain<uint32, Credential>)
    requires DistinctKeys([n] + todo)
    ensures KeysOf([n] + todo) == KeysOf(todo) + {n.k} && n.k !in KeysOf(todo)
  {
    var all: Chain<uint32, Credential> := [n] + todo;
    forall m | m in todo
      ensures m.k != n.k && m in all
    {
      var y :| 0 <= y < |todo| && todo[y] == m;
      assert all[0] == n && all[y + 1] == m;
    }
    assert all[0] == n;
  }

  lemma SieveStep(before: Held, now: Held, todo: set<uint32>, id: uint32, d: Dating, revocations: map<uint64, int>,
      kind: Kind)
    requires Sieved(before, now, todo + {id}, d, revocations, kind) && id !in todo && id in now
    ensures if TimestampValid(d, revocations, kind, now[id]) then Sieved(before, now, todo, d, revocations, kind)
            else Sieved(before, now - {id}, todo, d, revocations, kind)
  {
    hide TimestampValid;
  }

  lemma SieveEnd(before: Held, now: Held, d: Dating, revocations: map<uint64, int>, kind: Kind)
    requires Sieved(before, now, {}, d, revocations, kind)
    ensures now == Cleaned(before, d, revocations, kind)
  {
    hide TimestampValid;
  }

  /** The template behind clean: it erases the entry the iterator just returned if its date is bad. */
  method CleanCredImpl(d: Dating, revocations: Thresholds, remote: Creds, kind: Kind)
    requires remote.Valid() && revocations.Valid() && remote.Footprint() !! revocations.Footprint()
    modifies remote.Footprint()
    ensures remote.Valid() && revocations.Valid() && remote.Footprint() <= old(remote.Footprint())
    ensures remote.model == Cleaned(old(remote.model), d, revocations.model, kind)
  {
    hide Table.Valid, Iterator.Valid, Sieved, KeysOf, Flat;
    ghost var before := remote.model;
    SieveStart(remote, d, revocations.model, kind);
    var i := new Iterator(remote);
    while true
      invariant i.Valid() && i.ht == remote && remote.Footprint() <= old(remote.Footprint()) && revocations.Valid()
      invariant Sieved(before, remote.model, KeysOf(i.Pending()), d, revocations.model, kind)
      decreases |i.Pending()|
    {
      i.PendingInTable();
      ghost var pending := i.Pending();
      var n := i.Next();
      if n == null { break; }
      SieveKeys(n, i.Pending());
      SieveStep(before, remote.model, KeysOf(i.Pending()), n.k, d, revocations.model, kind);
      var good := IsTimestampValid(d, revocations, kind, n.v);
      if !good {
        var erased := i.EraseLast(n);
      }
    }
    i.TableIsValid();
    NoKeys();
    SieveEnd(before, remote.model, d, revocations.model, kind);
  }

  /** Raises a stored threshold, which is created as zero if there is none. */
  method Raise(revocations: Thresholds, key: uint64, threshold: int) returns (raised: bool)
    requires revocations.Valid()
    modifies revocations.Footprint()
    ensures revocations.Valid() && fresh(revocations.Footprint() - old(revocations.Footprint()))
    ensures var stored := Stored(old(revocations.model), key);
      && raised == (stored < threshold)
      && revocations.model == old(revocations.model)[key := if raised then threshold else stored]
  {
    hide Table.Valid;
    var rt := revocations.Index(key, 0);
    raised := rt.v < threshold;
    if raised {
      revocations.Write(rt, threshold);
    }
    assert revocations.model ==
        old(revocations.model)[key := if raised then threshold else Stored(old(revocations.model), key)];
  }

  method EmptyTables(hashId: uint32 -> nat, hashKey: uint64 -> nat)
      returns (r: Thresholds, x: Creds, y: Creds, z: Creds)
    ensures r.Valid() && x.Valid() && y.Valid() && z.Valid()
    ensures r.model == map[] && x.model == map[] && y.model == map[] && z.model == map[]
    ensures r.Footprint() !! x.Footprint() !! y.Footprint() !! z.Footprint()
    ensures fresh(r.Footprint()) && fresh(x.Footprint()) && fresh(y.Footprint()) && fresh(z.Footprint())
  {
    hide Table.Valid, Table.Footprint;
    r := EmptyTable(hashKey, {});
    x := EmptyTable(hashId, r.Footprint());
    y := EmptyTable(hashId, r.Footprint() + x.Footprint());
    z := EmptyTable(hashId, r.Footprint() + x.Footprint() + y.Footprint());
  }

  method EmptyTable<K(==, !new), V>(hc: K -> nat, ghost others: set<object>) returns (t: Table<K, V>)
    ensures t.Valid() && t.model == map[] && fresh(t.Footprint()) && t.Footprint() !! others
  {
    hide Table.Valid;
    t := new Table(hc, 4);
  }

  // ---- The record ----

  class Membership {
    var lastUpdatedMulticast: int
    var comRevocationThreshold: int
    var com: Com
    const revocations: Thresholds
    const tags: Creds
    const caps: Creds
    const coos: Creds

    ghost predicate Apart()
      reads this, revocations, tags, caps, coos
    {
      && revocations.Footprint() !! tags.Footprint() !! caps.Footprint() !! coos.Footprint()
      && this !in revocations.Footprint() && this !in tags.Footprint() && this !in caps.Footprint()
      && this !in coos.Footprint()
    }

    ghost predicate Valid()
      reads this, revocations, tags, caps, coos, revocations.Footprint(), tags.Footprint(), caps.Footprint(),
          coos.Footprint()
    {
      && Apart() && revocations.Valid() && tags.Valid() && caps.Valid() && coos.Valid() && WellKept(Abstract())
    }

    ghost function Repr(): set<object>
      reads this, revocations, tags, caps, coos
    {
      {this} + revocations.Footprint() + tags.Footprint() + caps.Footprint() + coos.Footprint()
    }

    ghost function Abstract(): State
      reads this, revocations, tags, caps, coos
    {
      State(com, comRevocationThreshold, revocations.model, caps.model, tags.model, coos.model)
    }

    /** The hash functions of the tables are arbitrary. */
    constructor (hashId: uint32 -> nat, hashKey: uint64 -> nat)
      ensures Valid() && fresh(Repr()) && Abstract() == START
    {
      hide Table.Valid;
      lastUpdatedMulticast, comRevocationThreshold, com := 0, 0, NO_COM;
      var r, x, y, z := EmptyTables(hashId, hashKey);
      revocations, tags, caps, coos := r, x, y, z;
    }

    method AddCom(c: Com, v: Verdict) returns (r: Result)
      requires Valid()
      modifies this
      ensures Valid() && Repr() == old(Repr()) && (r, Abstract()) == Credentials.AddCom(old(Abstract()), c, v)
    {
      hide Table.Valid, Timestamp, WellKept;
      var newts := ComTimestamp(c);
      if newts <= comRevocationThreshold {
        return Rejected;
      }
      var oldts := ComTimestamp(com);
      if newts < oldts {
        return Rejected;
      }
      if com == c {
        return AcceptedRedundant;
      }
      match v
      case Bad => return Rejected;
      case Good =>
        com := c;
        assert Abstract() == Credentials.AddCom(old(Abstract()), c, v).1;
        return AcceptedNew;
      case Unknown => return Deferred;
    }

    method AddTag(c: Credential, v: Verdict) returns (r: Result)
      requires Valid()
      modifies Repr()
      ensures Valid() && fresh(Repr() - old(Repr())) && (r, Abstract()) == AddCredential(old(Abstract()), TagKind, c, v)
    {
      hide Table.Valid, AddTo, WellKept;
      r := AddCredImpl(tags, revocations, TagKind, c, v);
      assert Abstract() == AddCredential(old(Abstract()), TagKind, c, v).1;
    }

    method AddCapability(c: Credential, v: Verdict) returns (r: Result)
      requires Valid()
      modifies Repr()
      ensures Valid() && fresh(Repr() - old(Repr()))
      ensures (r, Abstract()) == AddCredential(old(Abstract()), CapabilityKind, c, v)
    {
      hide Table.Valid, AddTo, WellKept;
      r := AddCredImpl(caps, revocations, CapabilityKind, c, v);
      assert Abstract() == AddCredential(old(Abstract()), CapabilityKind, c, v).1;
    }

    method AddCoo(c: Credential, v: Verdict) returns (r: Result)
      requires Valid()
      modifies Repr()
      ensures Valid() && fresh(Repr() - old(Repr())) && (r, Abstract()) == AddCredential(old(Abstract()), CooKind, c, v)
    {
      hide Table.Valid, AddTo, WellKept;
      r := AddCredImpl(coos, revocations, CooKind, c, v);
      assert Abstract() == AddCredential(old(Abstract()), CooKind, c, v).1;
    }

    method AddRevocation(rev: Revocation, v: Verdict) returns (r: Result)
      requires Valid()
      modifies Repr()
      ensures Valid() && fresh(Repr() - old(Repr()))
      ensures (r, Abstract()) == Credentials.AddRevocation(old(Abstract()), rev, v)
    {
      hide Table.Valid, CredentialKey, WellKept;
      match v
      case Bad => return Rejected;
      case Unknown => return Deferred;
      case Good =>
        if rev.typeCode == CREDENTIAL_TYPE_COM {
          if rev.threshold > comRevocationThreshold {
            comRevocationThreshold := rev.threshold;
            assert Abstract() == Credentials.AddRevocation(old(Abstract()), rev, v).1;
            return AcceptedNew;
          }
          return AcceptedRedundant;
        } else if rev.typeCode == 2 || rev.typeCode == 3 || rev.typeCode == 4 {
          var raised := Raise(revocations, CredentialKey(rev.typeCode, rev.credentialId), rev.threshold);
          if raised {
            comRevocationThreshold := rev.threshold;
          }
          assert Abstract() == Credentials.AddRevocation(old(Abstract()), rev, v).1;
          return if raised then AcceptedNew else AcceptedRedundant;
        } else {
          return Rejected;
        }
    }

    method Clean(d: Dating)
      requires Valid()
      modifies Repr()
      ensures Valid() && Repr() <= old(Repr()) && Abstract() == Credentials.Clean(old(Abstract()), d)
    {
      hide Table.Valid, Cleaned, WellKept;
      CleanCredImpl(d, revocations, tags, TagKind);
      CleanCredImpl(d, revocations, caps, CapabilityKind);
      CleanCredImpl(d, revocations, coos, CooKind);
      assert Abstract() == Credentials.Clean(old(Abstract()), d);
    }

    method GetTag(d: Dating, id: uint32) returns (t: Option<Credential>)
      requires Valid()
      ensures t == TagAt(Abstract(), d, id)
    {
      hide Table.Valid, TimestampValid;
      var tag := tags.Get(id);
      if tag.Some? {
        var good := IsTimestampValid(d, revocations, TagKind, tag.value);
        if good { return tag; }
      }
      return None;
    }

    method MulticastLikeGate(now: int) returns (r: bool)
      requires Valid()
      modifies `lastUpdatedMulticast
      ensures Valid() && Abstract() == old(Abstract())
      ensures (r, lastUpdatedMulticast) == Gate(old(lastUpdatedMulticast), now)
    {
      hide Table.Valid, WellKept;
      if now - lastUpdatedMulticast >= ZT_MULTICAST_ANNOUNCE_PERIOD {
        lastUpdatedMulticast := now;
        return true;
      }
      return false;
    }

    /** Any run of credential messages and cleanings takes the record where the transitions say. */
    method Replay(events: seq<Event>)
      requires Valid()
      modifies Repr()
      ensures Valid() && fresh(Repr() - old(Repr())) && Abstract() == Run(old(Abstract()), events)
      decreases |events|
    {
      hide Membership.Valid, Membership.Apart, Membership.Repr, Membership.Abstract, Next, Run, Table.Footprint;
      RunTurn(Abstract(), events);
      if events != [] {
        Handle(events[0]);
        ghost var here := Repr();
        label Handled:
        Replay(events[1..]);
        assert forall o: object | o in Repr() - here :: !old@Handled(allocated(o));
        assert forall o: object | o in Repr() :: o in here || o in Repr() - here;
      }
    }

    method Handle(e: Event)
      requires Valid()
      modifies Repr()
      ensures Valid() && fresh(Repr() - old(Repr())) && Abstract() == Next(old(Abstract()), e)
    {
      hide Membership.Valid, Credentials.AddCom, AddCredential, Credentials.AddRevocation, Credentials.Clean,
          Table.Footprint;
      match e {
        case NewCom(c, v) =>
          var r := AddCom(c, v);
        case NewCredential(kind, c, v) =>
          var r := AddCredentialOf(kind, c, v);
        case NewRevocation(rev, v) =>
          var r := AddRevocation(rev, v);
        case CleanUp(d) =>
          Clean(d);
      }
    }

    method AddCredentialOf(kind: Kind, c: Credential, v: Verdict) returns (r: Result)
      requires Valid()
      modifies Repr()
      ensures Valid() && fresh(Repr() - old(Repr())) && (r, Abstract()) == AddCredential(old(Abstract()), kind, c, v)
    {
      hide Membership.Valid, AddCredential, Table.Footprint;
      match kind {
        case CapabilityKind => r := AddCapability(c, v);
        case TagKind => r := AddTag(c, v);
        case CooKind => r := AddCoo(c, v);
      }
    }

    /** Whether the peer may be on the network; agrees says whether the certificates agree. */
    method IsAllowedOnNetwork(isPublic: bool, agrees: bool) returns (r: bool)
      requires Valid()
      ensures r == (isPublic || (Timestamp(Abstract().com) > Abstract().comThreshold && agrees))
    {
      var ts := ComTimestamp(com);
      r := isPublic || (ts > comRevocationThreshold && agrees);
    }
  }

  /** Walks the capabilities that are valid now. */
  class CapabilityIterator {
    const m: Membership
    const d: Dating
    const hti: Iterator<uint32, Credential>

    ghost predicate Valid()
      reads this, m, m.revocations, m.tags, m.caps, m.coos
      reads m.revocations.Footprint(), m.tags.Footprint(), m.caps.Footprint(), m.coos.Footprint(), hti
    {
      hti.ht == m.caps && m.Valid() && hti.Valid()
    }

    constructor (m: Membership, d: Dating)
      requires m.Valid()
      ensures Valid() && this.m == m && this.d == d && fresh(hti) && hti.Pending() == m.caps.Entries()
    {
      hide Table.Valid, Iterator.Valid, WellKept;
      this.m, this.d := m, d;
      var i := new Iterator(m.caps);
      hti := i;
    }

    ghost predicate IsGood(n: Node<uint32, Credential>)
      reads this, m, m.revocations, n
    {
      TimestampValid(d, m.revocations.model, CapabilityKind, n.v)
    }

    /** The next capability that is valid now; the ones passed over are not. */
    method Next() returns (c: Node?<uint32, Credential>, ghost skipped: Chain<uint32, Credential>)
      requires Valid()
      modifies hti
      ensures Valid() && forall n | n in skipped :: !IsGood(n)
      ensures if c == null then old(hti.Pending()) == skipped
        else old(hti.Pending()) == skipped + [c] + hti.Pending() && IsGood(c)
    {
      hide Table.Valid, Iterator.Valid, TimestampValid, Flat, Membership.Apart, DistinctKeys, WellKept;
      skipped := [];
      while true
        invariant Valid() && old(hti.Pending()) == skipped + hti.Pending() && forall n | n in skipped :: !IsGood(n)
        decreases |hti.Pending()|
      {
        hti.PendingInTable();
        c := hti.Next();
        if c == null { return; }
        var good := IsTimestampValid(d, m.revocations, CapabilityKind, c.v);
        if good { return; }
        skipped := skipped + [c];
      }
    }
  }

  // ---- A whole walk ----

  /** found are the capabilities that are valid and not under a key in todo, each once. */
  ghost predicate Gathered(found: seq<Credential>, held: Held, todo: set<uint32>, d: Dating,
      revocations: map<uint64, int>) {
    && (forall c :: c in found <==>
       c.id in held && c.id !in todo && held[c.id] == c && TimestampValid(d, revocations, CapabilityKind, c))
    && forall i, j | 0 <= i < j < |found| :: found[i].id != found[j].id
  }

  lemma KeysOfJoined(a: Chain<uint32, Credential>, b: Chain<uint32, Credential>)
    ensures KeysOf(a + b) == KeysOf(a) + KeysOf(b)
  {
    forall n | n in a || n in b
      ensures n in a + b
    {
    }
  }

  lemma ApartKeys(a: Chain<uint32, Credential>, b: Chain<uint32, Credential>)
    requires DistinctKeys(a + b)
    ensures KeysOf(a) !! KeysOf(b)
  {
    var all: Chain<uint32, Credential> := a + b;
    forall n, m | n in a && m in b
      ensures n.k != m.k
    {
      var x :| 0 <= x < |a| && a[x] == n;
      var y :| 0 <= y < |b| && b[y] == m;
      assert all[x] == n && all[|a| + y] == m;
    }
  }

  /** Entries that are passed over add nothing. */
  lemma GatherSkips(found: seq<Credential>, held: Held, skipped: Chain<uint32, Credential>, rest: set<uint32>,
      d: Dating, revocations: map<uint64, int>)
    requires Gathered(found, held, KeysOf(skipped) + rest, d, revocations) && KeysOf(skipped) !! rest
    requires forall n | n in skipped :: n.k in held && !TimestampValid(d, revocations, CapabilityKind, held[n.k])
    ensures Gathered(found, held, rest, d, revocations)
  {
    hide TimestampValid;
  }

  lemma GatherOne(found: seq<Credential>, held: Held, c: Credential, rest: set<uint32>, d: Dating,
      revocations: map<uint64, int>)
    requires Gathered(found, held, rest + {c.id}, d, revocations) && c.id !in rest
    requires c.id in held && held[c.id] == c && TimestampValid(d, revocations, CapabilityKind, c)
    ensures Gathered(found + [c], held, rest, d, revocations)
  {
    hide TimestampValid;
    forall i | 0 <= i < |found|
      ensures found[i].id != c.id
    {
      assert found[i] in found;
    }
  }

  /** Walking with the iterator to its end gives exactly the stored capabilities that are valid now, each once. */
  method ValidCapabilities(m: Membership, d: Dating) returns (found: seq<Credential>)
    requires m.Valid()
    ensures forall i, j | 0 <= i < j < |found| :: found[i].id != found[j].id
    ensures forall c :: c in found <==>
      && c.id in m.Abstract().caps
      && m.Abstract().caps[c.id] == c
      && TimestampValid(d, m.Abstract().revocations, CapabilityKind, c)
  {
    hide Table.Valid, Iterator.Valid, TimestampValid, Flat, Membership.Apart, DistinctKeys, KeysOf, Gathered;
    found := [];
    var i := new CapabilityIterator(m, d);
    NothingGathered(m.caps, d, m.revocations.model);
    OwnIds(m.Abstract());
    while true
      invariant i.Valid() && i.m == m && i.d == d && fresh(i.hti)
      invariant Gathered(found, m.caps.model, KeysOf(i.hti.Pending()), d, m.revocations.model)
      decreases |i.hti.Pending()|
    {
      i.hti.PendingInTable();
      ghost var before := i.hti.Pending();
      var c, skipped := i.Next();
      ghost var rest := i.hti.Pending();
      if c == null {
        NoKeys();
        assert KeysOf(skipped) + {} == KeysOf(skipped);
        GatherSkips(found, m.caps.model, skipped, {}, d, m.revocations.model);
        break;
      }
      GatherTurn(found, m.caps.model, before, skipped, c, rest, d, m.revocations.model);
      found := found + [c.v];
    }
    GatheredAll(found, m.caps.model, d, m.revocations.model);
  }

  lemma GatherTurn(found: seq<Credential>, held: Held, before: Chain<uint32, Credential>,
      skipped: Chain<uint32, Credential>, c: Node<uint32, Credential>, rest: Chain<uint32, Credential>, d: Dating,
      revocations: map<uint64, int>)
    requires before == skipped + [c] + rest && DistinctKeys(before)
    requires Gathered(found, held, KeysOf(before), d, revocations)
    requires forall n | n in before :: n.k in held && n.v == held[n.k] && n.v.id == n.k
    requires forall n | n in skipped :: !TimestampValid(d, revocations, CapabilityKind, n.v)
    requires TimestampValid(d, revocations, CapabilityKind, c.v)
    ensures Gathered(found + [c.v], held, KeysOf(rest), d, revocations)
  {
    hide TimestampValid, Gathered, DistinctKeys, KeysOf;
    assert before == skipped + ([c] + rest) == (skipped + [c]) + rest;
    ApartKeys(skipped, [c] + rest); ApartKeys(skipped + [c], rest);
    KeysOfJoined(skipped, [c] + rest); KeysOfJoined([c], rest); KeysOfJoined(skipped, [c]); KeyOfOne(c);
    assert forall n | n in skipped :: n in before;
    assert before[|skipped|] == c;
    GatherSkips(found, held, skipped, KeysOf([c] + rest), d, revocations);
    assert KeysOf([c] + rest) == KeysOf(rest) + {c.v.id};
    GatherOne(found, held, c.v, KeysOf(rest), d, revocations);
  }

  lemma KeyOfOne(n: Node<uint32, Credential>)
    ensures KeysOf([n]) == {n.k}
  {
    assert [n][0] == n;
  }

  lemma NothingGathered(remote: Creds, d: Dating, revocations: map<uint64, int>)
    requires remote.Valid()
    ensures Gathered([], remote.model, KeysOf(remote.Entries()), d, revocations)
  {
    remote.EntriesAreModel();
    hide Table.Valid, TimestampValid, DistinctKeys;
    forall id | id in remote.model
      ensures id in KeysOf(remote.Entries())
    {
      var n :| n in remote.Entries() && n.k == id;
    }
  }

  lemma OwnIds(s: State)
    requires WellKept(s)
    ensures forall id | id in s.caps :: s.caps[id].id == id
  {
    assert HeldOf(s, CapabilityKind) == s.caps;
  }

  lemma GatheredAll(found: seq<Credential>, held: Held, d: Dating, revocations: map<uint64, int>)
    requires Gathered(found, held, {}, d, revocations)
    ensures forall i, j | 0 <= i < j < |found| :: found[i].id != found[j].id
    ensures forall c :: c in found <==>
      c.id in held && held[c.id] == c && TimestampValid(d, revocations, CapabilityKind, c)
  {
    hide TimestampValid;
  }
}
