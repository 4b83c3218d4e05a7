/** The chain of custody of a capability: signing it on and verifying it, over any sound signature scheme. */
module CustodyChain {
  import opened Widths
  import opened Wrappers
  import opened Blocks
  import opened BigEndians
  import opened Buffers
  import opened Credentials
  import opened Rules
  import opened Capabilities
  import opened Gmac

  datatype Identity = Identity(address: Address, key: Bytes)

  datatype Signing = Signing(sign: (Identity, Bytes) -> Bytes, verify: (Identity, Bytes, Bytes) -> bool)

  /** A signature verifies under its signer's identity. */
  ghost predicate Sound(s: Signing) {
    forall id: Identity, m: Bytes :: s.verify(id, m, s.sign(id, m)) && |s.sign(id, m)| == ZT_ECC_SIGNATURE_LEN
  }

  type Scheme = s: Signing | Sound(s) witness Signing((id, m) => Zeros(ZT_ECC_SIGNATURE_LEN), (id, m, s) => true)

  /** What this node can look up, and how signatures work. */
  datatype Trust = Trust(scheme: Scheme, identityOf: Address -> Option<Identity>)

  function ControllerFor(nwid: uint64): Address { nwid / 0x100_0000 % U40 }

  /** The controller's address is the first five bytes of the network identifier. */
  lemma ControllerIsPrefix(nwid: uint64)
    ensures EncodeAddress(ControllerFor(nwid)) == BigEndian(nwid, 8)[..5]
  {
    hide BigEndian;
    LeadingBytes(nwid, 5, 3);
    assert Pow256(3) == 0x100_0000;
  }

  lemma FirstGiverIsPrefix(c: Capability, t: Trust)
    requires Sized(c) && Unbroken(c, t)
    ensures |c.custody| > 0 && |Encode(c)| >= 5
    ensures EncodeAddress(c.custody[0].from) == BigEndian(c.nwid, 8)[..5] == Encode(c)[..5]
  {
    hide BigEndian, EncodeRules, SignedBytes, EncodeChain, Sized, Holders;
    SizedCustody(c);
    assert LinkOk(c, t, 0);
    ControllerIsPrefix(c.nwid);
    NetworkFirst(c);
  }

  lemma NetworkFirst(c: Capability)
    requires Sized(c)
    ensures |Encode(c)| >= 8 && Encode(c)[..8] == BigEndian(c.nwid, 8)
  {
    hide BigEndian, EncodeRules, EncodeChain, Sized, Chain;
  }

  /** The holder that link i must come from. */
  function Giver(c: Capability, i: nat): Address
    requires Sized(c) && i <= |c.custody|
  {
    if i == 0 then ControllerFor(c.nwid) else c.custody[i - 1].to
  }

  /** Link i hands the capability on from the previous holder, who signed it. */
  predicate LinkOk(c: Capability, t: Trust, i: nat)
    requires Sized(c) && i < |c.custody|
  {
    var l := c.custody[i];
    && l.to != 0 && l.from != 0 && l.from == Giver(c, i)
    && t.identityOf(l.from).Some? && t.scheme.verify(t.identityOf(l.from).value, SignedBytes(c), l.signature)
  }

  /** An unbroken chain from the network's controller, each link signed by its holder. */
  predicate Unbroken(c: Capability, t: Trust)
    requires Sized(c)
  {
    ChainLengthOk(c) && Chain(c) != [] && forall i | 0 <= i < |Chain(c)| :: LinkOk(c, t, i)
  }

  lemma {:induction false} HoldersAre(custody: seq<Capabilities.Custody>, n: nat)
    requires n <= |custody| && (forall i | 0 <= i < n :: custody[i].to != 0) && (n < |custody| ==> custody[n].to == 0)
    ensures |Holders(custody)| == n
  {
    if n > 0 { HoldersAre(custody[1..], n - 1); }
  }

  lemma {:induction false} HoldersBeyond(custody: seq<Capabilities.Custody>, n: nat)
    requires n < |custody| && forall i | 0 <= i <= n :: custody[i].to != 0
    ensures |Holders(custody)| > n
  {
    if n > 0 { HoldersBeyond(custody[1..], n - 1); }
  }

  lemma ChainIs(c: Capability, n: nat)
    requires Sized(c) && ChainLengthOk(c) && n <= c.maxCustodyChainLength
    requires forall i | 0 <= i < n :: c.custody[i].to != 0
    requires n < c.maxCustodyChainLength ==> c.custody[n].to == 0
    ensures |Chain(c)| == n
  {
    HoldersAre(if c.maxCustodyChainLength < |c.custody| then c.custody[..c.maxCustodyChainLength] else c.custody, n);
  }

  lemma ChainBeyond(c: Capability, n: nat)
    requires Sized(c) && ChainLengthOk(c) && n < c.maxCustodyChainLength
    requires forall i | 0 <= i <= n :: c.custody[i].to != 0
    ensures |Chain(c)| > n
  {
    HoldersBeyond(if c.maxCustodyChainLength < |c.custody| then c.custody[..c.maxCustodyChainLength] else c.custody, n);
  }

  /** All before link k is in order, and k comes from the right holder, who cannot be looked up. */
  predicate UnknownAt(c: Capability, t: Trust, k: nat)
    requires Sized(c) && k < |c.custody|
  {
    && c.custody[k].from != 0 && c.custody[k].from == Giver(c, k) && t.identityOf(c.custody[k].from).None?
    && forall i | 0 <= i < k :: LinkOk(c, t, i)
  }

  /** verify: good exactly for an unbroken chain; unknown exactly when all before the first unknown signer is in
      order. */
  method Verify(c: Capability, t: Trust) returns (v: Verdict)
    requires Sized(c)
    ensures v == Good <==> Unbroken(c, t)
    ensures v == Good ==> EncodeAddress(c.custody[0].from) == BigEndian(c.nwid, 8)[..5]
    ensures v == Verdict.Unknown <==> ChainLengthOk(c) && exists k | 0 <= k < |Chain(c)| :: UnknownAt(c, t, k)
  {
    hide Chain, SignedBytes, Sized, BigEndian;
    ControllerIsPrefix(c.nwid);
    if c.maxCustodyChainLength < 1 || c.maxCustodyChainLength > ZT_MAX_CAPABILITY_CUSTODY_CHAIN_LENGTH {
      return Bad;
    }
    SizedCustody(c);
    for i := 0 to c.maxCustodyChainLength
      invariant forall j | 0 <= j < i :: LinkOk(c, t, j)
      invariant forall j | 0 <= j < i :: c.custody[j].to != 0
    {
      var l := c.custody[i];
      if i == 0 {
        if l.to == 0 {
          ChainIs(c, 0);
          return Bad;
        }
        if l.from == 0 || l.from != ControllerFor(c.nwid) {
          BadLink(c, t, 0);
          return Bad;
        }
      } else {
        if l.to == 0 {
          ChainIs(c, i); AllKnown(c, t, i);
          assert LinkOk(c, t, 0);
          return Good;
        }
        if l.from == 0 || l.from != c.custody[i - 1].to {
          BadLink(c, t, i);
          return Bad;
        }
      }
      ChainBeyond(c, i);
      var id := t.identityOf(l.from);
      match id {
        case Some(who) =>
          if !t.scheme.verify(who, SignedBytes(c), l.signature) {
            BadLink(c, t, i);
            return Bad;
          }
        case None =>
          BadLink(c, t, i);
          assert UnknownAt(c, t, i);
          return Verdict.Unknown;
      }
    }
    ChainIs(c, c.maxCustodyChainLength); AllKnown(c, t, c.maxCustodyChainLength);
    assert LinkOk(c, t, 0);
    return Good;
  }

  lemma SizedCustody(c: Capability)
    requires Sized(c)
    ensures |c.custody| == ZT_MAX_CAPABILITY_CUSTODY_CHAIN_LENGTH
  {
  }

  lemma BadLink(c: Capability, t: Trust, i: nat)
    requires Sized(c) && ChainLengthOk(c) && i < c.maxCustodyChainLength
    requires forall j | 0 <= j <= i :: c.custody[j].to != 0
    requires !LinkOk(c, t, i) && forall j | 0 <= j < i :: LinkOk(c, t, j)
    ensures !Unbroken(c, t) && i < |Chain(c)| && forall k | 0 <= k < |Chain(c)| && UnknownAt(c, t, k) :: k == i
  {
    hide Sized, SignedBytes, Chain;
    ChainBeyond(c, i);
    AllKnown(c, t, i);
  }

  lemma AllKnown(c: Capability, t: Trust, n: nat)
    requires Sized(c) && n <= |c.custody| && forall j | 0 <= j < n :: LinkOk(c, t, j)
    ensures forall k | 0 <= k < n :: !UnknownAt(c, t, k)
  {
    hide Sized, SignedBytes, Chain;
    forall k | 0 <= k < n
      ensures !UnknownAt(c, t, k)
    {
      assert LinkOk(c, t, k);
    }
  }

  // ---- The current holder ----

  function IssuedToOf(custody: seq<Capabilities.Custody>): Address {
    var h := Holders(custody);
    if h == [] then 0 else h[|h| - 1].to
  }

  method IssuedTo(c: Capability) returns (a: Address)
    requires Sized(c)
    ensures a == IssuedToOf(c.custody)
  {
    hide Holders;
    a := 0;
    for i := 0 to ZT_MAX_CAPABILITY_CUSTODY_CHAIN_LENGTH
      invariant (forall j | 0 <= j < i :: c.custody[j].to != 0) && a == if i == 0 then 0 else c.custody[i - 1].to
    {
      if c.custody[i].to == 0 {
        HoldersAre(c.custody, i);
        return a;
      }
      a := c.custody[i].to;
    }
    HoldersAre(c.custody, ZT_MAX_CAPABILITY_CUSTODY_CHAIN_LENGTH);
  }

  /** No holder after the end of the chain. */
  predicate Tidy(c: Capability)
    requires Sized(c)
  {
    ChainLengthOk(c) && forall i | |Chain(c)| <= i < |c.custody| :: c.custody[i].to == 0
  }

  lemma TidyHolders(c: Capability)
    requires Sized(c) && Tidy(c)
    ensures Holders(c.custody) == Chain(c)
  {
    hide Sized, Holders;
    SizedCustody(c);
    HoldersAre(c.custody, |Chain(c)|);
  }

  /** If verification succeeds, the links run unbroken from the controller to issuedTo. */
  lemma VerifiedReachesHolder(c: Capability, t: Trust)
    requires Sized(c) && Tidy(c) && Unbroken(c, t)
    ensures var n := |Chain(c)|;
      && 0 < n && c.custody[0].from == ControllerFor(c.nwid) && c.custody[n - 1].to == IssuedToOf(c.custody)
      && forall i | 0 < i < n :: c.custody[i].from == c.custody[i - 1].to
    ensures EncodeAddress(c.custody[0].from) == BigEndian(c.nwid, 8)[..5]
    ensures forall i | 0 <= i < |Chain(c)| ::
      var who := t.identityOf(c.custody[i].from);
      who.Some? && t.scheme.verify(who.value, SignedBytes(c), c.custody[i].signature)
  {
    hide Sized, SignedBytes, Holders, BigEndian;
    ControllerIsPrefix(c.nwid);
    forall i | 0 <= i < |Chain(c)|
      ensures var who := t.identityOf(c.custody[i].from);
        who.Some? && t.scheme.verify(who.value, SignedBytes(c), c.custody[i].signature)
    {
      assert LinkOk(c, t, i);
    }
    SizedCustody(c);
    TidyHolders(c);
    assert LinkOk(c, t, 0);
    forall i | 0 < i < |Chain(c)|
      ensures c.custody[i].from == c.custody[i - 1].to
    {
      assert LinkOk(c, t, i);
    }
  }

  /** A capability read from the wire has the sizes of its arrays, and is tidy. */
  lemma DecodedIsTidy(b: Bytes, p: nat)
    ensures var d := Decode(b, p); d.Done? ==> Sized(d.value.0) && Tidy(d.value.0)
  {
    hide DecodeExtra, DecodeRules, DecodeChain, Read8, Read16, Read32, Read64, Filled, Sized, Tidy, ChainLengthOk;
    var d := Decode(b, p);
    if d.Done? {
      var h := DecodeHead(b, p).value;
      DecodedRules(b, p + 22, Read16(b, p + 20).value);
      DecodedLinks(b, h.1, 0, h.0.max);
      FilledIsTidy(d.value.0, DecodeChain(b, h.1, 0, h.0.max).value.0);
    }
  }

  lemma FilledIsTidy(c: Capability, chain: seq<Capabilities.Custody>)
    requires Links(chain) && |chain| <= c.maxCustodyChainLength
    requires 1 <= c.maxCustodyChainLength <= ZT_MAX_CAPABILITY_CUSTODY_CHAIN_LENGTH
    requires c.custody == Filled(chain) && |c.rules| <= ZT_MAX_CAPABILITY_RULES && RulesOk(c.rules)
    ensures Sized(c) && Tidy(c)
  {
    hide RulesOk, Chain;
    forall i | 0 <= i < |c.custody|
      ensures |c.custody[i].signature| == ZT_ECC_SIGNATURE_LEN && (c.custody[i].to != 0 <==> i < |chain|)
    {
      if i < |chain| {
        assert c.custody[i] == chain[i] && chain[i] in chain;
      } else {
        assert c.custody[i] == NO_CUSTODY;
      }
    }
    ChainIs(c, |chain|);
  }

  lemma {:induction false} DecodedLinks(b: Bytes, p: nat, i: nat, max: uint8)
    ensures DecodeChain(b, p, i, max).Done? ==> Links(DecodeChain(b, p, i, max).value.0)
    decreases 7 - i
  {
    hide ReadAddress, Read8, Read16;
    var to := ReadAddress(b, p);
    if to.Done? && to.value != 0 && i < max && i < ZT_MAX_CAPABILITY_CUSTODY_CHAIN_LENGTH {
      var from, s := ReadAddress(b, p + 5), DecodeSignature(b, p + 10);
      if from.Done? && s.Done? { DecodedLinks(b, s.value.1, i + 1, max); }
    }
  }

  // ---- Signing on ----

  class SignedCapability {
    var c: Capability

    ghost predicate Valid()
      reads this
    {
      Sized(c)
    }

    constructor (c: Capability)
      requires Sized(c)
      ensures Valid() && this.c == c
    {
      this.c := c;
    }

    /** sign: fills the first free entry within the maximum, if there is one. */
    method Sign(scheme: Scheme, from: Identity, to: Address) returns (ok: bool)
      requires Valid()
      modifies this
      ensures Valid() && ok == HasRoom(old(c)) && c == if ok then SignedOn(old(c), scheme, from, to) else old(c)
    {
      hide Sized, Holders, SignedBytes;
      SizedCustody(c);
      var i := 0;
      while i < c.maxCustodyChainLength && i < ZT_MAX_CAPABILITY_CUSTODY_CHAIN_LENGTH
        invariant i <= ZT_MAX_CAPABILITY_CUSTODY_CHAIN_LENGTH && forall j | 0 <= j < i :: c.custody[j].to != 0
        invariant c == old(c)
        decreases ZT_MAX_CAPABILITY_CUSTODY_CHAIN_LENGTH - i
      {
        if c.custody[i].to == 0 {
          HoldersAre(c.custody, i);
          SignedSized(c, scheme, from, to);
          c := c.(custody := c.custody[i := Capabilities.Custody(to, from.address, scheme.sign(from, SignedBytes(c)))]);
          return true;
        }
        i := i + 1;
      }
      if i < |c.custody| { NoRoom(c, i); } else { HoldersAre(c.custody, i); }
      return false;
    }
  }

  /** There is a free entry within the maximum. */
  predicate HasRoom(c: Capability)
    requires Sized(c)
  {
    |Holders(c.custody)| < c.maxCustodyChainLength && |Holders(c.custody)| < |c.custody|
  }

  function SignedOn(c: Capability, scheme: Scheme, from: Identity, to: Address): Capability
    requires Sized(c) && HasRoom(c)
  {
    c.(custody := c.custody[|Holders(c.custody)| :=
        Capabilities.Custody(to, from.address, scheme.sign(from, SignedBytes(c)))])
  }

  lemma NoRoom(c: Capability, i: nat)
    requires Sized(c) && i < |c.custody| && i >= c.maxCustodyChainLength
    requires forall j | 0 <= j < i :: c.custody[j].to != 0
    ensures !HasRoom(c)
  {
    if i > 0 { HoldersBeyond(c.custody, i - 1); }
  }

  lemma SignedSized(c: Capability, scheme: Scheme, from: Identity, to: Address)
    requires Sized(c) && HasRoom(c)
    ensures Sized(SignedOn(c, scheme, from, to))
  {
    hide Holders, SignedBytes, RulesOk;
    assert Sound(scheme);
    var d := SignedOn(c, scheme, from, to);
    forall l | l in d.custody
      ensures |l.signature| == ZT_ECC_SIGNATURE_LEN
    {
      var i :| 0 <= i < |d.custody| && d.custody[i] == l;
      assert i != |Holders(c.custody)| ==> l == c.custody[i] && c.custody[i] in c.custody;
    }
  }

  /** Signing keeps a capability tidy, whoever signs it to whomever. */
  lemma SigningKeepsTidy(c: Capability, scheme: Scheme, from: Identity, to: Address)
    requires Sized(c) && Tidy(c) && HasRoom(c)
    ensures Sized(SignedOn(c, scheme, from, to)) && Tidy(SignedOn(c, scheme, from, to))
  {
    hide Sized, SignedBytes, Holders;
    SizedCustody(c);
    SignedSized(c, scheme, from, to);
    TidyHolders(c);
    ChainIs(SignedOn(c, scheme, from, to), |Chain(c)| + if to == 0 then 0 else 1);
  }

  /** The current holder: the controller while the chain is empty. */
  function Holder(c: Capability): Address
    requires Sized(c)
  {
    if Chain(c) == [] then ControllerFor(c.nwid) else IssuedToOf(c.custody)
  }

  /** If the current holder signs a good (or new) capability on to a recipient, it verifies and is issued to the
      recipient. */
  lemma SigningOnKeepsVerified(c: Capability, t: Trust, from: Identity, to: Address)
    requires Sized(c) && Tidy(c) && HasRoom(c) && (Chain(c) == [] || Unbroken(c, t))
    requires from.address == Holder(c) && from.address != 0 && t.identityOf(from.address) == Some(from) && to != 0
    ensures var d := SignedOn(c, t.scheme, from, to);
      Sized(d) && Tidy(d) && Unbroken(d, t) && IssuedToOf(d.custody) == to
  {
    hide Sized, SignedBytes, Holders;
    SizedCustody(c);
    var d := SignedOn(c, t.scheme, from, to);
    SignedSized(c, t.scheme, from, to);
    SignedBytesExcludeChain(c, d.custody);
    TidyHolders(c);
    var n := |Chain(c)|;
    assert Sound(t.scheme);
    ChainIs(d, n + 1);
    HoldersAre(d.custody, n + 1);
    forall i | 0 <= i < n + 1
      ensures LinkOk(d, t, i)
    {
      if i < n { assert LinkOk(c, t, i); }
    }
  }

  /** Signing to nobody leaves the chain as it was. */
  lemma SigningToNobody(c: Capability, t: Trust, from: Identity)
    requires Sized(c) && Tidy(c) && HasRoom(c)
    ensures var d := SignedOn(c, t.scheme, from, 0);
      Sized(d) && Chain(d) == Chain(c) && IssuedToOf(d.custody) == IssuedToOf(c.custody)
  {
    hide Sized, SignedBytes, Holders;
    SizedCustody(c);
    var d := SignedOn(c, t.scheme, from, 0);
    SignedSized(c, t.scheme, from, 0);
    TidyHolders(c);
    ChainIs(d, |Chain(c)|);
    HoldersAre(d.custody, |Chain(c)|);
  }

  // ---- What a signature binds ----

  /** The capability with link i handed to someone else. */
  function Redirected(c: Capability, i: nat, to: Address): Capability
    requires i < |c.custody|
  {
    c.(custody := c.custody[i := c.custody[i].(to := to)])
  }

  lemma RedirectedSized(c: Capability, i: nat, to: Address)
    requires Sized(c) && i < |c.custody|
    ensures Sized(Redirected(c, i, to))
  {
    hide RulesOk;
    var d := Redirected(c, i, to);
    forall l | l in d.custody
      ensures |l.signature| == ZT_ECC_SIGNATURE_LEN
    {
      var j :| 0 <= j < |d.custody| && d.custody[j] == l;
      assert c.custody[j] in c.custody && l.signature == c.custody[j].signature;
    }
  }

  /** Signed bytes leave recipients out: a chain still verifies with another recipient exactly if that is the last
      one. */
  lemma RecipientBoundExactly(c: Capability, t: Trust, i: nat, to: Address)
    requires Sized(c) && Unbroken(c, t) && i < |Chain(c)| && to != 0
    ensures var d := Redirected(c, i, to);
      Sized(d) && (Unbroken(d, t) <==> i == |Chain(c)| - 1 || to == c.custody[i].to)
  {
    hide Sized, SignedBytes, Holders;
    SizedCustody(c);
    ChainTests(c);
    var n, d := |Chain(c)|, Redirected(c, i, to);
    RedirectedSized(c, i, to);
    SignedBytesExcludeChain(c, d.custody);
    ChainIs(d, n);
    forall j | 0 <= j < n
      ensures LinkOk(d, t, j) <==> j != i + 1 || to == c.custody[i].to
    {
      assert LinkOk(c, t, j);
    }
    if i + 1 < n { assert LinkOk(d, t, i + 1) <==> to == c.custody[i].to; }
  }

  /** They do bind everything before the chain, up to what the wire carries of the rules. */
  lemma SignedBytesBindHead(c: Capability, d: Capability)
    requires Sized(c) && Sized(d) && ChainLengthOk(c) && SignedBytes(c) == SignedBytes(d)
    ensures c.nwid == d.nwid && c.ts == d.ts && c.id == d.id && c.maxCustodyChainLength == d.maxCustodyChainLength
    ensures OnWireAll(c.rules) == OnWireAll(d.rules)
  {
    hide EncodeHead, DecodeHead, Sized, BigEndian, OnWireAll;
    HeadInSigned(c); HeadInSigned(d);
    HeadRoundTrip(c, SignedBytes(c), 8); HeadRoundTrip(d, SignedBytes(c), 8);
  }

  lemma HeadInSigned(c: Capability)
    requires Sized(c)
    ensures Has(SignedBytes(c), 8, EncodeHead(c))
  {
    hide EncodeHead, Sized, BigEndian;
    var s, mark, rest := SignedBytes(c), BigEndian(MARK, 8), BigEndian(0, 2) + BigEndian(MARK, 8);
    assert s[0..|s|] == s && Has(s, 0, s);
    HasParts(s, 0, mark, EncodeHead(c) + rest);
    HasParts(s, 8, EncodeHead(c), rest);
  }
}
