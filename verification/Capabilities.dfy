/** Capabilities: their encoding and their chain of custody. */
module Capabilities {
  import opened Widths
  import opened Wrappers
  import opened Blocks
  import opened BigEndians
  import opened Buffers
  import opened Rules
  import opened Gmac

  const ZT_MAX_CAPABILITY_RULES: nat := 64
  const ZT_MAX_CAPABILITY_CUSTODY_CHAIN_LENGTH: nat := 7
  const ZT_ECC_SIGNATURE_LEN: nat := 96

  // ---- Signatures on the wire ----

  const NO_SIGNATURE: Bytes := Zeros(ZT_ECC_SIGNATURE_LEN)

  function EncodeSignature(s: Bytes): (e: Bytes)
    ensures |e| == 3 + |s|
  {
    BigEndian(1, 1) + (BigEndian(ZT_ECC_SIGNATURE_LEN, 2) + s)
  }

  /** The signature at p, or none if it is of another type, and what follows it. */
  function DecodeSignature(b: Bytes, p: nat): Outcome<(Bytes, nat)> {
    var kind :- Read8(b, p);
    var length :- Read16(b, p + 1);
    if kind == 1 then
      if length != ZT_ECC_SIGNATURE_LEN then Failed
      else
        var s :- ReadBytes(b, p + 3, ZT_ECC_SIGNATURE_LEN);
        Done((s, p + 3 + ZT_ECC_SIGNATURE_LEN))
    else Done((NO_SIGNATURE, p + 3 + length))
  }

  lemma SignatureRoundTrip(s: Bytes, b: Bytes, p: nat)
    requires |s| == ZT_ECC_SIGNATURE_LEN && Has(b, p, EncodeSignature(s))
    ensures DecodeSignature(b, p) == Done((s, p + 99))
  {
    hide Has, BigEndian, Read8, Read16;
    var x, y := BigEndian(1, 1), BigEndian(ZT_ECC_SIGNATURE_LEN, 2);
    HasParts(b, p, x, y + s); HasParts(b, p + 1, y, s);
    Read1(b, p, 1); Read2(b, p + 1, ZT_ECC_SIGNATURE_LEN);
    ReadHasBytes(b, p + 3, s);
  }

  lemma DecodedSignature(b: Bytes, p: nat)
    ensures DecodeSignature(b, p).Done? ==> |DecodeSignature(b, p).value.0| == ZT_ECC_SIGNATURE_LEN
  {
    hide Read8, Read16;
  }

  /** The size of additional fields, and the end of the object, which must lie within the buffer. */
  function DecodeExtra(b: Bytes, p: nat): Outcome<nat> {
    var extra :- Read16(b, p);
    if p + 2 + extra > |b| then Failed else Done(p + 2 + extra)
  }

  lemma ExtraRoundTrip(b: Bytes, p: nat)
    requires Has(b, p, BigEndian(0, 2))
    ensures DecodeExtra(b, p) == Done(p + 2)
  {
    hide Read16, BigEndian;
    Read2(b, p, 0);
  }

  function EncodeAddress(a: Address): (s: Bytes) ensures |s| == 5 { BigEndian(a, 5) }

  function ReadAddress(b: Bytes, p: nat): Outcome<Address> { Powers(); ReadWord(b, p, 5) }

  lemma AddressRoundTrip(a: Address, b: Bytes, p: nat)
    requires Has(b, p, EncodeAddress(a))
    ensures ReadAddress(b, p) == Done(a)
  {
    Powers(); ReadHas(b, p, a, 5);
  }

  // ---- The chain of custody ----

  datatype Custody = Custody(to: Address, from: Address, signature: Bytes)

  const NO_CUSTODY := Custody(0, 0, NO_SIGNATURE)

  datatype Capability = Capability(nwid: uint64, ts: uint64, id: uint32, maxCustodyChainLength: uint8, rules: seq<Rule>,
      custody: seq<Custody>)

  /** The arrays of the object have their sizes, and every rule's union fits its type. */
  predicate Sized(c: Capability) {
    && |c.rules| <= ZT_MAX_CAPABILITY_RULES && RulesOk(c.rules)
    && |c.custody| == ZT_MAX_CAPABILITY_CUSTODY_CHAIN_LENGTH
    && forall l | l in c.custody :: |l.signature| == ZT_ECC_SIGNATURE_LEN
  }

  predicate ChainLengthOk(c: Capability) { 1 <= c.maxCustodyChainLength <= ZT_MAX_CAPABILITY_CUSTODY_CHAIN_LENGTH }

  /** Entries before the first one without a recipient. */
  function Holders(custody: seq<Custody>): (h: seq<Custody>)
    ensures |h| <= |custody| && h == custody[..|h|] && (forall i | 0 <= i < |h| :: h[i].to != 0)
    ensures |h| < |custody| ==> custody[|h|].to == 0
  {
    if custody == [] || custody[0].to == 0 then [] else [custody[0]] + Holders(custody[1..])
  }

  /** The chain that is serialized: no longer than the maximum. */
  function Chain(c: Capability): (h: seq<Custody>)
    requires Sized(c)
    ensures |h| <= c.maxCustodyChainLength && |h| <= |c.custody|
  {
    Holders(if c.maxCustodyChainLength < |c.custody| then c.custody[..c.maxCustodyChainLength] else c.custody)
  }

  function EncodeLink(l: Custody): (s: Bytes)
    ensures |s| == 13 + |l.signature|
  {
    EncodeAddress(l.to) + (EncodeAddress(l.from) + EncodeSignature(l.signature))
  }

  function EncodeChain(chain: seq<Custody>): Bytes {
    if chain == [] then EncodeAddress(0) else EncodeLink(chain[0]) + EncodeChain(chain[1..])
  }

  /** The loop over the chain, at entry i. */
  function DecodeChain(b: Bytes, p: nat, i: nat, max: uint8): (d: Outcome<(seq<Custody>, nat)>)
    ensures d.Done? && i <= ZT_MAX_CAPABILITY_CUSTODY_CHAIN_LENGTH ==>
      |d.value.0| + i <= ZT_MAX_CAPABILITY_CUSTODY_CHAIN_LENGTH
    ensures d.Done? && i <= max ==> |d.value.0| + i <= max
    decreases 7 - i
  {
    var to :- ReadAddress(b, p);
    if to == 0 then Done(([], p + 5))
    else if i >= max || i >= ZT_MAX_CAPABILITY_CUSTODY_CHAIN_LENGTH then Failed
    else
      var from :- ReadAddress(b, p + 5);
      var (signature, q) :- DecodeSignature(b, p + 10);
      var (rest, end) :- DecodeChain(b, q, i + 1, max);
      Done(([Custody(to, from, signature)] + rest, end))
  }

  lemma LinkRoundTrip(l: Custody, b: Bytes, p: nat)
    requires |l.signature| == ZT_ECC_SIGNATURE_LEN && Has(b, p, EncodeLink(l))
    ensures ReadAddress(b, p) == Done(l.to) && ReadAddress(b, p + 5) == Done(l.from)
    ensures DecodeSignature(b, p + 10) == Done((l.signature, p + 109)) && |EncodeLink(l)| == 109
  {
    hide Has, EncodeAddress, EncodeSignature, DecodeSignature, ReadAddress;
    var x, y, z := EncodeAddress(l.to), EncodeAddress(l.from), EncodeSignature(l.signature);
    HasParts(b, p, x, y + z); HasParts(b, p + 5, y, z);
    AddressRoundTrip(l.to, b, p); AddressRoundTrip(l.from, b, p + 5); SignatureRoundTrip(l.signature, b, p + 10);
  }

  /** One turn of the chain loop. */
  lemma DecodeLink(l: Custody, b: Bytes, p: nat, i: nat, max: uint8)
    requires |l.signature| == ZT_ECC_SIGNATURE_LEN && Has(b, p, EncodeLink(l)) && l.to != 0
    requires i < max <= ZT_MAX_CAPABILITY_CUSTODY_CHAIN_LENGTH
    ensures var rest := DecodeChain(b, p + 109, i + 1, max);
      DecodeChain(b, p, i, max) == if rest.Failed? then Failed else Done(([l] + rest.value.0, rest.value.1))
  {
    hide Has, EncodeLink, DecodeSignature, ReadAddress;
    LinkRoundTrip(l, b, p);
  }

  /** Links that a serializer may write. */
  predicate Links(chain: seq<Custody>) { forall l | l in chain :: l.to != 0 && |l.signature| == ZT_ECC_SIGNATURE_LEN }

  lemma ChainSplits(chain: seq<Custody>)
    requires chain != [] && Links(chain)
    ensures EncodeChain(chain) == EncodeLink(chain[0]) + EncodeChain(chain[1..]) && chain == [chain[0]] + chain[1..]
    ensures chain[0].to != 0 && |chain[0].signature| == ZT_ECC_SIGNATURE_LEN && Links(chain[1..])
  {
    hide EncodeLink;
    assert chain[0] in chain;
  }

  lemma ChainStops(b: Bytes, p: nat, i: nat, max: uint8)
    requires Has(b, p, EncodeChain([]))
    ensures DecodeChain(b, p, i, max) == Done(([], p + 5)) && |EncodeChain([])| == 5
  {
    hide Has, EncodeAddress, ReadAddress;
    AddressRoundTrip(0, b, p);
  }

  lemma {:induction false} ChainSize(chain: seq<Custody>)
    requires Links(chain)
    ensures |EncodeChain(chain)| == 109 * |chain| + 5
  {
    hide EncodeLink, EncodeAddress, Links;
    if chain != [] {
      ChainSplits(chain);
      ChainSize(chain[1..]);
    }
  }

  lemma {:induction false} ChainRoundTrip(chain: seq<Custody>, b: Bytes, p: nat, i: nat, max: uint8)
    requires i + |chain| <= max <= ZT_MAX_CAPABILITY_CUSTODY_CHAIN_LENGTH
    requires Links(chain) && Has(b, p, EncodeChain(chain))
    ensures DecodeChain(b, p, i, max) == Done((chain, p + |EncodeChain(chain)|))
    decreases |chain|
  {
    hide Has, EncodeLink, EncodeChain, DecodeChain, Links;
    if chain == [] {
      ChainStops(b, p, i, max);
    } else {
      ChainSplits(chain);
      HasParts(b, p, EncodeLink(chain[0]), EncodeChain(chain[1..]));
      LinkRoundTrip(chain[0], b, p);
      DecodeLink(chain[0], b, p, i, max);
      ChainRoundTrip(chain[1..], b, p + 109, i + 1, max);
    }
  }

  // ---- Whole capabilities ----

  const MARK: nat := 0x7f7f7f7f7f7f7f7f

  function EncodeHead(c: Capability): Bytes
    requires Sized(c)
  {
    BigEndian(c.nwid, 8) + (BigEndian(c.ts, 8) + (BigEndian(c.id, 4) + (BigEndian(|c.rules|, 2)
    + (EncodeRules(c.rules) + BigEndian(c.maxCustodyChainLength, 1)))))
  }

  function Encode(c: Capability): Bytes
    requires Sized(c)
  {
    EncodeHead(c) + (EncodeChain(Chain(c)) + BigEndian(0, 2))
  }

  /** The bytes that every holder signs: they leave the chain out. */
  function SignedBytes(c: Capability): Bytes
    requires Sized(c)
  {
    BigEndian(MARK, 8) + (EncodeHead(c) + (BigEndian(0, 2) + BigEndian(MARK, 8)))
  }

  /** What is signed is the serialized head between two marks of eight bytes 0x7f, which nothing serialized starts with
      unless its network identifier is that number. */
  lemma SignedBytesMarked(c: Capability)
    requires Sized(c)
    ensures var s := SignedBytes(c); var n := |EncodeHead(c)|;
      && |s| == n + 18 && n <= |Encode(c)|
      && s[..8] == s[n + 10..] == seq(8, i => 0x7f)
      && s[8..8 + n] == Encode(c)[..n]
      && s[8 + n..10 + n] == [0, 0]
  {
    hide BigEndian, EncodeHead, EncodeChain, Chain, Sized;
    MarkBytes();
    NoExtraBytes();
  }

  lemma {:induction false} MarkBytes()
    ensures BigEndian(MARK, 8) == seq(8, i => 0x7f)
  {
    SevenBits(MARK, 8);
  }

  /** The number all of whose bytes are 127, in k bytes. */
  function AllMarks(k: nat): nat { if k == 0 then 0 else 256 * AllMarks(k - 1) + 127 }

  lemma {:induction false} SevenBits(n: nat, k: nat)
    requires n == AllMarks(k)
    ensures BigEndian(n, k) == seq(k, i => 0x7f)
  {
    hide NatByte;
    if k > 0 {
      SevenBits(AllMarks(k - 1), k - 1);
      OneMark();
    }
  }

  lemma OneMark()
    ensures NatByte(127) == 0x7f
  {
    ByteRoundTrip(0x7f);
    OneMarkValue();
    hide NatByte;
  }

  lemma OneMarkValue()
    ensures ByteVal(0x7f) == 127
  {
  }

  lemma NoExtraBytes()
    ensures BigEndian(0, 2) == [0, 0]
  {
    BigEndianZero(2);
  }

  lemma SignedBytesExcludeChain(c: Capability, custody: seq<Custody>)
    requires Sized(c) && Sized(c.(custody := custody))
    ensures SignedBytes(c.(custody := custody)) == SignedBytes(c)
  {
  }

  function Filled(chain: seq<Custody>): (custody: seq<Custody>)
    requires |chain| <= ZT_MAX_CAPABILITY_CUSTODY_CHAIN_LENGTH
    ensures |custody| == ZT_MAX_CAPABILITY_CUSTODY_CHAIN_LENGTH
  {
    chain + seq(ZT_MAX_CAPABILITY_CUSTODY_CHAIN_LENGTH - |chain|, i => NO_CUSTODY)
  }

  /** What a capability becomes on the wire. */
  function Carried(c: Capability): Capability
    requires Sized(c)
  {
    c.(rules := OnWireAll(c.rules), custody := Filled(Chain(c)))
  }

  datatype Head = Head(nwid: uint64, ts: uint64, id: uint32, rules: seq<Rule>, max: uint8)

  function DecodeHead(b: Bytes, p: nat): Outcome<(Head, nat)> {
    var nwid :- Read64(b, p);
    var ts :- Read64(b, p + 8);
    var id :- Read32(b, p + 16);
    var rc :- Read16(b, p + 20);
    if rc > ZT_MAX_CAPABILITY_RULES then Failed
    else
      var (rules, q) :- DecodeRules(b, p + 22, rc);
      var max :- Read8(b, q);
      if max < 1 || max > ZT_MAX_CAPABILITY_CUSTODY_CHAIN_LENGTH then Failed
      else Done((Head(nwid, ts, id, rules, max), q + 1))
  }

  /** deserialize: the capability at p and its length. */
  function Decode(b: Bytes, p: nat): Outcome<(Capability, nat)> {
    var (h, q) :- DecodeHead(b, p);
    var (chain, r) :- DecodeChain(b, q, 0, h.max);
    var end :- DecodeExtra(b, r);
    Done((Capability(h.nwid, h.ts, h.id, h.max, h.rules, Filled(chain)), end))
  }

  lemma HeadRoundTrip(c: Capability, b: Bytes, p: nat)
    requires Sized(c) && Has(b, p, EncodeHead(c))
    ensures DecodeHead(b, p) == if ChainLengthOk(c)
      then Done((Head(c.nwid, c.ts, c.id, OnWireAll(c.rules), c.maxCustodyChainLength), p + |EncodeHead(c)|))
      else Failed
  {
    hide Has, BigEndian, EncodeRules, DecodeRules, RulesOk, Read8, Read16, Read32, Read64;
    var v, w, x, y := BigEndian(c.nwid, 8), BigEndian(c.ts, 8), BigEndian(c.id, 4), BigEndian(|c.rules|, 2);
    var z, m := EncodeRules(c.rules), BigEndian(c.maxCustodyChainLength, 1);
    HasParts(b, p, v, w + (x + (y + (z + m)))); HasParts(b, p + 8, w, x + (y + (z + m)));
    HasParts(b, p + 16, x, y + (z + m)); HasParts(b, p + 20, y, z + m); HasParts(b, p + 22, z, m);
    Read8Bytes(b, p, c.nwid); Read8Bytes(b, p + 8, c.ts); Read4(b, p + 16, c.id); Read2(b, p + 20, |c.rules|);
    RulesRoundTrip(c.rules, b, p + 22);
    Read1(b, p + 22 + |z|, c.maxCustodyChainLength);
  }

  lemma ChainLinks(c: Capability)
    requires Sized(c)
    ensures Links(Chain(c))
  {
  }

  /** Where the serializer stops: at the end of the chain. */
  lemma ChainTests(c: Capability)
    requires Sized(c)
    ensures |c.custody| == ZT_MAX_CAPABILITY_CUSTODY_CHAIN_LENGTH && |Chain(c)| <= c.maxCustodyChainLength
    ensures forall i | 0 <= i < |Chain(c)| :: c.custody[i] == Chain(c)[i] && c.custody[i].to != 0
    ensures |Chain(c)| < c.maxCustodyChainLength && |Chain(c)| < |c.custody| ==> c.custody[|Chain(c)|].to == 0
  {
  }

  lemma ChainNext(h: seq<Custody>, i: nat)
    requires i <= |h| && forall l | l in h :: |l.signature| == ZT_ECC_SIGNATURE_LEN
    ensures if i < |h| then EncodeChain(h[i..]) == EncodeLink(h[i]) + EncodeChain(h[i + 1..])
      && |EncodeLink(h[i])| == 109
            else EncodeChain(h[i..]) == EncodeAddress(0)
    ensures i < |h| ==> |h[i].signature| == ZT_ECC_SIGNATURE_LEN
  {
    hide EncodeLink, EncodeAddress;
    if i < |h| {
      assert h[i] in h && h[i..][1..] == h[i + 1..];
    }
  }

  /** A serialized capability reads back from any offset, up to what the wire carries, with the exact byte count;
      it is refused exactly if its maximum chain length is out of range. */
  lemma CapabilityRoundTrip(c: Capability, b: Bytes, p: nat)
    requires Sized(c) && Has(b, p, Encode(c))
    ensures Decode(b, p) == if ChainLengthOk(c) then Done((Carried(c), p + |Encode(c)|)) else Failed
  {
    hide Has, BigEndian, EncodeHead, DecodeHead, EncodeChain, DecodeChain, Chain, Sized, Filled, DecodeExtra;
    var x, y, z := EncodeHead(c), EncodeChain(Chain(c)), BigEndian(0, 2);
    HasParts(b, p, x, y + z); HasParts(b, p + |x|, y, z);
    HeadRoundTrip(c, b, p);
    if ChainLengthOk(c) {
      ChainLinks(c);
      ChainRoundTrip(Chain(c), b, p + |x|, 0, c.maxCustodyChainLength);
      ExtraRoundTrip(b, p + |x| + |y|);
    }
  }

  /** The largest serialized capability. */
  lemma CapabilitySize(c: Capability)
    requires Sized(c)
    ensures |Encode(c)| <= 22 + 21 * ZT_MAX_CAPABILITY_RULES + 1 + 109 * ZT_MAX_CAPABILITY_CUSTODY_CHAIN_LENGTH + 5 + 2
  {
    hide EncodeRules, EncodeChain, BigEndian, RulesOk, Chain, Holders;
    ChainLinks(c);
    ChainSize(Chain(c));
    RulesSize(c.rules);
  }

  // ---- The code ----

  method SerializeSignature(b: Buffer, s: Bytes) returns (r: Status)
    requires b.Valid() && |s| == ZT_ECC_SIGNATURE_LEN
    modifies b, b.b
    ensures b.Valid() && r.Fine? == (|old(b.Contents())| + 99 <= b.b.Length)
    ensures r.Fine? ==> b.Contents() == old(b.Contents()) + EncodeSignature(s)
  {
    hide BigEndian;
    :- AppendPair(b, 1, 1, ZT_ECC_SIGNATURE_LEN, 2);
    r := b.Append(s);
  }

  method SerializeLink(b: Buffer, l: Custody) returns (r: Status)
    requires b.Valid() && |l.signature| == ZT_ECC_SIGNATURE_LEN
    modifies b, b.b
    ensures b.Valid() && r.Fine? == (|old(b.Contents())| + 109 <= b.b.Length)
    ensures r.Fine? ==> b.Contents() == old(b.Contents()) + EncodeLink(l)
  {
    hide BigEndian, EncodeSignature;
    :- AppendPair(b, l.to, 5, l.from, 5);
    r := SerializeSignature(b, l.signature);
  }

  method SerializeChain(b: Buffer, c: Capability) returns (r: Status)
    requires b.Valid() && Sized(c)
    modifies b, b.b
    ensures b.Valid() && r.Fine? == (|old(b.Contents())| + |EncodeChain(Chain(c))| <= b.b.Length)
    ensures r.Fine? ==> b.Contents() == old(b.Contents()) + EncodeChain(Chain(c))
  {
    hide EncodeLink, EncodeChain, Sized, Chain;
    ChainLinks(c); ChainTests(c);
    ghost var h, start := Chain(c), b.Contents();
    var i := 0;
    assert h[0..] == h;
    while true
      invariant b.Valid() && i <= |h| && |b.Contents()| + |EncodeChain(h[i..])| == |start| + |EncodeChain(h)|
      invariant b.Contents() + EncodeChain(h[i..]) == start + EncodeChain(h)
      decreases |h| - i
    {
      ChainNext(h, i);
      if i < c.maxCustodyChainLength && i < ZT_MAX_CAPABILITY_CUSTODY_CHAIN_LENGTH && c.custody[i].to != 0 {
        :- SerializeLink(b, c.custody[i]);
        i := i + 1;
      } else {
        r := b.AppendInt(0, 5);
        return;
      }
    }
  }

  method SerializeHead(b: Buffer, c: Capability) returns (r: Status)
    requires b.Valid() && Sized(c)
    modifies b, b.b
    ensures b.Valid() && r.Fine? == (|old(b.Contents())| + |EncodeHead(c)| <= b.b.Length)
    ensures r.Fine? ==> b.Contents() == old(b.Contents()) + EncodeHead(c)
  {
    hide BigEndian, EncodeRules, RulesOk;
    :- AppendPair(b, c.nwid, 8, c.ts, 8);
    :- AppendPair(b, c.id, 4, |c.rules|, 2);
    :- SerializeRules(b, c.rules);
    r := b.AppendInt(c.maxCustodyChainLength, 1);
  }

  /** serialize. */
  method Serialize(b: Buffer, c: Capability, forSign: bool) returns (r: Status)
    requires b.Valid() && Sized(c)
    modifies b, b.b
    ensures b.Valid()
    ensures var e := if forSign then SignedBytes(c) else Encode(c);
      r.Fine? == (|old(b.Contents())| + |e| <= b.b.Length) && (r.Fine? ==> b.Contents() == old(b.Contents()) + e)
  {
    hide Encode, SignedBytes;
    if forSign {
      r := SerializeForSigning(b, c);
    } else {
      r := SerializeWhole(b, c);
    }
  }

  method SerializeForSigning(b: Buffer, c: Capability) returns (r: Status)
    requires b.Valid() && Sized(c)
    modifies b, b.b
    ensures b.Valid() && r.Fine? == (|old(b.Contents())| + |SignedBytes(c)| <= b.b.Length)
    ensures r.Fine? ==> b.Contents() == old(b.Contents()) + SignedBytes(c)
  {
    hide BigEndian, EncodeHead, Sized;
    :- b.AppendInt(MARK, 8);
    :- SerializeHead(b, c);
    r := AppendPair(b, 0, 2, MARK, 8);
  }

  method SerializeWhole(b: Buffer, c: Capability) returns (r: Status)
    requires b.Valid() && Sized(c)
    modifies b, b.b
    ensures b.Valid() && r.Fine? == (|old(b.Contents())| + |Encode(c)| <= b.b.Length)
    ensures r.Fine? ==> b.Contents() == old(b.Contents()) + Encode(c)
  {
    hide BigEndian, EncodeHead, EncodeChain, Sized, Chain;
    :- SerializeHead(b, c);
    :- SerializeChain(b, c);
    r := b.AppendInt(0, 2);
  }

  method DeserializeAddress(b: Buffer, p: nat) returns (r: Outcome<Address>)
    requires b.Valid()
    ensures r == ReadAddress(b.Contents(), p)
  {
    r := Take40(b, p);
  }

  method DeserializeSignature(b: Buffer, p: nat) returns (r: Outcome<(Bytes, nat)>)
    requires b.Valid()
    ensures r == DecodeSignature(b.Contents(), p)
  {
    hide Read8, Read16;
    var kind :- Take8(b, p);
    var length :- Take16(b, p + 1);
    if kind == 1 {
      if length != ZT_ECC_SIGNATURE_LEN {
        return Failed;
      }
      var s :- b.Field(p + 3, ZT_ECC_SIGNATURE_LEN);
      return Done((s, p + 3 + ZT_ECC_SIGNATURE_LEN));
    }
    return Done((NO_SIGNATURE, p + 3 + length));
  }

  method DeserializeExtra(b: Buffer, p: nat) returns (r: Outcome<nat>)
    requires b.Valid()
    ensures r == DecodeExtra(b.Contents(), p)
  {
    hide Read16;
    var extra :- Take16(b, p);
    if p + 2 + extra > b.l {
      return Failed;
    }
    return Done(p + 2 + extra);
  }

  /** The custody loop of deserialize. */
  method DeserializeChain(b: Buffer, p0: nat, max: uint8) returns (r: Outcome<(seq<Custody>, nat)>)
    requires b.Valid()
    ensures r == DecodeChain(b.Contents(), p0, 0, max)
  {
    hide ReadAddress, DecodeSignature;
    ghost var s := b.Contents();
    var p := p0;
    var chain: seq<Custody> := [];
    var i := 0;
    ThenNone(DecodeChain(s, p, 0, max));
    while true
      invariant i <= ZT_MAX_CAPABILITY_CUSTODY_CHAIN_LENGTH
      invariant DecodeChain(s, p0, 0, max) == Then(chain, DecodeChain(s, p, i, max))
      decreases 7 - i
    {
      var to :- DeserializeAddress(b, p);
      if to == 0 {
        assert chain + [] == chain;
        return Done((chain, p + 5));
      }
      if i >= max || i >= ZT_MAX_CAPABILITY_CUSTODY_CHAIN_LENGTH {
        return Failed;
      }
      var from :- DeserializeAddress(b, p + 5);
      var signature :- DeserializeSignature(b, p + 10);
      var l := Custody(to, from, signature.0);
      ThenNext(chain, l, DecodeChain(s, signature.1, i + 1, max));
      chain, p := chain + [l], signature.1;
      i := i + 1;
    }
  }

  /** deserialize: the capability and the number of bytes it took. */
  method Deserialize(b: Buffer, startAt: nat) returns (r: Outcome<(Capability, nat)>)
    requires b.Valid()
    ensures var d := Decode(b.Contents(), startAt);
      r == if d.Failed? then Failed else Done((d.value.0, d.value.1 - startAt))
  {
    hide DecodeChain, DecodeRules, DecodeExtra, Filled, Read8, Read16, Read32, Read64;
    ghost var s := b.Contents();
    EndsAfter(s, startAt);
    var nwid :- Take64(b, startAt);
    var ts :- Take64(b, startAt + 8);
    var id :- Take32(b, startAt + 16);
    var rc :- Take16(b, startAt + 20);
    if rc > ZT_MAX_CAPABILITY_RULES {
      return Failed;
    }
    var rules :- DeserializeRules(b, startAt + 22, rc);
    var max :- Take8(b, rules.1);
    if max < 1 || max > ZT_MAX_CAPABILITY_CUSTODY_CHAIN_LENGTH {
      return Failed;
    }
    var chain :- DeserializeChain(b, rules.1 + 1, max);
    var end :- DeserializeExtra(b, chain.1);
    return Done((Capability(nwid, ts, id, max, rules.0, Filled(chain.0)), end - startAt));
  }

  lemma {:induction false} RulesEndAfter(b: Bytes, p: nat, n: nat)
    ensures DecodeRules(b, p, n).Done? ==> p <= DecodeRules(b, p, n).value.1
    decreases n
  {
    hide DecodeField, Read8;
    if n > 0 && p < |b| && DecodeRule(b, p).Done? { RulesEndAfter(b, DecodeRule(b, p).value.1, n - 1); }
  }

  lemma {:induction false} ChainEndsAfter(b: Bytes, p: nat, i: nat, max: uint8)
    ensures DecodeChain(b, p, i, max).Done? ==> p <= DecodeChain(b, p, i, max).value.1
    decreases 7 - i
  {
    hide ReadAddress, Read8, Read16;
    var s := DecodeSignature(b, p + 10);
    if i < 7 && s.Done? { ChainEndsAfter(b, s.value.1, i + 1, max); }
  }

  lemma EndsAfter(b: Bytes, p: nat)
    ensures Decode(b, p).Done? ==> p <= Decode(b, p).value.1
  {
    hide DecodeRules, DecodeChain, Read8, Read16, Read32, Read64;
    var rc := Read16(b, p + 20);
    if rc.Done? {
      RulesEndAfter(b, p + 22, rc.value);
      var h := DecodeHead(b, p);
      if h.Done? { ChainEndsAfter(b, h.value.1, 0, h.value.0.max); }
    }
  }
}
