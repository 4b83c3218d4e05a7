/** The encodings of membership certificates, certificates of ownership and tags. */
module CredentialCodecs {
  import opened Widths
  import opened Wrappers
  import opened Blocks
  import opened BigEndians
  import opened Buffers
  import opened Rules
  import opened Capabilities
  import opened Credentials

  const ZT_NETWORK_COM_MAX_QUALIFIERS: nat := 8
  const ZT_CERTIFICATEOFOWNERSHIP_MAX_THINGS: nat := 16
  const ZT_CERTIFICATEOFOWNERSHIP_MAX_THING_VALUE_SIZE: nat := 16

  // ---- Certificates of membership ----

  predicate ComSized(c: Com) {
    |c.qualifiers| <= ZT_NETWORK_COM_MAX_QUALIFIERS && |c.signature| == ZT_ECC_SIGNATURE_LEN
  }

  function EncodeQualifier(q: Qualifier): (s: Bytes)
    ensures |s| == 24
  {
    BigEndian(q.id, 8) + (BigEndian(q.value, 8) + BigEndian(q.maxDelta, 8))
  }

  function EncodeQualifiers(qs: seq<Qualifier>): (s: Bytes)
    ensures |s| == 24 * |qs|
  {
    if qs == [] then [] else EncodeQualifier(qs[0]) + EncodeQualifiers(qs[1..])
  }

  function EncodeSigner(c: Com): Bytes {
    EncodeAddress(c.signedBy) + if c.signedBy != 0 then c.signature else []
  }

  function EncodeCom(c: Com): Bytes
    requires ComSized(c)
  {
    BigEndian(1, 1) + (BigEndian(|c.qualifiers|, 2) + (EncodeQualifiers(c.qualifiers) + EncodeSigner(c)))
  }

  function DecodeQualifier(b: Bytes, p: nat): Outcome<Qualifier> {
    var id :- Read64(b, p);
    var value :- Read64(b, p + 8);
    var maxDelta :- Read64(b, p + 16);
    Done(Qualifier(id, value, maxDelta))
  }

  /** The qualifier loop, with done qualifiers stored and n to go: identifiers may not decrease and at most eight
      fit. */
  function DecodeQualifiers(b: Bytes, p: nat, done: nat, n: nat, lastId: uint64): (d: Outcome<(seq<Qualifier>, nat)>)
    ensures d.Done? ==> d.value.1 >= p
    decreases n
  {
    if n == 0 then Done(([], p))
    else
      var id :- Read64(b, p);
      if id < lastId || done >= ZT_NETWORK_COM_MAX_QUALIFIERS then Failed
      else
        var q :- DecodeQualifier(b, p);
        var (rest, end) :- DecodeQualifiers(b, p + 24, done + 1, n - 1, id);
        Done(([q] + rest, end))
  }

  function DecodeSigner(b: Bytes, p: nat): Outcome<(Address, Bytes, nat)> {
    var signedBy :- ReadAddress(b, p);
    if signedBy == 0 then Done((0, NO_SIGNATURE, p + 5))
    else
      var signature :- ReadBytes(b, p + 5, ZT_ECC_SIGNATURE_LEN);
      Done((signedBy, signature, p + 5 + ZT_ECC_SIGNATURE_LEN))
  }

  function DecodeCom(b: Bytes, p: nat): (d: Outcome<(Com, nat)>)
    ensures d.Done? ==> d.value.1 > p
  {
    var kind :- Read8(b, p);
    if kind != 1 then Failed
    else
      var n :- Read16(b, p + 1);
      var (qs, q) :- DecodeQualifiers(b, p + 3, 0, n, 0);
      var (signedBy, signature, end) :- DecodeSigner(b, q);
      Done((Com(qs, signedBy, signature), end))
  }

  /** Identifiers do not decrease. */
  predicate Ordered(qs: seq<Qualifier>, lastId: uint64) {
    qs == [] || (lastId <= qs[0].id && Ordered(qs[1..], qs[0].id))
  }

  lemma QualifierRoundTrip(q: Qualifier, b: Bytes, p: nat)
    requires Has(b, p, EncodeQualifier(q))
    ensures DecodeQualifier(b, p) == Done(q) && Read64(b, p) == Done(q.id)
  {
    hide Has, BigEndian, Read64;
    var x, y, z := BigEndian(q.id, 8), BigEndian(q.value, 8), BigEndian(q.maxDelta, 8);
    HasParts(b, p, x, y + z); HasParts(b, p + 8, y, z);
    Read8Bytes(b, p, q.id); Read8Bytes(b, p + 8, q.value); Read8Bytes(b, p + 16, q.maxDelta);
  }

  lemma {:induction false} QualifiersRoundTrip(qs: seq<Qualifier>, b: Bytes, p: nat, done: nat, lastId: uint64)
    requires Has(b, p, EncodeQualifiers(qs)) && done + |qs| <= ZT_NETWORK_COM_MAX_QUALIFIERS
    ensures DecodeQualifiers(b, p, done, |qs|, lastId) ==
      if Ordered(qs, lastId) then Done((qs, p + |EncodeQualifiers(qs)|)) else Failed
    decreases |qs|
  {
    hide Has, EncodeQualifier, DecodeQualifier, Read64;
    if qs != [] {
      HasParts(b, p, EncodeQualifier(qs[0]), EncodeQualifiers(qs[1..]));
      QualifierRoundTrip(qs[0], b, p);
      QualifiersRoundTrip(qs[1..], b, p + 24, done + 1, qs[0].id);
      assert qs == [qs[0]] + qs[1..];
    }
  }

  lemma SignerRoundTrip(c: Com, b: Bytes, p: nat)
    requires ComSized(c) && Has(b, p, EncodeSigner(c))
    ensures DecodeSigner(b, p) ==
      Done((c.signedBy, if c.signedBy != 0 then c.signature else NO_SIGNATURE, p + |EncodeSigner(c)|))
  {
    hide Has, EncodeAddress, ReadAddress;
    HasParts(b, p, EncodeAddress(c.signedBy), if c.signedBy != 0 then c.signature else []);
    AddressRoundTrip(c.signedBy, b, p);
    if c.signedBy != 0 { ReadHasBytes(b, p + 5, c.signature); }
  }

  /** The unsigned certificate carries no signature. */
  function ComCarried(c: Com): Com { if c.signedBy != 0 then c else c.(signature := NO_SIGNATURE) }

  /** A certificate reads back from any offset, exactly if its qualifiers are in order. */
  lemma ComRoundTrip(c: Com, b: Bytes, p: nat)
    requires ComSized(c) && Has(b, p, EncodeCom(c))
    ensures DecodeCom(b, p) == if Ordered(c.qualifiers, 0) then Done((ComCarried(c), p + |EncodeCom(c)|)) else Failed
  {
    hide Has, BigEndian, EncodeQualifiers, DecodeQualifiers, EncodeSigner, DecodeSigner, Read8, Read16, Ordered;
    var w, x, y, z := BigEndian(1, 1), BigEndian(|c.qualifiers|, 2), EncodeQualifiers(c.qualifiers), EncodeSigner(c);
    HasParts(b, p, w, x + (y + z)); HasParts(b, p + 1, x, y + z); HasParts(b, p + 3, y, z);
    Read1(b, p, 1); Read2(b, p + 1, |c.qualifiers|);
    QualifiersRoundTrip(c.qualifiers, b, p + 3, 0, 0);
    SignerRoundTrip(c, b, p + 3 + |y|);
  }

  // ---- Tags ----

  datatype Tag = Tag(networkId: uint64, ts: uint64, id: uint32, value: uint32, issuedTo: Address, signedBy: Address,
      signature: Bytes)

  function EncodeTag(t: Tag): (s: Bytes)
    ensures |s| == 39 + |t.signature|
  {
    BigEndian(t.networkId, 8) + (BigEndian(t.ts, 8) + (BigEndian(t.id, 4) + (BigEndian(t.value, 4)
    + (EncodeAddress(t.issuedTo) + (EncodeAddress(t.signedBy) + (EncodeSignature(t.signature) + BigEndian(0, 2)))))))
  }

  function DecodeTag(b: Bytes, p: nat): Outcome<(Tag, nat)> {
    var networkId :- Read64(b, p);
    var ts :- Read64(b, p + 8);
    var id :- Read32(b, p + 16);
    var value :- Read32(b, p + 20);
    var issuedTo :- ReadAddress(b, p + 24);
    var signedBy :- ReadAddress(b, p + 29);
    var (signature, q) :- DecodeSignature(b, p + 34);
    var end :- DecodeExtra(b, q);
    Done((Tag(networkId, ts, id, value, issuedTo, signedBy, signature), end))
  }

  lemma TagRoundTrip(t: Tag, b: Bytes, p: nat)
    requires |t.signature| == ZT_ECC_SIGNATURE_LEN && Has(b, p, EncodeTag(t))
    ensures DecodeTag(b, p) == Done((t, p + |EncodeTag(t)|))
  {
    hide Has, BigEndian, Read32, Read64, ReadAddress, EncodeAddress, EncodeSignature, DecodeSignature, DecodeExtra;
    var s, u, v, w := BigEndian(t.networkId, 8), BigEndian(t.ts, 8), BigEndian(t.id, 4), BigEndian(t.value, 4);
    var x, y, z, e := EncodeAddress(t.issuedTo), EncodeAddress(t.signedBy), EncodeSignature(t.signature),
        BigEndian(0, 2);
    HasParts(b, p, s, u + (v + (w + (x + (y + (z + e)))))); HasParts(b, p + 8, u, v + (w + (x + (y + (z + e)))));
    HasParts(b, p + 16, v, w + (x + (y + (z + e)))); HasParts(b, p + 20, w, x + (y + (z + e)));
    HasParts(b, p + 24, x, y + (z + e)); HasParts(b, p + 29, y, z + e); HasParts(b, p + 34, z, e);
    Read8Bytes(b, p, t.networkId); Read8Bytes(b, p + 8, t.ts); Read4(b, p + 16, t.id); Read4(b, p + 20, t.value);
    AddressRoundTrip(t.issuedTo, b, p + 24); AddressRoundTrip(t.signedBy, b, p + 29);
    SignatureRoundTrip(t.signature, b, p + 34); ExtraRoundTrip(b, p + 133);
  }

  // ---- Certificates of ownership ----

  datatype Thing = Thing(kind: uint8, value: Bytes)

  datatype Coo = Coo(networkId: uint64, ts: uint64, flags: uint64, id: uint32, thingCount: uint16, things: seq<Thing>,
                     issuedTo: Address, signedBy: Address, signature: Bytes)

  predicate ThingsOk(ts: seq<Thing>) {
    forall t | t in ts :: |t.value| == ZT_CERTIFICATEOFOWNERSHIP_MAX_THING_VALUE_SIZE
  }

  /** What the arrays of an object can hold: things beyond the sixteenth are counted at most. */
  predicate CooStored(c: Coo) {
    && |c.things| == Carried16(c.thingCount)
    && ThingsOk(c.things)
    && |c.signature| == ZT_ECC_SIGNATURE_LEN
  }

  /** Everything that is counted is there. */
  predicate CooSized(c: Coo) { CooStored(c) && c.thingCount <= ZT_CERTIFICATEOFOWNERSHIP_MAX_THINGS }

  function EncodeThing(t: Thing): Bytes { BigEndian(t.kind, 1) + t.value }

  function EncodeThings(ts: seq<Thing>): Bytes {
    if ts == [] then [] else EncodeThing(ts[0]) + EncodeThings(ts[1..])
  }

  function EncodeCooTail(c: Coo): Bytes {
    EncodeAddress(c.issuedTo) + (EncodeAddress(c.signedBy) + (EncodeSignature(c.signature) + BigEndian(0, 2)))
  }

  function EncodeCooHead(c: Coo): (s: Bytes)
    ensures |s| == 30
  {
    BigEndian(c.networkId, 8)
        + (BigEndian(c.ts, 8) + (BigEndian(c.flags, 8) + (BigEndian(c.id, 4) + BigEndian(c.thingCount, 2))))
  }

  function EncodeCoo(c: Coo): Bytes { EncodeCooHead(c) + (EncodeThings(c.things) + EncodeCooTail(c)) }

  /** The loop over n things: those beyond the sixteenth are counted but not read. */
  function DecodeThings(b: Bytes, p: nat, i: nat, n: nat): Outcome<(seq<Thing>, nat)>
    requires i <= n
    decreases n - i
  {
    if i == n || i >= ZT_CERTIFICATEOFOWNERSHIP_MAX_THINGS then Done(([], p))
    else
      var kind :- Read8(b, p);
      var value :- ReadBytes(b, p + 1, ZT_CERTIFICATEOFOWNERSHIP_MAX_THING_VALUE_SIZE);
      var (rest, end) :- DecodeThings(b, p + 17, i + 1, n);
      Done(([Thing(kind, value)] + rest, end))
  }

  datatype CooTail = CooTail(issuedTo: Address, signedBy: Address, signature: Bytes)

  function DecodeCooTail(b: Bytes, p: nat): Outcome<(CooTail, nat)> {
    var issuedTo :- ReadAddress(b, p);
    var signedBy :- ReadAddress(b, p + 5);
    var (signature, q) :- DecodeSignature(b, p + 10);
    var end :- DecodeExtra(b, q);
    Done((CooTail(issuedTo, signedBy, signature), end))
  }

  function DecodeCoo(b: Bytes, p: nat): Outcome<(Coo, nat)> {
    var networkId :- Read64(b, p);
    var ts :- Read64(b, p + 8);
    var flags :- Read64(b, p + 16);
    var id :- Read32(b, p + 24);
    var count :- Read16(b, p + 28);
    var (things, q) :- DecodeThings(b, p + 30, 0, count);
    var (tail, end) :- DecodeCooTail(b, q);
    Done((Coo(networkId, ts, flags, id, count, things, tail.issuedTo, tail.signedBy, tail.signature), end))
  }

  lemma ThingRoundTrip(t: Thing, b: Bytes, p: nat)
    requires |t.value| == ZT_CERTIFICATEOFOWNERSHIP_MAX_THING_VALUE_SIZE && Has(b, p, EncodeThing(t))
    ensures Read8(b, p) == Done(t.kind)
    ensures ReadBytes(b, p + 1, ZT_CERTIFICATEOFOWNERSHIP_MAX_THING_VALUE_SIZE) == Done(t.value)
    ensures |EncodeThing(t)| == 17
  {
    hide Has, BigEndian, Read8;
    HasParts(b, p, BigEndian(t.kind, 1), t.value);
    Read1(b, p, t.kind); ReadHasBytes(b, p + 1, t.value);
  }

  /** One turn of the loop over things. */
  lemma DecodeThing(t: Thing, b: Bytes, p: nat, i: nat, n: nat)
    requires |t.value| == ZT_CERTIFICATEOFOWNERSHIP_MAX_THING_VALUE_SIZE && Has(b, p, EncodeThing(t))
    requires i < n && i < ZT_CERTIFICATEOFOWNERSHIP_MAX_THINGS
    ensures var rest := DecodeThings(b, p + 17, i + 1, n);
      DecodeThings(b, p, i, n) == if rest.Failed? then Failed else Done(([t] + rest.value.0, rest.value.1))
  {
    hide Has, EncodeThing, Read8, ReadBytes;
    ThingRoundTrip(t, b, p);
  }

  lemma ThingsSplit(ts: seq<Thing>)
    requires ts != [] && ThingsOk(ts)
    ensures EncodeThings(ts) == EncodeThing(ts[0]) + EncodeThings(ts[1..]) && ts == [ts[0]] + ts[1..]
    ensures |ts[0].value| == ZT_CERTIFICATEOFOWNERSHIP_MAX_THING_VALUE_SIZE && ThingsOk(ts[1..])
  {
    hide EncodeThing;
    assert ts[0] in ts;
  }

  /** How many things a count says are on the wire: those beyond the sixteenth are not. */
  function Carried16(count: nat): nat {
    if count < ZT_CERTIFICATEOFOWNERSHIP_MAX_THINGS then count else ZT_CERTIFICATEOFOWNERSHIP_MAX_THINGS
  }

  lemma ThingsStop(b: Bytes, p: nat, i: nat, n: nat)
    requires i == Carried16(n)
    ensures DecodeThings(b, p, i, n) == Done(([], p)) && EncodeThings([]) == []
  {
  }

  lemma {:induction false} ThingsRoundTrip(ts: seq<Thing>, b: Bytes, p: nat, i: nat, n: nat)
    requires i + |ts| == Carried16(n) && ThingsOk(ts) && Has(b, p, EncodeThings(ts))
    ensures DecodeThings(b, p, i, n) == Done((ts, p + |EncodeThings(ts)|))
    decreases |ts|
  {
    hide Has, EncodeThing, EncodeThings, DecodeThings, ThingsOk, Read8, ReadBytes;
    if ts == [] {
      ThingsStop(b, p, i, n);
    } else {
      ThingsSplit(ts);
      HasParts(b, p, EncodeThing(ts[0]), EncodeThings(ts[1..]));
      ThingRoundTrip(ts[0], b, p);
      DecodeThing(ts[0], b, p, i, n);
      ThingsRoundTrip(ts[1..], b, p + 17, i + 1, n);
    }
  }

  lemma CooTailRoundTrip(c: Coo, b: Bytes, p: nat)
    requires |c.signature| == ZT_ECC_SIGNATURE_LEN && Has(b, p, EncodeCooTail(c))
    ensures DecodeCooTail(b, p) == Done((CooTail(c.issuedTo, c.signedBy, c.signature), p + |EncodeCooTail(c)|))
  {
    hide Has, BigEndian, ReadAddress, EncodeAddress, EncodeSignature, DecodeSignature, DecodeExtra;
    var x, y, z, e := EncodeAddress(c.issuedTo), EncodeAddress(c.signedBy), EncodeSignature(c.signature),
        BigEndian(0, 2);
    HasParts(b, p, x, y + (z + e)); HasParts(b, p + 5, y, z + e); HasParts(b, p + 10, z, e);
    AddressRoundTrip(c.issuedTo, b, p); AddressRoundTrip(c.signedBy, b, p + 5);
    SignatureRoundTrip(c.signature, b, p + 10); ExtraRoundTrip(b, p + 109);
  }

  /** The bytes of a certificate read back, whatever its count says. */
  lemma CooRoundTrip(c: Coo, b: Bytes, p: nat)
    requires CooStored(c) && Has(b, p, EncodeCoo(c))
    ensures DecodeCoo(b, p) == Done((c, p + |EncodeCoo(c)|))
  {
    hide Has, BigEndian, Read16, Read32, Read64, EncodeThings, DecodeThings, EncodeCooTail, DecodeCooTail;
    var u, v, w, x, y := BigEndian(c.networkId, 8), BigEndian(c.ts, 8), BigEndian(c.flags, 8), BigEndian(c.id, 4),
        BigEndian(c.thingCount, 2);
    var z, e := EncodeThings(c.things), EncodeCooTail(c);
    HasParts(b, p, EncodeCooHead(c), z + e); HasParts(b, p + 30, z, e);
    HasParts(b, p, u, v + (w + (x + y))); HasParts(b, p + 8, v, w + (x + y)); HasParts(b, p + 16, w, x + y);
    HasParts(b, p + 24, x, y);
    Read8Bytes(b, p, c.networkId); Read8Bytes(b, p + 8, c.ts); Read8Bytes(b, p + 16, c.flags); Read4(b, p + 24, c.id);
    Read2(b, p + 28, c.thingCount);
    ThingsRoundTrip(c.things, b, p + 30, 0, c.thingCount); ThingsSize(c.things);
    CooTailRoundTrip(c, b, p + 30 + |z|);
  }

  // ---- What was read ----

  lemma {:induction false} DecodedThings(b: Bytes, p: nat, i: nat, n: nat)
    requires i <= Carried16(n)
    ensures var d := DecodeThings(b, p, i, n);
      d.Done? ==> |d.value.0| == Carried16(n) - i && ThingsOk(d.value.0)
    decreases n - i
  {
    hide Read8;
    if i < Carried16(n) { DecodedThings(b, p + 17, i + 1, n); }
  }

  /** A certificate of ownership that was read can be serialized exactly if its count, which is not checked, is at most
      sixteen. */
  lemma DecodedCoo(b: Bytes, p: nat)
    requires DecodeCoo(b, p).Done?
    ensures var c := DecodeCoo(b, p).value.0;
      CooStored(c) && (CooSized(c) <==> c.thingCount <= ZT_CERTIFICATEOFOWNERSHIP_MAX_THINGS)
  {
    hide Read8, Read16, Read32, Read64, ReadAddress, DecodeThings, DecodeExtra, ThingsOk;
    var count := Read16(b, p + 28).value;
    DecodedThings(b, p + 30, 0, count);
    DecodedSignature(b, DecodeThings(b, p + 30, 0, count).value.1 + 10);
  }

  /** Every count occurs: a certificate of any count is read back from its bytes with that count. */
  lemma CountsAreReadBack(c: Coo, count: uint16)
    requires CooStored(c) && Carried16(count) == |c.things|
    ensures var d := c.(thingCount := count); DecodeCoo(EncodeCoo(d), 0) == Done((d, |EncodeCoo(d)|))
  {
    hide EncodeCoo, DecodeCoo;
    var d := c.(thingCount := count);
    var s := EncodeCoo(d);
    assert s[0..|s|] == s;
    CooRoundTrip(d, s, 0);
  }

  lemma DecodedTag(b: Bytes, p: nat)
    ensures DecodeTag(b, p).Done? ==> |DecodeTag(b, p).value.0.signature| == ZT_ECC_SIGNATURE_LEN
  {
    hide Read32, Read64, ReadAddress, DecodeSignature, DecodeExtra;
    DecodedSignature(b, p + 34);
  }

  lemma {:induction false} DecodedQualifiers(b: Bytes, p: nat, done: nat, n: nat, lastId: uint64)
    requires done <= ZT_NETWORK_COM_MAX_QUALIFIERS
    ensures var d := DecodeQualifiers(b, p, done, n, lastId);
      d.Done? ==> done + |d.value.0| <= ZT_NETWORK_COM_MAX_QUALIFIERS && Ordered(d.value.0, lastId)
    decreases n
  {
    hide Read64;
    var id := Read64(b, p);
    if n > 0 && id.Done? && done < ZT_NETWORK_COM_MAX_QUALIFIERS {
      DecodedQualifiers(b, p + 24, done + 1, n - 1, id.value);
    }
  }

  /** A certificate of membership that was read has the sizes of its arrays, and its qualifiers are in order. */
  lemma DecodedCom(b: Bytes, p: nat)
    ensures var d := DecodeCom(b, p); d.Done? ==> ComSized(d.value.0) && Ordered(d.value.0.qualifiers, 0)
  {
    hide Read8, Read16, ReadAddress, DecodeQualifiers, Ordered;
    var n := Read16(b, p + 1);
    if n.Done? { DecodedQualifiers(b, p + 3, 0, n.value, 0); }
  }

  // ---- Sizes ----

  lemma ComSize(c: Com)
    requires ComSized(c)
    ensures |EncodeCom(c)| <= 296
  {
    hide BigEndian, EncodeQualifiers;
  }

  lemma CooSize(c: Coo)
    requires CooSized(c)
    ensures |EncodeCoo(c)| <= 413
  {
    hide BigEndian, EncodeThings;
    ThingsSize(c.things);
  }

  lemma {:induction false} ThingsSize(ts: seq<Thing>)
    requires ThingsOk(ts)
    ensures |EncodeThings(ts)| == 17 * |ts|
  {
    hide BigEndian;
    if ts != [] {
      assert ts[0] in ts;
      ThingsSize(ts[1..]);
    }
  }

  // ---- The code ----

  method SerializeCom(b: Buffer, c: Com) returns (r: Status)
    requires b.Valid() && ComSized(c)
    modifies b, b.b
    ensures b.Valid() && r.Fine? == (|old(b.Contents())| + |EncodeCom(c)| <= b.b.Length)
    ensures r.Fine? ==> b.Contents() == old(b.Contents()) + EncodeCom(c)
  {
    hide BigEndian, EncodeQualifiers, EncodeSigner;
    :- AppendPair(b, 1, 1, |c.qualifiers|, 2);
    :- SerializeQualifiers(b, c.qualifiers);
    r := SerializeSigner(b, c);
  }

  method SerializeQualifiers(b: Buffer, qs: seq<Qualifier>) returns (r: Status)
    requires b.Valid()
    modifies b, b.b
    ensures b.Valid() && r.Fine? == (|old(b.Contents())| + |EncodeQualifiers(qs)| <= b.b.Length)
    ensures r.Fine? ==> b.Contents() == old(b.Contents()) + EncodeQualifiers(qs)
  {
    hide BigEndian, EncodeQualifiers, EncodeQualifier;
    ghost var s := b.Contents();
    assert qs[0..] == qs;
    for i := 0 to |qs|
      invariant b.Valid() && b.Contents() + EncodeQualifiers(qs[i..]) == s + EncodeQualifiers(qs)
    {
      QualifiersNext(qs, i);
      :- SerializeQualifier(b, qs[i]);
    }
    QualifiersNone(qs);
    assert b.Contents() + [] == b.Contents() == s + EncodeQualifiers(qs);
    return Fine;
  }

  method SerializeSigner(b: Buffer, c: Com) returns (r: Status)
    requires b.Valid()
    modifies b, b.b
    ensures b.Valid() && r.Fine? == (|old(b.Contents())| + |EncodeSigner(c)| <= b.b.Length)
    ensures r.Fine? ==> b.Contents() == old(b.Contents()) + EncodeSigner(c)
  {
    hide BigEndian;
    :- b.AppendInt(c.signedBy, 5);
    if c.signedBy != 0 {
      :- b.Append(c.signature);
    }
    return Fine;
  }

  method SerializeQualifier(b: Buffer, q: Qualifier) returns (r: Status)
    requires b.Valid()
    modifies b, b.b
    ensures b.Valid() && r.Fine? == (|old(b.Contents())| + 24 <= b.b.Length)
    ensures r.Fine? ==> b.Contents() == old(b.Contents()) + EncodeQualifier(q)
  {
    hide BigEndian;
    :- b.AppendInt(q.id, 8);
    r := AppendPair(b, q.value, 8, q.maxDelta, 8);
  }

  lemma QualifiersNext(qs: seq<Qualifier>, i: nat)
    requires i < |qs|
    ensures EncodeQualifiers(qs[i..]) == EncodeQualifier(qs[i]) + EncodeQualifiers(qs[i + 1..])
  {
    assert qs[i..][1..] == qs[i + 1..];
  }

  lemma QualifiersNone(qs: seq<Qualifier>)
    ensures EncodeQualifiers(qs[|qs|..]) == []
  {
  }

  method SerializeTag(b: Buffer, t: Tag) returns (r: Status)
    requires b.Valid() && |t.signature| == ZT_ECC_SIGNATURE_LEN
    modifies b, b.b
    ensures b.Valid() && r.Fine? == (|old(b.Contents())| + |EncodeTag(t)| <= b.b.Length)
    ensures r.Fine? ==> b.Contents() == old(b.Contents()) + EncodeTag(t)
  {
    hide BigEndian, EncodeSignature, EncodeTag;
    TagInParts(t, b.Contents());
    :- AppendPair(b, t.networkId, 8, t.ts, 8);
    :- AppendPair(b, t.id, 4, t.value, 4);
    :- AppendPair(b, t.issuedTo, 5, t.signedBy, 5);
    :- SerializeSignature(b, t.signature);
    r := b.AppendInt(0, 2);
  }

  lemma TagInParts(t: Tag, s: Bytes)
    ensures s + (BigEndian(t.networkId, 8) + BigEndian(t.ts, 8)) + (BigEndian(t.id, 4) + BigEndian(t.value, 4))
            + (BigEndian(t.issuedTo, 5) + BigEndian(t.signedBy, 5)) + EncodeSignature(t.signature) + BigEndian(0, 2) ==
                s + EncodeTag(t)
  {
    hide BigEndian, EncodeSignature;
    Regrouped(s, BigEndian(t.networkId, 8), BigEndian(t.ts, 8), BigEndian(t.id, 4), BigEndian(t.value, 4),
              BigEndian(t.issuedTo, 5), BigEndian(t.signedBy, 5), EncodeSignature(t.signature), BigEndian(0, 2));
  }

  lemma Regrouped(s: Bytes, u: Bytes, v: Bytes, w: Bytes, x: Bytes, y: Bytes, z: Bytes, g: Bytes, e: Bytes)
    ensures s + (u + v) + (w + x) + (y + z) + g + e == s + (u + (v + (w + (x + (y + (z + (g + e)))))))
  {
  }

  method SerializeThing(b: Buffer, t: Thing) returns (r: Status)
    requires b.Valid() && |t.value| == ZT_CERTIFICATEOFOWNERSHIP_MAX_THING_VALUE_SIZE
    modifies b, b.b
    ensures b.Valid() && r.Fine? == (|old(b.Contents())| + 17 <= b.b.Length)
    ensures r.Fine? ==> b.Contents() == old(b.Contents()) + EncodeThing(t)
  {
    hide BigEndian;
    :- b.AppendInt(t.kind, 1);
    r := b.Append(t.value);
  }

  lemma ThingsNext(ts: seq<Thing>, i: nat)
    requires i < |ts| && ThingsOk(ts)
    ensures EncodeThings(ts[i..]) == EncodeThing(ts[i]) + EncodeThings(ts[i + 1..])
    ensures |ts[i].value| == ZT_CERTIFICATEOFOWNERSHIP_MAX_THING_VALUE_SIZE
  {
    hide BigEndian;
    assert ts[i] in ts && ts[i..][1..] == ts[i + 1..];
  }

  lemma ThingsNone(ts: seq<Thing>)
    ensures EncodeThings(ts[|ts|..]) == []
  {
  }

  method SerializeCoo(b: Buffer, c: Coo) returns (r: Status)
    requires b.Valid() && CooSized(c)
    modifies b, b.b
    ensures b.Valid() && r.Fine? == (|old(b.Contents())| + |EncodeCoo(c)| <= b.b.Length)
    ensures r.Fine? ==> b.Contents() == old(b.Contents()) + EncodeCoo(c)
  {
    hide BigEndian, EncodeThings, EncodeCooTail, EncodeCooHead;
    :- SerializeCooHead(b, c);
    ghost var s, ts := b.Contents(), c.things;
    assert ts[0..] == ts;
    for i := 0 to c.thingCount
      invariant b.Valid() && b.Contents() + EncodeThings(ts[i..]) == s + EncodeThings(ts)
    {
      ThingsNext(ts, i);
      :- SerializeThing(b, c.things[i]);
    }
    ThingsNone(ts);
    assert b.Contents() + [] == b.Contents() == s + EncodeThings(ts);
    r := SerializeCooTail(b, c);
  }

  method SerializeCooHead(b: Buffer, c: Coo) returns (r: Status)
    requires b.Valid()
    modifies b, b.b
    ensures b.Valid() && r.Fine? == (|old(b.Contents())| + 30 <= b.b.Length)
    ensures r.Fine? ==> b.Contents() == old(b.Contents()) + EncodeCooHead(c)
  {
    hide BigEndian;
    :- AppendPair(b, c.networkId, 8, c.ts, 8);
    :- AppendPair(b, c.flags, 8, c.id, 4);
    r := b.AppendInt(c.thingCount, 2);
  }

  method SerializeCooTail(b: Buffer, c: Coo) returns (r: Status)
    requires b.Valid() && |c.signature| == ZT_ECC_SIGNATURE_LEN
    modifies b, b.b
    ensures b.Valid() && r.Fine? == (|old(b.Contents())| + |EncodeCooTail(c)| <= b.b.Length)
    ensures r.Fine? ==> b.Contents() == old(b.Contents()) + EncodeCooTail(c)
  {
    hide BigEndian, EncodeSignature;
    :- AppendPair(b, c.issuedTo, 5, c.signedBy, 5);
    :- SerializeSignature(b, c.signature);
    r := b.AppendInt(0, 2);
  }

  method DeserializeQualifier(b: Buffer, p: nat) returns (r: Outcome<Qualifier>)
    requires b.Valid()
    ensures r == DecodeQualifier(b.Contents(), p)
  {
    hide Read64;
    var id :- Take64(b, p);
    var value :- Take64(b, p + 8);
    var maxDelta :- Take64(b, p + 16);
    return Done(Qualifier(id, value, maxDelta));
  }

  method DeserializeSigner(b: Buffer, p: nat) returns (r: Outcome<(Address, Bytes, nat)>)
    requires b.Valid()
    ensures r == DecodeSigner(b.Contents(), p)
  {
    hide ReadAddress, ReadBytes;
    var signedBy :- DeserializeAddress(b, p);
    if signedBy == 0 {
      return Done((0, NO_SIGNATURE, p + 5));
    }
    var signature :- b.Field(p + 5, ZT_ECC_SIGNATURE_LEN);
    return Done((signedBy, signature, p + 5 + ZT_ECC_SIGNATURE_LEN));
  }

  /** deserialize for certificates of membership. */
  method DeserializeCom(b: Buffer, startAt: nat) returns (r: Outcome<(Com, nat)>)
    requires b.Valid()
    ensures r == DecodeCom(b.Contents(), startAt)
  {
    hide Read8, Read16, Read64, DecodeSigner, DecodeQualifier;
    ghost var s := b.Contents();
    var p := startAt;
    var kind :- Take8(b, p);
    if kind != 1 {
      return Failed;
    }
    var numq :- Take16(b, p + 1);
    p := p + 3;
    var qs: seq<Qualifier>, lastId: uint64 := [], 0;
    ThenNone(DecodeQualifiers(s, p, 0, numq, 0));
    for i := 0 to numq
      invariant |qs| == i
      invariant DecodeQualifiers(s, startAt + 3, 0, numq, 0) == Then(qs, DecodeQualifiers(s, p, i, numq - i, lastId))
    {
      var qid :- Take64(b, p);
      if qid < lastId {
        return Failed;
      }
      lastId := qid;
      if |qs| >= ZT_NETWORK_COM_MAX_QUALIFIERS {
        return Failed;
      }
      var q :- DeserializeQualifier(b, p);
      ThenNext(qs, q, DecodeQualifiers(s, p + 24, i + 1, numq - i - 1, qid));
      qs, p := qs + [q], p + 24;
    }
    assert qs + [] == qs;
    var tail :- DeserializeSigner(b, p);
    return Done((Com(qs, tail.0, tail.1), tail.2));
  }
}
