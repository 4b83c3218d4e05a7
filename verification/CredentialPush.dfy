/** Packing credentials into packets, and parsing the packets back. */
module CredentialPush {
  import opened Widths
  import opened Wrappers
  import opened Blocks
  import opened BigEndians
  import opened Buffers
  import opened Rules
  import opened Capabilities
  import opened Credentials
  import opened CredentialCodecs
  import CustodyChain

  // ---- Lists of encoded things ----

  function EncodeAll<T>(enc: T -> Bytes, xs: seq<T>): Bytes {
    if xs == [] then [] else enc(xs[0]) + EncodeAll(enc, xs[1..])
  }

  lemma {:induction false} EncodeAllAppend<T>(enc: T -> Bytes, xs: seq<T>, x: T)
    ensures EncodeAll(enc, xs + [x]) == EncodeAll(enc, xs) + enc(x)
  {
    if xs == [] {
      assert xs + [x] == [x] && EncodeAll(enc, [x][1..]) == [];
    } else {
      assert (xs + [x])[1..] == xs[1..] + [x];
      EncodeAllAppend(enc, xs[1..], x);
    }
  }

  /** A count and that many things. */
  function Group<T>(enc: T -> Bytes, xs: seq<T>): Bytes { BigEndian(|xs|, 2) + EncodeAll(enc, xs) }

  /** Reading n things from p. */
  function DecodeN<T>(dec: (Bytes, nat) -> Outcome<(T, nat)>, b: Bytes, p: nat, n: nat): Outcome<(seq<T>, nat)>
    decreases n
  {
    if n == 0 then Done(([], p))
    else
      var (x, q) :- dec(b, p);
      var (rest, end) :- DecodeN(dec, b, q, n - 1);
      Done(([x] + rest, end))
  }

  /** Wherever x is encoded, it decodes to what the wire carries of it. */
  ghost predicate Reads<T(!new)>(enc: T -> Bytes, dec: (Bytes, nat) -> Outcome<(T, nat)>, carry: T -> T, x: T) {
    forall b: Bytes, p: nat | Has(b, p, enc(x)) :: dec(b, p) == Done((carry(x), p + |enc(x)|))
  }

  function Map<T>(f: T -> T, xs: seq<T>): (ys: seq<T>)
    ensures |ys| == |xs|
  {
    if xs == [] then [] else [f(xs[0])] + Map(f, xs[1..])
  }

  lemma {:induction false} AllRoundTrip<T(!new)>(enc: T -> Bytes, dec: (Bytes, nat) -> Outcome<(T, nat)>, carry: T -> T,
      xs: seq<T>, b: Bytes, p: nat)
    requires (forall x | x in xs :: Reads(enc, dec, carry, x)) && Has(b, p, EncodeAll(enc, xs))
    ensures DecodeN(dec, b, p, |xs|) == Done((Map(carry, xs), p + |EncodeAll(enc, xs)|))
  {
    hide Has;
    if xs != [] {
      HasParts(b, p, enc(xs[0]), EncodeAll(enc, xs[1..]));
      assert Reads(enc, dec, carry, xs[0]);
      AllRoundTrip(enc, dec, carry, xs[1..], b, p + |enc(xs[0])|);
    }
  }

  function DecodeGroup<T>(dec: (Bytes, nat) -> Outcome<(T, nat)>, b: Bytes, p: nat): Outcome<(seq<T>, nat)> {
    var n :- Read16(b, p);
    DecodeN(dec, b, p + 2, n)
  }

  lemma GroupRoundTrip<T(!new)>(enc: T -> Bytes, dec: (Bytes, nat) -> Outcome<(T, nat)>, carry: T -> T, xs: seq<T>,
      b: Bytes, p: nat)
    requires (forall x | x in xs :: Reads(enc, dec, carry, x)) && Has(b, p, Group(enc, xs)) && |xs| < U16
    ensures DecodeGroup(dec, b, p) == Done((Map(carry, xs), p + |Group(enc, xs)|))
  {
    hide Has, BigEndian, Read16;
    HasParts(b, p, BigEndian(|xs|, 2), EncodeAll(enc, xs));
    Read2(b, p, |xs|);
    AllRoundTrip(enc, dec, carry, xs, b, p + 2);
  }

  // ---- The payload of a packet ----

  function EncCom(c: Com): Bytes { if ComSized(c) then EncodeCom(c) else [] }
  function EncCap(c: Capability): Bytes { if Sized(c) then Encode(c) else [] }
  function CarriedCap(c: Capability): Capability { if Sized(c) then Carried(c) else c }
  function Same<T>(x: T): T { x }

  datatype Segment = Segment(coms: seq<Com>, caps: seq<Capability>, tags: seq<Tag>, coos: seq<Coo>)

  const EMPTY := Segment([], [], [], [])

  /** What a packet holds after its header; there are never revocations. */
  function Payload(s: Segment): Bytes {
    EncodeAll(EncCom, s.coms) + ([0 as bv8] + (Group(EncCap, s.caps)
    + (Group(EncodeTag, s.tags) + (BigEndian(0, 2) + Group(EncodeCoo, s.coos)))))
  }

  // ---- Parsing ----

  /** The certificates of membership before the zero byte. */
  function ParseComs(b: Bytes, p: nat): Outcome<(seq<Com>, nat)>
    decreases |b| - p
  {
    if p >= |b| || b[p] == 0 then Done(([], p))
    else
      var (com, q) :- DecodeCom(b, p);
      var (rest, end) :- ParseComs(b, q);
      Done(([com] + rest, end))
  }

  /** The grammar of the credentials packet; rev parses a revocation, whose fields are not modelled. */
  function Parse(rev: (Bytes, nat) -> Outcome<((), nat)>, b: Bytes, p: nat): Outcome<Segment> {
    var (coms, p0) :- ParseComs(b, p);
    if p0 + 1 >= |b| then Done(Segment(coms, [], [], []))
    else
      var (caps, p1) :- DecodeGroup(Decode, b, p0 + 1);
      if p1 >= |b| then Done(Segment(coms, caps, [], []))
      else
        var (tags, p2) :- DecodeGroup(DecodeTag, b, p1);
        if p2 >= |b| then Done(Segment(coms, caps, tags, []))
        else
          var (revs, p3) :- DecodeGroup(rev, b, p2);
          if p3 >= |b| then Done(Segment(coms, caps, tags, []))
          else
            var (coos, p4) :- DecodeGroup(DecodeCoo, b, p3);
            Done(Segment(coms, caps, tags, coos))
  }

  // ---- Parsing a payload gives the segment back ----

  /** Every certificate, capability, tag and certificate of ownership is within its sizes, and will be accepted. */
  predicate SegmentOk(s: Segment) {
    && (forall c | c in s.coms :: ComSized(c) && Ordered(c.qualifiers, 0))
    && (forall c | c in s.caps :: Sized(c) && ChainLengthOk(c))
    && (forall t | t in s.tags :: |t.signature| == ZT_ECC_SIGNATURE_LEN)
    && (forall c | c in s.coos :: CooSized(c))
    && |s.caps| < U16 && |s.tags| < U16 && |s.coos| < U16
  }

  function OnTheWire(s: Segment): Segment { Segment(Map(ComCarried, s.coms), Map(CarriedCap, s.caps), s.tags, s.coos) }

  lemma {:induction false} MapSame<T>(xs: seq<T>)
    ensures Map(Same, xs) == xs
  {
    if xs != [] { MapSame(xs[1..]); }
  }

  lemma ComReads(c: Com)
    requires ComSized(c) && Ordered(c.qualifiers, 0)
    ensures Reads(EncCom, DecodeCom, ComCarried, c)
  {
    hide EncodeCom, DecodeCom, Has, ComCarried;
    forall b: Bytes, p: nat | Has(b, p, EncCom(c))
      ensures DecodeCom(b, p) == Done((ComCarried(c), p + |EncCom(c)|))
    {
      ComRoundTrip(c, b, p);
    }
  }

  lemma CapReads(c: Capability)
    requires Sized(c) && ChainLengthOk(c)
    ensures Reads(EncCap, Decode, CarriedCap, c)
  {
    hide Encode, Decode, Has, Carried, Sized;
    forall b: Bytes, p: nat | Has(b, p, EncCap(c))
      ensures Decode(b, p) == Done((CarriedCap(c), p + |EncCap(c)|))
    {
      CapabilityRoundTrip(c, b, p);
    }
  }

  lemma TagReads(t: Tag)
    requires |t.signature| == ZT_ECC_SIGNATURE_LEN
    ensures Reads(EncodeTag, DecodeTag, Same, t)
  {
    hide EncodeTag, DecodeTag, Has;
    forall b: Bytes, p: nat | Has(b, p, EncodeTag(t))
      ensures DecodeTag(b, p) == Done((t, p + |EncodeTag(t)|))
    {
      TagRoundTrip(t, b, p);
    }
  }

  lemma CooReads(c: Coo)
    requires CooSized(c)
    ensures Reads(EncodeCoo, DecodeCoo, Same, c)
  {
    hide EncodeCoo, DecodeCoo, Has, CooStored;
    forall b: Bytes, p: nat | Has(b, p, EncodeCoo(c))
      ensures DecodeCoo(b, p) == Done((c, p + |EncodeCoo(c)|))
    {
      CooRoundTrip(c, b, p);
    }
  }

  lemma {:induction false} ComsRoundTrip(coms: seq<Com>, b: Bytes, p: nat)
    requires forall c | c in coms :: ComSized(c) && Ordered(c.qualifiers, 0)
    requires Has(b, p, EncodeAll(EncCom, coms) + [0 as bv8])
    ensures ParseComs(b, p) == Done((Map(ComCarried, coms), p + |EncodeAll(EncCom, coms)|))
    decreases |coms|
  {
    hide EncodeCom, DecodeCom, Has, ComCarried, ComSized;
    if coms == [] {
      HasZero(b, p);
    } else {
      var c := coms[0];
      assert c in coms && EncodeAll(EncCom, coms) + [0 as bv8] ==
          EncCom(c) + (EncodeAll(EncCom, coms[1..]) + [0 as bv8]);
      HasParts(b, p, EncCom(c), EncodeAll(EncCom, coms[1..]) + [0 as bv8]);
      ComReads(c);
      ComStarts(c, b, p);
      ComsRoundTrip(coms[1..], b, p + |EncCom(c)|);
    }
  }

  lemma HasZero(b: Bytes, p: nat)
    requires Has(b, p, [] + [0 as bv8])
    ensures p < |b| && b[p] == 0
  {
    assert b[p..p + 1][0] == 0;
  }

  lemma ComStarts(c: Com, b: Bytes, p: nat)
    requires ComSized(c) && Has(b, p, EncCom(c))
    ensures p < |b| && b[p] != 0
  {
    hide BigEndian, EncodeQualifiers, EncodeSigner;
    var s := EncodeCom(c);
    OneByte();
    assert s[0] == BigEndian(1, 1)[0];
    assert b[p] == b[p..p + |s|][0] == s[0];
  }

  lemma OneByte()
    ensures BigEndian(1, 1)[0] != 0
  {
    hide NatByte, ByteVal;
    NatRoundTrip(1);
    ValOfZero();
  }

  lemma ValOfZero()
    ensures ByteVal(0) == 0
  {
    hide Mask;
    AndZero(Mask(0)); AndZero(Mask(1)); AndZero(Mask(2)); AndZero(Mask(3));
    AndZero(Mask(4)); AndZero(Mask(5)); AndZero(Mask(6)); AndZero(Mask(7));
  }

  lemma AndZero(m: bv8)
    ensures 0 & m == 0
  {
  }

  /** A packet whose payload is that of a segment parses to it. */
  lemma PayloadRoundTrip(rev: (Bytes, nat) -> Outcome<((), nat)>, s: Segment, b: Bytes, p: nat)
    requires SegmentOk(s) && Has(b, p, Payload(s)) && |b| == p + |Payload(s)|
    ensures Parse(rev, b, p) == Done(OnTheWire(s))
  {
    hide Has, BigEndian, Group, EncodeAll, ParseComs, DecodeGroup, Reads, ComSized, Sized, CooSized, Ordered, Map;
    var coms, z := EncodeAll(EncCom, s.coms), [0 as bv8];
    var caps, tags, revs, coos := Group(EncCap, s.caps), Group(EncodeTag, s.tags), BigEndian(0, 2),
        Group(EncodeCoo, s.coos);
    var p0 := p + |coms|; var p1 := p0 + 1; var p2 := p1 + |caps|; var p3 := p2 + |tags|; var p4 := p3 + 2;
    HasParts(b, p, coms, z + (caps + (tags + (revs + coos))));
    HasParts(b, p0, z, caps + (tags + (revs + coos))); HasParts(b, p1, caps, tags + (revs + coos));
    HasParts(b, p2, tags, revs + coos); HasParts(b, p3, revs, coos);
    HasParts(b, p, coms, z);
    ComsRoundTrip(s.coms, b, p);
    forall c | c in s.caps ensures Reads(EncCap, Decode, CarriedCap, c) { CapReads(c); }
    GroupRoundTrip(EncCap, Decode, CarriedCap, s.caps, b, p1);
    forall t | t in s.tags ensures Reads(EncodeTag, DecodeTag, Same, t) { TagReads(t); }
    GroupRoundTrip(EncodeTag, DecodeTag, Same, s.tags, b, p2);
    NoRevocations(rev, b, p3);
    forall c | c in s.coos ensures Reads(EncodeCoo, DecodeCoo, Same, c) { CooReads(c); }
    GroupRoundTrip(EncodeCoo, DecodeCoo, Same, s.coos, b, p4);
    MapSame(s.tags); MapSame(s.coos);
    GroupSize(EncCap, s.caps); GroupSize(EncodeTag, s.tags); GroupSize(EncodeCoo, s.coos);
  }

  lemma GroupSize<T>(enc: T -> Bytes, xs: seq<T>)
    ensures |Group(enc, xs)| == 2 + |EncodeAll(enc, xs)|
  {
    hide BigEndian;
  }

  lemma NoRevocations(rev: (Bytes, nat) -> Outcome<((), nat)>, b: Bytes, p: nat)
    requires Has(b, p, BigEndian(0, 2))
    ensures DecodeGroup(rev, b, p) == Done(([], p + 2))
  {
    hide BigEndian, Read16;
    Read2(b, p, 0);
  }

  // ---- Segments in order ----

  function Join(j: Segment, s: Segment): Segment {
    Segment(j.coms + s.coms, j.caps + s.caps, j.tags + s.tags, j.coos + s.coos)
  }

  /** What a receiver collects from packets in order, each with a header of the given size. */
  function ParseAll(rev: (Bytes, nat) -> Outcome<((), nat)>, header: nat, packets: seq<Bytes>): Outcome<Segment> {
    if packets == [] then Done(EMPTY)
    else
      var j :- ParseAll(rev, header, packets[..|packets| - 1]);
      var s :- Parse(rev, packets[|packets| - 1], header);
      Done(Join(j, s))
  }

  lemma ParseOneMore(rev: (Bytes, nat) -> Outcome<((), nat)>, header: nat, packets: seq<Bytes>, packet: Bytes,
      j: Segment, s: Segment)
    requires ParseAll(rev, header, packets) == Done(j) && Parse(rev, packet, header) == Done(s)
    ensures ParseAll(rev, header, packets + [packet]) == Done(Join(j, s))
  {
    hide Parse, Join;
    assert (packets + [packet])[..|packets|] == packets;
  }

  /** The sizes that the packing relies on; the size of an object in memory bounds its serialized size. */
  datatype Sizes = Sizes(capability: nat, tag: nat, coo: nat, header: nat, maxPacket: nat)

  predicate Adequate(z: Sizes) {
    && z.capability >= 2137 && z.tag >= 135 && z.coo >= 413
    && z.header + 3 + z.capability + 16 < z.maxPacket && z.header + 5 + z.tag + 16 < z.maxPacket
    && z.header + 9 + z.coo + 16 < z.maxPacket
  }

  datatype Config = Config(com: Com, caps: seq<Capability>, tags: seq<Tag>, coos: seq<Coo>)

  predicate ConfigOk(c: Config) {
    && ComSized(c.com) && Ordered(c.com.qualifiers, 0)
    && (forall x | x in c.caps :: Sized(x) && ChainLengthOk(x))
    && (forall t | t in c.tags :: |t.signature| == ZT_ECC_SIGNATURE_LEN)
    && (forall x | x in c.coos :: CooSized(x))
    && |c.caps| <= 128 && |c.tags| <= 128 && |c.coos| <= 4
  }

  // ---- Packing ----

  /** Writing a count into the two bytes reserved for it. */
  lemma CountFilled(s: Bytes, gap: Bytes, e: Bytes, count: Bytes)
    requires |gap| == |count|
    ensures (s + gap + e)[..|s|] + count + (s + gap + e)[|s| + |gap|..] == s + (count + e)
  {
  }

  /** Leaves two bytes for a count. */
  method Reserve(outp: Buffer) returns (at: nat, ghost s: Bytes, ghost gap: Bytes)
    requires outp.Valid() && outp.l + 2 <= outp.b.Length
    modifies outp
    ensures outp.Valid() && outp.l == old(outp.l) + 2 && outp.Contents() == s + gap
    ensures s == old(outp.Contents()) && |gap| == 2 && at == |s| == old(outp.l)
  {
    s, at := outp.Contents(), outp.l;
    var r := outp.AddSize(2);
    gap := outp.Contents()[|s|..];
  }

  method FillCount(outp: Buffer, at: nat, count: nat, ghost s: Bytes, ghost gap: Bytes, ghost e: Bytes)
      returns (r: Status)
    requires outp.Valid() && outp.Contents() == s + gap + e && at == |s| && |gap| == 2
    modifies outp.b
    ensures outp.Valid() && r.Fine? && outp.Contents() == s + (BigEndian(count, 2) + e)
  {
    hide BigEndian;
    assert |outp.Contents()| == outp.l;
    CountFilled(s, gap, e, BigEndian(count, 2));
    r := outp.SetAt(at, count, 2);
  }

  /** The loop that packs capabilities while they fit, and fills in their number. */
  method PutCaps(outp: Buffer, xs: seq<Capability>, ptr: nat, z: Sizes) returns (r: Status, ptr': nat)
    requires outp.Valid() && outp.b.Length == z.maxPacket && outp.l + 2 <= z.maxPacket && Adequate(z)
    requires ptr <= |xs| < U16 && forall x | x in xs :: Sized(x)
    modifies outp, outp.b
    ensures outp.Valid() && r.Fine? && ptr <= ptr' <= |xs|
    ensures outp.Contents() == old(outp.Contents()) + Group(EncCap, xs[ptr..ptr'])
    ensures if ptr' == ptr then outp.l == old(outp.l) + 2 else outp.l + 17 <= z.maxPacket
    ensures ptr < |xs| && old(outp.l) + 2 + z.capability + 16 < z.maxPacket ==> ptr < ptr'
  {
    hide BigEndian, EncodeAll, EncCap, Sized, EncodeTag, EncodeCoo, CooSized, Buffer.Contents;
    var countAt, s, gap := Reserve(outp);
    ptr' := FillCaps(outp, xs, ptr, z);
    r := FillCount(outp, countAt, ptr' - ptr, s, gap, EncodeAll(EncCap, xs[ptr..ptr']));
  }

  method FillCaps(outp: Buffer, xs: seq<Capability>, ptr: nat, z: Sizes) returns (ptr': nat)
    requires outp.Valid() && outp.b.Length == z.maxPacket && Adequate(z) && ptr <= |xs|
    requires forall x | x in xs :: Sized(x)
    modifies outp, outp.b
    ensures outp.Valid() && ptr <= ptr' <= |xs|
    ensures outp.Contents() == old(outp.Contents()) + EncodeAll(EncCap, xs[ptr..ptr'])
    ensures outp.l >= old(outp.l) && if ptr' == ptr then outp.l == old(outp.l) else outp.l + 17 <= z.maxPacket
    ensures ptr < |xs| && old(outp.l) + z.capability + 16 < z.maxPacket ==> ptr < ptr'
  {
    hide BigEndian, EncodeAll, EncCap, Sized, EncodeTag, EncodeCoo, CooSized;
    ptr' := ptr;
    NothingEncoded(EncCap);
    assert xs[ptr..ptr] == [] && outp.Contents() + [] == outp.Contents();
    while ptr' < |xs| && outp.l + z.capability + 16 < z.maxPacket
      invariant outp.Valid() && ptr <= ptr' <= |xs| && outp.l >= old(outp.l)
      invariant outp.Contents() == old(outp.Contents()) + EncodeAll(EncCap, xs[ptr..ptr'])
      invariant if ptr' == ptr then outp.l == old(outp.l) else outp.l + 17 <= z.maxPacket
    {
      assert xs[ptr'] in xs;
      var r := PutCap(outp, xs[ptr']);
      OneMore(EncCap, xs, ptr, ptr');
      ptr' := ptr' + 1;
    }
  }

  /** The loop that packs tags while they fit, and fills in their number. */
  method PutTags(outp: Buffer, xs: seq<Tag>, ptr: nat, z: Sizes) returns (r: Status, ptr': nat)
    requires outp.Valid() && outp.b.Length == z.maxPacket && outp.l + 2 <= z.maxPacket && Adequate(z)
    requires ptr <= |xs| < U16 && forall x | x in xs :: |x.signature| == ZT_ECC_SIGNATURE_LEN
    modifies outp, outp.b
    ensures outp.Valid() && r.Fine? && ptr <= ptr' <= |xs|
    ensures outp.Contents() == old(outp.Contents()) + Group(EncodeTag, xs[ptr..ptr'])
    ensures if ptr' == ptr then outp.l == old(outp.l) + 2 else outp.l + 17 <= z.maxPacket
    ensures ptr < |xs| && old(outp.l) + 2 + z.tag + 16 < z.maxPacket ==> ptr < ptr'
  {
    hide BigEndian, EncodeAll, EncCap, Sized, EncodeTag, EncodeCoo, CooSized, Buffer.Contents;
    var countAt, s, gap := Reserve(outp);
    ptr' := FillTags(outp, xs, ptr, z);
    r := FillCount(outp, countAt, ptr' - ptr, s, gap, EncodeAll(EncodeTag, xs[ptr..ptr']));
  }

  method FillTags(outp: Buffer, xs: seq<Tag>, ptr: nat, z: Sizes) returns (ptr': nat)
    requires outp.Valid() && outp.b.Length == z.maxPacket && Adequate(z) && ptr <= |xs|
    requires forall x | x in xs :: |x.signature| == ZT_ECC_SIGNATURE_LEN
    modifies outp, outp.b
    ensures outp.Valid() && ptr <= ptr' <= |xs|
    ensures outp.Contents() == old(outp.Contents()) + EncodeAll(EncodeTag, xs[ptr..ptr'])
    ensures outp.l >= old(outp.l) && if ptr' == ptr then outp.l == old(outp.l) else outp.l + 17 <= z.maxPacket
    ensures ptr < |xs| && old(outp.l) + z.tag + 16 < z.maxPacket ==> ptr < ptr'
  {
    hide BigEndian, EncodeAll, EncCap, Sized, EncodeTag, EncodeCoo, CooSized;
    ptr' := ptr;
    NothingEncoded(EncodeTag);
    assert xs[ptr..ptr] == [] && outp.Contents() + [] == outp.Contents();
    while ptr' < |xs| && outp.l + z.tag + 16 < z.maxPacket
      invariant outp.Valid() && ptr <= ptr' <= |xs| && outp.l >= old(outp.l)
      invariant outp.Contents() == old(outp.Contents()) + EncodeAll(EncodeTag, xs[ptr..ptr'])
      invariant if ptr' == ptr then outp.l == old(outp.l) else outp.l + 17 <= z.maxPacket
    {
      assert xs[ptr'] in xs;
      var r := PutTag(outp, xs[ptr']);
      OneMore(EncodeTag, xs, ptr, ptr');
      ptr' := ptr' + 1;
    }
  }

  /** The loop that packs certificates of ownership while they fit, and fills in their number. */
  method PutCoos(outp: Buffer, xs: seq<Coo>, ptr: nat, z: Sizes) returns (r: Status, ptr': nat)
    requires outp.Valid() && outp.b.Length == z.maxPacket && outp.l + 2 <= z.maxPacket && Adequate(z)
    requires ptr <= |xs| < U16 && forall x | x in xs :: CooSized(x)
    modifies outp, outp.b
    ensures outp.Valid() && r.Fine? && ptr <= ptr' <= |xs|
    ensures outp.Contents() == old(outp.Contents()) + Group(EncodeCoo, xs[ptr..ptr'])
    ensures if ptr' == ptr then outp.l == old(outp.l) + 2 else outp.l + 17 <= z.maxPacket
    ensures ptr < |xs| && old(outp.l) + 2 + z.coo + 16 < z.maxPacket ==> ptr < ptr'
  {
    hide BigEndian, EncodeAll, EncCap, Sized, EncodeTag, EncodeCoo, CooSized, Buffer.Contents;
    var countAt, s, gap := Reserve(outp);
    ptr' := FillCoos(outp, xs, ptr, z);
    r := FillCount(outp, countAt, ptr' - ptr, s, gap, EncodeAll(EncodeCoo, xs[ptr..ptr']));
  }

  method FillCoos(outp: Buffer, xs: seq<Coo>, ptr: nat, z: Sizes) returns (ptr': nat)
    requires outp.Valid() && outp.b.Length == z.maxPacket && Adequate(z) && ptr <= |xs|
    requires forall x | x in xs :: CooSized(x)
    modifies outp, outp.b
    ensures outp.Valid() && ptr <= ptr' <= |xs|
    ensures outp.Contents() == old(outp.Contents()) + EncodeAll(EncodeCoo, xs[ptr..ptr'])
    ensures outp.l >= old(outp.l) && if ptr' == ptr then outp.l == old(outp.l) else outp.l + 17 <= z.maxPacket
    ensures ptr < |xs| && old(outp.l) + z.coo + 16 < z.maxPacket ==> ptr < ptr'
  {
    hide BigEndian, EncodeAll, EncCap, Sized, EncodeTag, EncodeCoo, CooSized;
    ptr' := ptr;
    NothingEncoded(EncodeCoo);
    assert xs[ptr..ptr] == [] && outp.Contents() + [] == outp.Contents();
    while ptr' < |xs| && outp.l + z.coo + 16 < z.maxPacket
      invariant outp.Valid() && ptr <= ptr' <= |xs| && outp.l >= old(outp.l)
      invariant outp.Contents() == old(outp.Contents()) + EncodeAll(EncodeCoo, xs[ptr..ptr'])
      invariant if ptr' == ptr then outp.l == old(outp.l) else outp.l + 17 <= z.maxPacket
    {
      assert xs[ptr'] in xs;
      var r := PutCoo(outp, xs[ptr']);
      OneMore(EncodeCoo, xs, ptr, ptr');
      ptr' := ptr' + 1;
    }
  }

  lemma NothingEncoded<T>(enc: T -> Bytes)
    ensures EncodeAll(enc, []) == []
  {
  }

  method PutCap(outp: Buffer, c: Capability) returns (r: Status)
    requires outp.Valid() && Sized(c) && outp.l + 2137 <= outp.b.Length
    modifies outp, outp.b
    ensures outp.Valid() && r.Fine? && outp.Contents() == old(outp.Contents()) + EncCap(c)
    ensures outp.l <= old(outp.l) + 2137
  {
    hide Encode, Sized;
    FitsCap(c);
    r := Serialize(outp, c, false);
  }

  method PutTag(outp: Buffer, t: Tag) returns (r: Status)
    requires outp.Valid() && |t.signature| == ZT_ECC_SIGNATURE_LEN && outp.l + 135 <= outp.b.Length
    modifies outp, outp.b
    ensures outp.Valid() && r.Fine? && outp.Contents() == old(outp.Contents()) + EncodeTag(t)
    ensures outp.l <= old(outp.l) + 135
  {
    hide EncodeTag;
    r := SerializeTag(outp, t);
  }

  method PutCoo(outp: Buffer, c: Coo) returns (r: Status)
    requires outp.Valid() && CooSized(c) && outp.l + 413 <= outp.b.Length
    modifies outp, outp.b
    ensures outp.Valid() && r.Fine? && outp.Contents() == old(outp.Contents()) + EncodeCoo(c)
    ensures outp.l <= old(outp.l) + 413
  {
    hide EncodeCoo, CooSized;
    CooSize(c);
    r := SerializeCoo(outp, c);
  }

  lemma OneMore<T>(enc: T -> Bytes, xs: seq<T>, from: nat, to: nat)
    requires from <= to < |xs|
    ensures EncodeAll(enc, xs[from..to + 1]) == EncodeAll(enc, xs[from..to]) + enc(xs[to])
  {
    EncodeAllAppend(enc, xs[from..to], xs[to]);
    assert xs[from..to + 1] == xs[from..to] + [xs[to]];
  }

  lemma FitsCap(c: Capability)
    requires Sized(c)
    ensures |Encode(c)| <= 2137 && EncCap(c) == Encode(c)
  {
    CapabilitySize(c);
  }

  /** Where the cursors into the configuration stand. */
  datatype Cursors = Cursors(cap: nat, tag: nat, coo: nat, com: bool)

  predicate InRange(c: Config, k: Cursors) { k.cap <= |c.caps| && k.tag <= |c.tags| && k.coo <= |c.coos| }

  predicate AtEnd(c: Config, k: Cursors) { k.cap == |c.caps| && k.tag == |c.tags| && k.coo == |c.coos| && !k.com }

  function Remaining(c: Config, k: Cursors): nat
    requires InRange(c, k)
  {
    (|c.caps| - k.cap) + (|c.tags| - k.tag) + (|c.coos| - k.coo) + if k.com then 1 else 0
  }

  /** What lies between two positions of the cursors. */
  function Between(c: Config, k: Cursors, n: Cursors): Segment
    requires InRange(c, k) && InRange(c, n) && k.cap <= n.cap && k.tag <= n.tag && k.coo <= n.coo
  {
    Segment(if k.com && !n.com then [c.com] else [], c.caps[k.cap..n.cap], c.tags[k.tag..n.tag], c.coos[k.coo..n.coo])
  }

  /** The body of the packing loop: one packet, with its header. */
  method PushPacket(c: Config, z: Sizes, header: Bytes, k: Cursors) returns (packet: Bytes, n: Cursors)
    requires ConfigOk(c) && Adequate(z) && |header| == z.header && InRange(c, k) && !AtEnd(c, k)
    ensures InRange(c, n) && k.cap <= n.cap && k.tag <= n.tag && k.coo <= n.coo && !n.com
    ensures Remaining(c, n) < Remaining(c, k)
    ensures packet == header + Payload(Between(c, k, n)) && |packet| <= z.maxPacket
  {
    hide BigEndian, EncodeAll, EncCom, EncCap, EncodeTag, EncodeCoo, Group, ComSized, Sized, CooSized, Ordered;
    var outp := new Buffer(z.maxPacket);
    var r := outp.Append(header);
    ghost var coms := if k.com then [c.com] else [];
    OneCom(c.com);
    if k.com {
      r := PutCom(outp, c.com);
    }
    assert outp.Contents() == header + EncodeAll(EncCom, coms);
    ZeroByte();
    r := outp.AppendInt(0, 1);
    ghost var s0, l0 := outp.Contents(), outp.l;
    var cap, tag, coo;
    r, cap := PutCaps(outp, c.caps, k.cap, z);
    ghost var s1, l1 := outp.Contents(), outp.l;
    r, tag := PutTags(outp, c.tags, k.tag, z);
    ghost var s2 := outp.Contents();
    r := outp.AppendInt(0, 2);
    r, coo := PutCoos(outp, c.coos, k.coo, z);
    n := Cursors(cap, tag, coo, false);
    packet := outp.b[..outp.l];
    Assemble(header, EncodeAll(EncCom, coms), Group(EncCap, c.caps[k.cap..cap]), Group(EncodeTag, c.tags[k.tag..tag]),
             BigEndian(0, 2), Group(EncodeCoo, c.coos[k.coo..coo]));
  }

  lemma Assemble(h: Bytes, coms: Bytes, caps: Bytes, tags: Bytes, revs: Bytes, coos: Bytes)
    ensures h + coms + [0 as bv8] + caps + tags + revs + coos ==
      h + (coms + ([0 as bv8] + (caps + (tags + (revs + coos)))))
  {
  }

  lemma OneCom(c: Com)
    ensures EncodeAll(EncCom, [c]) == EncCom(c) && EncodeAll(EncCom, []) == []
  {
    hide EncodeCom;
    assert EncodeAll(EncCom, [c][1..]) == [];
  }

  lemma ZeroByte()
    ensures BigEndian(0, 1) == [0 as bv8]
  {
    hide NatByte, ByteVal;
    ValOfZero();
    ByteRoundTrip(0);
  }

  method PutCom(outp: Buffer, c: Com) returns (r: Status)
    requires outp.Valid() && ComSized(c) && outp.l + 296 <= outp.b.Length
    modifies outp, outp.b
    ensures outp.Valid() && r.Fine? && outp.Contents() == old(outp.Contents()) + EncCom(c)
    ensures outp.l <= old(outp.l) + 296
  {
    hide EncodeCom;
    ComSize(c);
    r := SerializeCom(outp, c);
  }

  /** Everything that the configuration asks to be sent. */
  function Whole(c: Config): Segment { Segment(if c.com.qualifiers != [] then [c.com] else [], c.caps, c.tags, c.coos) }

  lemma JoinNext(c: Config, start: Cursors, k: Cursors, n: Cursors)
    requires InRange(c, start) && InRange(c, k) && InRange(c, n)
    requires start.cap <= k.cap <= n.cap && start.tag <= k.tag <= n.tag && start.coo <= k.coo <= n.coo
    requires (k.com ==> start.com) && !n.com
    ensures Join(Between(c, start, k), Between(c, k, n)) == Between(c, start, n)
  {
    assert c.caps[start.cap..n.cap] == c.caps[start.cap..k.cap] + c.caps[k.cap..n.cap];
    assert c.tags[start.tag..n.tag] == c.tags[start.tag..k.tag] + c.tags[k.tag..n.tag];
    assert c.coos[start.coo..n.coo] == c.coos[start.coo..k.coo] + c.coos[k.coo..n.coo];
  }

  lemma JoinedAll(c: Config, start: Cursors, k: Cursors)
    requires InRange(c, k) && AtEnd(c, k) && start == Cursors(0, 0, 0, c.com.qualifiers != [])
    ensures Between(c, start, k) == Whole(c)
  {
    assert c.caps[0..|c.caps|] == c.caps && c.tags[0..|c.tags|] == c.tags && c.coos[0..|c.coos|] == c.coos;
  }

  lemma BetweenOk(c: Config, k: Cursors, n: Cursors)
    requires ConfigOk(c) && InRange(c, k) && InRange(c, n) && k.cap <= n.cap && k.tag <= n.tag && k.coo <= n.coo
    ensures SegmentOk(Between(c, k, n))
  {
    hide ComSized, Sized, CooSized, Ordered;
    var s := Between(c, k, n);
    assert forall x | x in s.caps :: x in c.caps;
    assert forall x | x in s.tags :: x in c.tags;
    assert forall x | x in s.coos :: x in c.coos;
  }

  lemma PacketParses(rev: (Bytes, nat) -> Outcome<((), nat)>, header: Bytes, s: Segment)
    requires SegmentOk(s)
    ensures Parse(rev, header + Payload(s), |header|) == Done(OnTheWire(s))
  {
    hide Payload, Parse, OnTheWire, SegmentOk;
    assert Has(header + Payload(s), |header|, Payload(s));
    PayloadRoundTrip(rev, s, header + Payload(s), |header|);
  }

  /** pushCredentials: it ends, no packet is too long, and a receiver collects from the packets, in order, the wire form
      of everything that was to be sent, each credential once. */
  method PushCredentials(c: Config, z: Sizes, headerOf: nat -> Bytes, ghost rev: (Bytes, nat) -> Outcome<((), nat)>)
      returns (packets: seq<Bytes>)
    requires ConfigOk(c) && Adequate(z) && forall i :: |headerOf(i)| == z.header
    ensures forall i | 0 <= i < |packets| :: |packets[i]| <= z.maxPacket
    ensures ParseAll(rev, z.header, packets) == Done(OnTheWire(Whole(c)))
  {
    hide Payload, SegmentOk, ConfigOk, Join, Between, Adequate, OnTheWire, ParseAll, Parse;
    var k := Cursors(0, 0, 0, c.com.qualifiers != []);
    ghost var start := k;
    packets := [];
    NothingSent(c, start, rev, z.header);
    while k.cap < |c.caps| || k.tag < |c.tags| || k.coo < |c.coos| || k.com
      invariant InRange(c, k) && (k.com ==> start.com) && forall i | 0 <= i < |packets| :: |packets[i]| <= z.maxPacket
      invariant ParseAll(rev, z.header, packets) == Done(OnTheWire(Between(c, start, k)))
      decreases Remaining(c, k)
    {
      var header := headerOf(|packets|);
      var packet, n := PushPacket(c, z, header, k);
      ghost var s := Between(c, k, n);
      BetweenOk(c, k, n);
      PacketParses(rev, header, s);
      ParseOneMore(rev, z.header, packets, packet, OnTheWire(Between(c, start, k)), OnTheWire(s));
      WireJoin(Between(c, start, k), s);
      JoinNext(c, start, k, n);
      packets := packets + [packet];
      k := n;
    }
    JoinedAll(c, start, k);
  }

  lemma NothingSent(c: Config, k: Cursors, rev: (Bytes, nat) -> Outcome<((), nat)>, header: nat)
    requires InRange(c, k)
    ensures ParseAll(rev, header, []) == Done(OnTheWire(Between(c, k, k)))
  {
    assert Between(c, k, k) == EMPTY;
    assert Map(ComCarried, []) == [] && Map(CarriedCap, []) == [];
  }

  lemma {:induction false} MapConcat<T>(f: T -> T, xs: seq<T>, ys: seq<T>)
    ensures Map(f, xs + ys) == Map(f, xs) + Map(f, ys)
  {
    if xs == [] {
      assert xs + ys == ys;
    } else {
      assert (xs + ys)[1..] == xs[1..] + ys;
      MapConcat(f, xs[1..], ys);
    }
  }

  /** The wire forms of two segments, joined, are the wire form of the joined segments. */
  lemma WireJoin(j: Segment, s: Segment)
    ensures OnTheWire(Join(j, s)) == Join(OnTheWire(j), OnTheWire(s))
  {
    hide ComCarried, CarriedCap, Map;
    MapConcat(ComCarried, j.coms, s.coms); MapConcat(CarriedCap, j.caps, s.caps);
  }

  // ---- The receiving loops ----

  /** A counting loop over things of one kind. */
  method ReadGroup<T>(dec: (Bytes, nat) -> Outcome<(T, nat)>, b: Bytes, p0: nat) returns (r: Outcome<(seq<T>, nat)>)
    ensures r == DecodeGroup(dec, b, p0)
  {
    hide Read16;
    var n :- Read16(b, p0);
    var p: nat, xs: seq<T> := p0 + 2, [];
    ThenNone(DecodeN(dec, b, p, n));
    for i := 0 to n
      invariant DecodeN(dec, b, p0 + 2, n) == Then(xs, DecodeN(dec, b, p, n - i))
    {
      var step :- dec(b, p);
      ThenNext(xs, step.0, DecodeN(dec, b, step.1, n - i - 1));
      xs, p := xs + [step.0], step.1;
    }
    assert xs + [] == xs;
    return Done((xs, p));
  }

  /** The loop over certificates of membership, up to a zero byte. */
  method ReadComs(b: Bytes, p0: nat) returns (r: Outcome<(seq<Com>, nat)>)
    ensures r == ParseComs(b, p0)
  {
    hide DecodeCom;
    var p: nat, coms: seq<Com> := p0, [];
    ThenNone(ParseComs(b, p));
    while p < |b| && b[p] != 0
      invariant ParseComs(b, p0) == Then(coms, ParseComs(b, p))
      decreases |b| - p
    {
      var step :- DecodeCom(b, p);
      ThenNext(coms, step.0, ParseComs(b, step.1));
      coms, p := coms + [step.0], step.1;
    }
    assert coms + [] == coms;
    return Done((coms, p));
  }

  /** The parsing skeleton of the credentials packet handler. */
  method ReceiveCredentials(b: Bytes, payload: nat, rev: (Bytes, nat) -> Outcome<((), nat)>)
      returns (r: Outcome<Segment>)
    ensures r == Parse(rev, b, payload)
  {
    hide ParseComs, DecodeGroup;
    var coms :- ReadComs(b, payload);
    var p := coms.1 + 1;
    if p >= |b| {
      return Done(Segment(coms.0, [], [], []));
    }
    var caps :- ReadGroup(Decode, b, p);
    if caps.1 >= |b| {
      return Done(Segment(coms.0, caps.0, [], []));
    }
    var tags :- ReadGroup(DecodeTag, b, caps.1);
    if tags.1 >= |b| {
      return Done(Segment(coms.0, caps.0, tags.0, []));
    }
    var revs :- ReadGroup(rev, b, tags.1);
    if revs.1 >= |b| {
      return Done(Segment(coms.0, caps.0, tags.0, []));
    }
    var coos :- ReadGroup(DecodeCoo, b, revs.1);
    return Done(Segment(coms.0, caps.0, tags.0, coos.0));
  }

  predicate CapFit(c: Capability) { Sized(c) && CustodyChain.Tidy(c) }
  predicate TagFit(t: Tag) { |t.signature| == ZT_ECC_SIGNATURE_LEN }
  predicate CooFit(c: Coo) { CooSized(c) <==> c.thingCount <= ZT_CERTIFICATEOFOWNERSHIP_MAX_THINGS }

  /** What was received has the sizes that verifying and serializing it rely on; a certificate of ownership exactly if
      its count of things, which the parser does not check, is at most sixteen. */
  ghost predicate FitToUse(s: Segment) {
    && (forall c | c in s.coms :: ComSized(c) && Ordered(c.qualifiers, 0))
    && (forall c | c in s.caps :: CapFit(c))
    && (forall t | t in s.tags :: TagFit(t))
    && (forall c | c in s.coos :: CooFit(c))
  }

  lemma ReceivedAreFit(rev: (Bytes, nat) -> Outcome<((), nat)>, b: Bytes, payload: nat)
    ensures Parse(rev, b, payload).Done? ==> FitToUse(Parse(rev, b, payload).value)
  {
    hide ComSized, Ordered, CapFit, TagFit, CooFit, ParseComs, DecodeGroup;
    ComsAreFit(b, payload);
    var p0 := ParseComs(b, payload);
    if p0.Done? && p0.value.1 + 1 < |b| {
      var caps := DecodeGroup(Decode, b, p0.value.1 + 1);
      CapsAreFit(b, p0.value.1 + 1);
      if caps.Done? && caps.value.1 < |b| {
        var tags := DecodeGroup(DecodeTag, b, caps.value.1);
        TagsAreFit(b, caps.value.1);
        if tags.Done? && tags.value.1 < |b| {
          var revs := DecodeGroup(rev, b, tags.value.1);
          if revs.Done? { CoosAreFit(b, revs.value.1); }
        }
      }
    }
  }

  lemma {:induction false} ComsAreFit(b: Bytes, p: nat)
    ensures ParseComs(b, p).Done? ==> forall c | c in ParseComs(b, p).value.0 :: ComSized(c) && Ordered(c.qualifiers, 0)
    decreases |b| - p
  {
    hide DecodeCom, ComSized, Ordered;
    if p < |b| && DecodeCom(b, p).Done? {
      DecodedCom(b, p);
      ComsAreFit(b, DecodeCom(b, p).value.1);
    }
  }

  /** What every reading of one thing guarantees holds of all the things of a group. */
  lemma {:induction false} AllDecoded<T(!new)>(dec: (Bytes, nat) -> Outcome<(T, nat)>, good: T -> bool, b: Bytes,
      p: nat, n: nat)
    requires forall p: nat | dec(b, p).Done? :: good(dec(b, p).value.0)
    ensures DecodeN(dec, b, p, n).Done? ==> forall x | x in DecodeN(dec, b, p, n).value.0 :: good(x)
    decreases n
  {
    if n > 0 && dec(b, p).Done? { AllDecoded(dec, good, b, dec(b, p).value.1, n - 1); }
  }

  lemma GroupDecoded<T(!new)>(dec: (Bytes, nat) -> Outcome<(T, nat)>, good: T -> bool, b: Bytes, p: nat)
    requires forall p: nat | dec(b, p).Done? :: good(dec(b, p).value.0)
    ensures DecodeGroup(dec, b, p).Done? ==> forall x | x in DecodeGroup(dec, b, p).value.0 :: good(x)
  {
    hide Read16;
    var n := Read16(b, p);
    if n.Done? { AllDecoded(dec, good, b, p + 2, n.value); }
  }

  lemma CapsAreFit(b: Bytes, p: nat)
    ensures DecodeGroup(Decode, b, p).Done? ==> forall c | c in DecodeGroup(Decode, b, p).value.0 :: CapFit(c)
  {
    hide Decode, CapFit, DecodeGroup;
    forall q: nat | Decode(b, q).Done?
      ensures CapFit(Decode(b, q).value.0)
    {
      CapIsFit(b, q);
    }
    GroupDecoded(Decode, CapFit, b, p);
  }

  lemma CapIsFit(b: Bytes, p: nat)
    requires Decode(b, p).Done?
    ensures CapFit(Decode(b, p).value.0)
  {
    hide Decode, Sized, CustodyChain.Tidy;
    CustodyChain.DecodedIsTidy(b, p);
  }

  lemma TagsAreFit(b: Bytes, p: nat)
    ensures DecodeGroup(DecodeTag, b, p).Done? ==> forall t | t in DecodeGroup(DecodeTag, b, p).value.0 :: TagFit(t)
  {
    hide DecodeTag, DecodeGroup;
    forall q: nat | DecodeTag(b, q).Done?
      ensures TagFit(DecodeTag(b, q).value.0)
    {
      DecodedTag(b, q);
    }
    GroupDecoded(DecodeTag, TagFit, b, p);
  }

  lemma CoosAreFit(b: Bytes, p: nat)
    ensures DecodeGroup(DecodeCoo, b, p).Done? ==> forall c | c in DecodeGroup(DecodeCoo, b, p).value.0 :: CooFit(c)
  {
    hide DecodeCoo, CooStored, DecodeGroup;
    forall q: nat | DecodeCoo(b, q).Done?
      ensures CooFit(DecodeCoo(b, q).value.0)
    {
      DecodedCoo(b, q);
    }
    GroupDecoded(DecodeCoo, CooFit, b, p);
  }
}
