/** The type-length-value encoding of flow rules. */
module Rules {
  import opened Widths
  import opened Wrappers
  import opened Blocks
  import opened BigEndians
  import opened Buffers

  /** The part of the rule union that a rule's type selects. */
  datatype Payload =
    | Nothing
    | Priority(qosBucket: uint8)
    | Forward(address: uint64, flags: uint32, length: uint16)
    | ZtAddress(zt: uint64)
    | Short(short: uint16)
    | Octet(octet: uint8)
    | Mac(mac: Bytes)
    | Ipv4(ip: Bytes, mask: uint8)
    | Ipv6(ip: Bytes, mask: uint8)
    | Octets(first: uint8, second: uint8, third: uint8)
    | Range(low: uint16, high: uint16)
    | Characteristics(bits: uint64)
    | Random(probability: uint32)
    | TagPair(id: uint32, value: uint32)
    | IntRange(start: uint64, end: uint32, idx: uint16, format: uint8)

  datatype Rule = Rule(t: uint8, v: Payload)

  /** What is on the wire after the type and length of a rule. */
  datatype Form =
    | NoField | ForwardField | ZtField | ShortField | OctetField | MacField | Ipv4Field | Ipv6Field | OctetsField
    | RangeField | CharacteristicsField | RandomField | TagField | IntRangeField

  /** The switch over the low six bits of the type. */
  function FormOf(t: uint8): Form {
    var k := t % 64;
    if k in {2, 3, 4} then ForwardField
    else if k in {24, 25} then ZtField
    else if k in {26, 37} then ShortField
    else if k in {27, 28, 36} then OctetField
    else if k in {29, 30} then MacField
    else if k in {31, 32} then Ipv4Field
    else if k in {33, 34} then Ipv6Field
    else if k in {35, 38} then OctetsField
    else if k in {39, 40, 42} then RangeField
    else if k == 41 then CharacteristicsField
    else if k == 43 then RandomField
    else if 44 <= k <= 50 then TagField
    else if k == 51 then IntRangeField
    else NoField
  }

  /** The union holds the member that the type selects. */
  predicate Fits(form: Form, v: Payload) {
    match form
    case NoField => true
    case ForwardField => v.Forward?
    case ZtField => v.ZtAddress?
    case ShortField => v.Short?
    case OctetField => v.Octet?
    case MacField => v.Mac? && |v.mac| == 6
    case Ipv4Field => v.Ipv4? && |v.ip| == 4
    case Ipv6Field => v.Ipv6? && |v.ip| == 16
    case OctetsField => v.Octets?
    case RangeField => v.Range?
    case CharacteristicsField => v.Characteristics?
    case RandomField => v.Random?
    case TagField => v.TagPair?
    case IntRangeField => v.IntRange?
  }

  predicate WellFormed(r: Rule) { Fits(FormOf(r.t), r.v) }

  function FieldLength(form: Form): uint8 {
    match form
    case NoField => 0
    case ForwardField => 14
    case ZtField => 5
    case ShortField => 2
    case OctetField => 1
    case MacField => 6
    case Ipv4Field => 5
    case Ipv6Field => 17
    case OctetsField => 3
    case RangeField => 4
    case CharacteristicsField => 8
    case RandomField => 4
    case TagField => 8
    case IntRangeField => 19
  }

  function EncodeField(form: Form, v: Payload): (s: Bytes)
    requires Fits(form, v)
    ensures |s| == FieldLength(form)
  {
    match form
    case NoField => []
    case ForwardField => BigEndian(v.address, 8) + (BigEndian(v.flags, 4) + BigEndian(v.length, 2))
    case ZtField => BigEndian(v.zt % U40, 5)
    case ShortField => BigEndian(v.short, 2)
    case OctetField => BigEndian(v.octet, 1)
    case MacField => v.mac
    case Ipv4Field => v.ip + BigEndian(v.mask, 1)
    case Ipv6Field => v.ip + BigEndian(v.mask, 1)
    case OctetsField => BigEndian(v.first, 1) + (BigEndian(v.second, 1) + BigEndian(v.third, 1))
    case RangeField => BigEndian(v.low, 2) + BigEndian(v.high, 2)
    case CharacteristicsField => BigEndian(v.bits, 8)
    case RandomField => BigEndian(v.probability, 4)
    case TagField => BigEndian(v.id, 4) + BigEndian(v.value, 4)
    case IntRangeField =>
      BigEndian(v.start, 8)
      + (BigEndian((v.start + v.end) % U64, 8) + (BigEndian(v.idx, 2) + BigEndian(v.format, 1)))
  }

  function EncodeRule(r: Rule): Bytes
    requires WellFormed(r)
  {
    BigEndian(r.t, 1) + (BigEndian(FieldLength(FormOf(r.t)), 1) + EncodeField(FormOf(r.t), r.v))
  }

  /** What survives the wire: forty bits of an address, and no payload for types without a field. */
  function OnWire(r: Rule): Rule {
    match FormOf(r.t)
    case NoField => Rule(r.t, Nothing)
    case ZtField => if r.v.ZtAddress? then Rule(r.t, ZtAddress(r.v.zt % U40)) else r
    case _ => r
  }

  /** Which part of a rule survives the wire, by the number of its type: tee, watch and redirect are 2 to 4; addresses
      24 and 25 keep forty bits; then come the packet header matches, 41 to 43, tags 44 to 50 and integer ranges 51. The
      payload of any other type, a priority (6) among them, is lost. */
  lemma SurvivesByType(r: Rule)
    requires WellFormed(r)
    ensures var k := r.t % 64; var w := OnWire(r);
      && w.t == r.t
      && (k in {2, 3, 4} ==> w.v == r.v && r.v.Forward?)
      && (k in {24, 25} ==> r.v.ZtAddress? && w.v == ZtAddress(r.v.zt % 0x100_0000_0000))
      && (k in {26, 37} ==> w.v == r.v && r.v.Short?)
      && (k in {27, 28, 36} ==> w.v == r.v && r.v.Octet?)
      && (k in {29, 30} ==> w.v == r.v && r.v.Mac?)
      && (k in {31, 32} ==> w.v == r.v && r.v.Ipv4?)
      && (k in {33, 34} ==> w.v == r.v && r.v.Ipv6?)
      && (k in {35, 38} ==> w.v == r.v && r.v.Octets?)
      && (k in {39, 40, 42} ==> w.v == r.v && r.v.Range?)
      && (k == 41 ==> w.v == r.v && r.v.Characteristics?)
      && (k == 43 ==> w.v == r.v && r.v.Random?)
      && (44 <= k <= 50 ==> w.v == r.v && r.v.TagPair?)
      && (k == 51 ==> w.v == r.v && r.v.IntRange?)
      && (k < 2 || 4 < k < 24 || k > 51 ==> w.v == Nothing)
  {
  }

  // ---- Reading ----

  /** An integer of k bytes, which is below 256^k. */
  function ReadWord(b: Bytes, i: nat, k: nat): (r: Outcome<nat>)
    ensures r.Done? ==> r.value < Pow256(k)
  {
    Fit(b, i, k);
    ReadInt(b, i, k)
  }

  lemma Fit(b: Bytes, i: nat, k: nat)
    ensures ReadInt(b, i, k).Done? ==> ReadInt(b, i, k).value < Pow256(k)
  {
    if i + k <= |b| { Below(b[i..i + k]); }
  }

  lemma {:induction false} Below(s: Bytes)
    ensures FromBigEndian(s) < Pow256(|s|)
  {
    hide ByteVal;
    if s != [] {
      Below(s[..|s| - 1]);
      ByteValSmall(s[|s| - 1]);
    }
  }

  function Read8(b: Bytes, i: nat): Outcome<uint8> { Powers(); ReadWord(b, i, 1) }
  function Read16(b: Bytes, i: nat): Outcome<uint16> { Powers(); ReadWord(b, i, 2) }
  function Read32(b: Bytes, i: nat): Outcome<uint32> { Powers(); ReadWord(b, i, 4) }
  function Read40(b: Bytes, i: nat): Outcome<uint64> { Powers(); ReadWord(b, i, 5) }
  function Read64(b: Bytes, i: nat): Outcome<uint64> { Powers(); ReadWord(b, i, 8) }

  /** The union member that deserializeRules fills in from the bytes at p. */
  function DecodeField(form: Form, b: Bytes, p: nat): Outcome<Payload> {
    match form
    case NoField => Done(Nothing)
    case ForwardField =>
      var address :- Read64(b, p);
      var flags :- Read32(b, p + 8);
      var length :- Read16(b, p + 12);
      Done(Forward(address, flags, length))
    case ZtField =>
      var zt :- Read40(b, p);
      Done(ZtAddress(zt))
    case ShortField =>
      var w :- Read16(b, p);
      Done(Short(w))
    case OctetField =>
      var o :- Read8(b, p);
      Done(Octet(o))
    case MacField =>
      var mac :- ReadBytes(b, p, 6);
      Done(Mac(mac))
    case Ipv4Field =>
      var ip :- ReadBytes(b, p, 4);
      var mask :- Read8(b, p + 4);
      Done(Ipv4(ip, mask))
    case Ipv6Field =>
      var ip :- ReadBytes(b, p, 16);
      var mask :- Read8(b, p + 16);
      Done(Ipv6(ip, mask))
    case OctetsField =>
      var x :- Read8(b, p);
      var y :- Read8(b, p + 1);
      var z :- Read8(b, p + 2);
      Done(Octets(x, y, z))
    case RangeField =>
      var low :- Read16(b, p);
      var high :- Read16(b, p + 2);
      Done(Range(low, high))
    case CharacteristicsField =>
      var c :- Read64(b, p);
      Done(Characteristics(c))
    case RandomField =>
      var r :- Read32(b, p);
      Done(Random(r))
    case TagField =>
      var id :- Read32(b, p);
      var value :- Read32(b, p + 4);
      Done(TagPair(id, value))
    case IntRangeField =>
      var start :- Read64(b, p);
      var sum :- Read64(b, p + 8);
      var idx :- Read16(b, p + 16);
      var format :- Read8(b, p + 18);
      Done(IntRange(start, (sum - start) % U64 % U32, idx, format))
  }

  /** One turn of deserializeRules: the rule at p and where the next one starts. */
  function DecodeRule(b: Bytes, p: nat): Outcome<(Rule, nat)> {
    var t :- Read8(b, p);
    var fieldLen :- Read8(b, p + 1);
    var v :- DecodeField(FormOf(t), b, p + 2);
    Done((Rule(t, v), p + 2 + fieldLen))
  }

  // ---- Round trip of one rule ----

  lemma Read1(b: Bytes, p: nat, n: uint8)
    requires Has(b, p, BigEndian(n, 1))
    ensures Read8(b, p) == Done(n)
  {
    Powers(); ReadHas(b, p, n, 1);
  }

  lemma Read2(b: Bytes, p: nat, n: uint16)
    requires Has(b, p, BigEndian(n, 2))
    ensures Read16(b, p) == Done(n)
  {
    Powers(); ReadHas(b, p, n, 2);
  }

  lemma Read4(b: Bytes, p: nat, n: uint32)
    requires Has(b, p, BigEndian(n, 4))
    ensures Read32(b, p) == Done(n)
  {
    Powers(); ReadHas(b, p, n, 4);
  }

  lemma Read5(b: Bytes, p: nat, n: nat)
    requires n < U40 && Has(b, p, BigEndian(n, 5))
    ensures Read40(b, p) == Done(n)
  {
    Powers(); ReadHas(b, p, n, 5);
  }

  lemma Read8Bytes(b: Bytes, p: nat, n: uint64)
    requires Has(b, p, BigEndian(n, 8))
    ensures Read64(b, p) == Done(n)
  {
    Powers(); ReadHas(b, p, n, 8);
  }

  lemma RangeEnd(start: uint64, end: uint32)
    ensures ((start + end) % U64 - start) % U64 % U32 == end
  {
  }

  lemma FieldRoundTrip(form: Form, v: Payload, b: Bytes, p: nat, t: uint8)
    requires Fits(form, v) && Has(b, p, EncodeField(form, v)) && FormOf(t) == form
    ensures DecodeField(form, b, p) == Done(OnWire(Rule(t, v)).v)
  {
    hide Has, BigEndian, Read8, Read16, Read32, Read40, Read64, FormOf;
    match form
    case NoField =>
    case ForwardField =>
      var x, y, z := BigEndian(v.address, 8), BigEndian(v.flags, 4), BigEndian(v.length, 2);
      HasParts(b, p, x, y + z); HasParts(b, p + 8, y, z);
      Read8Bytes(b, p, v.address); Read4(b, p + 8, v.flags); Read2(b, p + 12, v.length);
    case ZtField => Read5(b, p, v.zt % U40);
    case ShortField => Read2(b, p, v.short);
    case OctetField => Read1(b, p, v.octet);
    case MacField => ReadHasBytes(b, p, v.mac);
    case Ipv4Field =>
      HasParts(b, p, v.ip, BigEndian(v.mask, 1));
      ReadHasBytes(b, p, v.ip); Read1(b, p + 4, v.mask);
    case Ipv6Field =>
      HasParts(b, p, v.ip, BigEndian(v.mask, 1));
      ReadHasBytes(b, p, v.ip); Read1(b, p + 16, v.mask);
    case OctetsField =>
      var x, y, z := BigEndian(v.first, 1), BigEndian(v.second, 1), BigEndian(v.third, 1);
      HasParts(b, p, x, y + z); HasParts(b, p + 1, y, z);
      Read1(b, p, v.first); Read1(b, p + 1, v.second); Read1(b, p + 2, v.third);
    case RangeField =>
      HasParts(b, p, BigEndian(v.low, 2), BigEndian(v.high, 2));
      Read2(b, p, v.low); Read2(b, p + 2, v.high);
    case CharacteristicsField => Read8Bytes(b, p, v.bits);
    case RandomField => Read4(b, p, v.probability);
    case TagField =>
      HasParts(b, p, BigEndian(v.id, 4), BigEndian(v.value, 4));
      Read4(b, p, v.id); Read4(b, p + 4, v.value);
    case IntRangeField =>
      var sum := (v.start + v.end) % U64;
      var x, y, z, w := BigEndian(v.start, 8), BigEndian(sum, 8), BigEndian(v.idx, 2), BigEndian(v.format, 1);
      HasParts(b, p, x, y + (z + w)); HasParts(b, p + 8, y, z + w); HasParts(b, p + 16, z, w);
      Read8Bytes(b, p, v.start); Read8Bytes(b, p + 8, sum); Read2(b, p + 16, v.idx); Read1(b, p + 18, v.format);
      RangeEnd(v.start, v.end);
  }

  // ---- Streams ----

  /** deserializeRules: up to n rules, ending early where the buffer ends. */
  function DecodeRules(b: Bytes, p: nat, n: nat): Outcome<(seq<Rule>, nat)>
    decreases n
  {
    if n == 0 || p >= |b| then Done(([], p))
    else
      var (r, q) :- DecodeRule(b, p);
      var (rest, end) :- DecodeRules(b, q, n - 1);
      Done(([r] + rest, end))
  }

  /** What a stream may hold: a rule of this version, or one of a type it does not know with a field of any length. */
  datatype Item = Known(rule: Rule) | Unknown(t: uint8, data: Bytes)

  predicate ItemOk(i: Item) {
    match i
    case Known(r) => WellFormed(r)
    case Unknown(t, data) => FormOf(t) == NoField && |data| < 256
  }

  predicate ItemsOk(items: seq<Item>) { forall i | i in items :: ItemOk(i) }

  function EncodeItem(i: Item): Bytes
    requires ItemOk(i)
  {
    match i
    case Known(r) => EncodeRule(r)
    case Unknown(t, data) => BigEndian(t, 1) + (BigEndian(|data|, 1) + data)
  }

  function EncodeItems(items: seq<Item>): Bytes
    requires ItemsOk(items)
  {
    if items == [] then [] else EncodeItem(items[0]) + EncodeItems(items[1..])
  }

  function Meaning(i: Item): Rule {
    match i
    case Known(r) => OnWire(r)
    case Unknown(t, _) => Rule(t, Nothing)
  }

  function Meanings(items: seq<Item>): seq<Rule> {
    if items == [] then [] else [Meaning(items[0])] + Meanings(items[1..])
  }

  lemma ItemRoundTrip(i: Item, b: Bytes, p: nat)
    requires ItemOk(i) && Has(b, p, EncodeItem(i))
    ensures DecodeRule(b, p) == Done((Meaning(i), p + |EncodeItem(i)|)) && |EncodeItem(i)| >= 2
  {
    hide Has, BigEndian, Read8, DecodeField, EncodeField, OnWire;
    match i
    case Known(r) =>
      var f := EncodeField(FormOf(r.t), r.v);
      var n := FieldLength(FormOf(r.t));
      HasParts(b, p, BigEndian(r.t, 1), BigEndian(n, 1) + f); HasParts(b, p + 1, BigEndian(n, 1), f);
      Read1(b, p, r.t); Read1(b, p + 1, n);
      FieldRoundTrip(FormOf(r.t), r.v, b, p + 2, r.t);
      WireType(r);
    case Unknown(t, data) =>
      HasParts(b, p, BigEndian(t, 1), BigEndian(|data|, 1) + data); HasParts(b, p + 1, BigEndian(|data|, 1), data);
      Read1(b, p, t); Read1(b, p + 1, |data|);
      NoFieldNothing(b, p + 2);
  }

  lemma WireType(r: Rule)
    ensures OnWire(r).t == r.t
  {
  }

  lemma NoFieldNothing(b: Bytes, p: nat)
    ensures DecodeField(NoField, b, p) == Done(Nothing)
  {
  }

  /** A stream of rules, known and unknown, reads back aligned from any offset. */
  lemma {:induction false} ItemsRoundTrip(items: seq<Item>, b: Bytes, p: nat)
    requires ItemsOk(items) && Has(b, p, EncodeItems(items))
    ensures DecodeRules(b, p, |items|) == Done((Meanings(items), p + |EncodeItems(items)|))
  {
    hide Has, EncodeItem, DecodeRule, Meaning, ItemOk;
    if items != [] {
      HasParts(b, p, EncodeItem(items[0]), EncodeItems(items[1..]));
      ItemRoundTrip(items[0], b, p);
      HasFits(b, p, EncodeItem(items[0]));
      ItemsRoundTrip(items[1..], b, p + |EncodeItem(items[0])|);
    }
  }

  lemma HasFits(b: Bytes, p: nat, s: Bytes)
    requires Has(b, p, s)
    ensures p + |s| <= |b|
  {
  }

  predicate RulesOk(rules: seq<Rule>) { forall r | r in rules :: WellFormed(r) }

  function EncodeRules(rules: seq<Rule>): (s: Bytes)
    requires RulesOk(rules)
  {
    if rules == [] then [] else EncodeRules(rules[..|rules| - 1]) + EncodeRule(rules[|rules| - 1])
  }

  function OnWireAll(rules: seq<Rule>): (w: seq<Rule>)
    ensures |w| == |rules|
  {
    seq(|rules|, i requires 0 <= i < |rules| => OnWire(rules[i]))
  }

  function AsItems(rules: seq<Rule>): seq<Item> { seq(|rules|, i requires 0 <= i < |rules| => Known(rules[i])) }

  lemma {:induction false} ItemsConcat(x: seq<Item>, y: seq<Item>)
    requires ItemsOk(x) && ItemsOk(y)
    ensures ItemsOk(x + y) && EncodeItems(x + y) == EncodeItems(x) + EncodeItems(y)
  {
    hide EncodeItem;
    if x == [] {
      assert x + y == y;
    } else {
      assert (x + y)[1..] == x[1..] + y;
      ItemsConcat(x[1..], y);
    }
  }

  lemma {:induction false} RulesAreItems(rules: seq<Rule>)
    requires RulesOk(rules)
    ensures ItemsOk(AsItems(rules)) && EncodeItems(AsItems(rules)) == EncodeRules(rules)
  {
    hide EncodeRule;
    if rules != [] {
      var init, last := rules[..|rules| - 1], rules[|rules| - 1];
      RulesAreItems(init);
      assert AsItems(rules) == AsItems(init) + [Known(last)];
      ItemsConcat(AsItems(init), [Known(last)]);
      assert EncodeItems([Known(last)]) == EncodeRule(last) + EncodeItems([]);
    }
  }

  lemma {:induction false} MeaningsOf(items: seq<Item>)
    ensures |Meanings(items)| == |items| && forall i | 0 <= i < |items| :: Meanings(items)[i] == Meaning(items[i])
  {
    if items != [] { MeaningsOf(items[1..]); }
  }

  /** Rules read back as they are on the wire, from any offset, with the exact byte count. */
  lemma RulesRoundTrip(rules: seq<Rule>, b: Bytes, p: nat)
    requires RulesOk(rules) && Has(b, p, EncodeRules(rules))
    ensures DecodeRules(b, p, |rules|) == Done((OnWireAll(rules), p + |EncodeRules(rules)|))
  {
    hide Has, EncodeItems, EncodeRules, DecodeRules, OnWire;
    RulesAreItems(rules);
    ItemsRoundTrip(AsItems(rules), b, p);
    MeaningsOf(AsItems(rules));
    assert Meanings(AsItems(rules)) == OnWireAll(rules);
  }

  lemma {:induction false} RulesSize(rules: seq<Rule>)
    requires RulesOk(rules)
    ensures 2 * |rules| <= |EncodeRules(rules)| <= 21 * |rules|
  {
    hide EncodeField, FormOf;
    if rules != [] { RulesSize(rules[..|rules| - 1]); }
  }

  /** Whatever is read, the union holds the member that the type selects. */
  lemma DecodedFits(form: Form, b: Bytes, p: nat)
    ensures DecodeField(form, b, p).Done? ==> Fits(form, DecodeField(form, b, p).value)
  {
    hide Read8, Read16, Read32, Read40, Read64;
  }

  lemma {:induction false} DecodedRules(b: Bytes, p: nat, n: nat)
    ensures var d := DecodeRules(b, p, n); d.Done? ==> |d.value.0| <= n && RulesOk(d.value.0)
    decreases n
  {
    hide DecodeField, Fits, Read8;
    if n > 0 && p < |b| && DecodeRule(b, p).Done? {
      DecodedFits(FormOf(DecodeRule(b, p).value.0.t), b, p + 2);
      DecodedRules(b, DecodeRule(b, p).value.1, n - 1);
    }
  }

  // ---- The code ----

  /** Two integers in a row. */
  method AppendPair(b: Buffer, v: nat, k: nat, w: nat, n: nat) returns (r: Status)
    requires b.Valid()
    modifies b, b.b
    ensures b.Valid() && r.Fine? == (|old(b.Contents())| + k + n <= b.b.Length)
    ensures r.Fine? ==> b.Contents() == old(b.Contents()) + (BigEndian(v, k) + BigEndian(w, n))
  {
    hide BigEndian;
    :- b.AppendInt(v, k);
    :- b.AppendInt(w, n);
    return Fine;
  }

  /** Three integers in a row. */
  method AppendTriple(b: Buffer, v: nat, k: nat, w: nat, n: nat, x: nat, m: nat) returns (r: Status)
    requires b.Valid()
    modifies b, b.b
    ensures b.Valid() && r.Fine? == (|old(b.Contents())| + k + n + m <= b.b.Length)
    ensures r.Fine? ==> b.Contents() == old(b.Contents()) + (BigEndian(v, k) + (BigEndian(w, n) + BigEndian(x, m)))
  {
    hide BigEndian;
    :- b.AppendInt(v, k);
    r := AppendPair(b, w, n, x, m);
  }

  /** An address and its mask. */
  method AppendMasked(b: Buffer, ip: Bytes, mask: uint8) returns (r: Status)
    requires b.Valid()
    modifies b, b.b
    ensures b.Valid() && r.Fine? == (|old(b.Contents())| + |ip| + 1 <= b.b.Length)
    ensures r.Fine? ==> b.Contents() == old(b.Contents()) + (ip + BigEndian(mask, 1))
  {
    hide BigEndian;
    :- b.Append(ip);
    r := b.AppendInt(mask, 1);
  }

  /** The field of one rule. */
  method SerializeField(b: Buffer, form: Form, v: Payload) returns (r: Status)
    requires b.Valid() && Fits(form, v)
    modifies b, b.b
    ensures b.Valid() && r.Fine? == (|old(b.Contents())| + FieldLength(form) <= b.b.Length)
    ensures r.Fine? ==> b.Contents() == old(b.Contents()) + EncodeField(form, v)
  {
    hide BigEndian;
    match form {
      case NoField => r := Fine;
      case ForwardField =>
        r := AppendTriple(b, v.address, 8, v.flags, 4, v.length, 2);
      case ZtField => r := b.AppendInt(v.zt % U40, 5);
      case ShortField => r := b.AppendInt(v.short, 2);
      case OctetField => r := b.AppendInt(v.octet, 1);
      case MacField => r := b.Append(v.mac);
      case Ipv4Field =>
        r := AppendMasked(b, v.ip, v.mask);
      case Ipv6Field =>
        r := AppendMasked(b, v.ip, v.mask);
      case OctetsField =>
        r := AppendTriple(b, v.first, 1, v.second, 1, v.third, 1);
      case RangeField => r := AppendPair(b, v.low, 2, v.high, 2);
      case CharacteristicsField => r := b.AppendInt(v.bits, 8);
      case RandomField => r := b.AppendInt(v.probability, 4);
      case TagField => r := AppendPair(b, v.id, 4, v.value, 4);
      case IntRangeField =>
        :- b.AppendInt(v.start, 8);
        r := AppendTriple(b, (v.start + v.end) % U64, 8, v.idx, 2, v.format, 1);
    }
  }

  method SerializeRule(b: Buffer, rule: Rule) returns (r: Status)
    requires b.Valid() && WellFormed(rule)
    modifies b, b.b
    ensures b.Valid() && r.Fine? == (|old(b.Contents())| + |EncodeRule(rule)| <= b.b.Length)
    ensures r.Fine? ==> b.Contents() == old(b.Contents()) + EncodeRule(rule)
  {
    hide BigEndian, EncodeField, FieldLength;
    :- AppendPair(b, rule.t, 1, FieldLength(FormOf(rule.t)), 1);
    r := SerializeField(b, FormOf(rule.t), rule.v);
  }

  /** serializeRules. */
  method SerializeRules(b: Buffer, rules: seq<Rule>) returns (r: Status)
    requires b.Valid() && RulesOk(rules)
    modifies b, b.b
    ensures b.Valid() && r.Fine? == (|old(b.Contents())| + |EncodeRules(rules)| <= b.b.Length)
    ensures r.Fine? ==> b.Contents() == old(b.Contents()) + EncodeRules(rules)
  {
    hide EncodeRule, EncodeRules, WellFormed;
    NoRules();
    for i := 0 to |rules|
      invariant b.Valid() && b.Contents() == old(b.Contents()) + EncodeRules(rules[..i])
    {
      RulesNext(rules, i);
      RulesLonger(rules, i + 1);
      :- SerializeRule(b, rules[i]);
    }
    assert rules[..|rules|] == rules;
    return Fine;
  }

  lemma NoRules()
    ensures EncodeRules([]) == []
  {
  }

  lemma RulesNext(rules: seq<Rule>, i: nat)
    requires RulesOk(rules) && i < |rules|
    ensures WellFormed(rules[i]) && EncodeRules(rules[..i + 1]) == EncodeRules(rules[..i]) + EncodeRule(rules[i])
  {
    assert rules[..i + 1][..i] == rules[..i];
    assert rules[i] in rules;
  }

  lemma {:induction false} RulesLonger(rules: seq<Rule>, i: nat)
    requires RulesOk(rules) && i <= |rules|
    ensures |EncodeRules(rules[..i])| <= |EncodeRules(rules)|
    decreases |rules| - i
  {
    hide EncodeRule, EncodeRules;
    if i < |rules| {
      RulesNext(rules, i);
      RulesLonger(rules, i + 1);
    } else {
      assert rules[..i] == rules;
    }
  }

  // Reading an integer of a fixed width from the buffer.

  method Take8(b: Buffer, i: nat) returns (r: Outcome<uint8>)
    requires b.Valid()
    ensures r == Read8(b.Contents(), i)
  {
    Powers(); Fit(b.Contents(), i, 1);
    r := b.At(i, 1);
  }

  method Take16(b: Buffer, i: nat) returns (r: Outcome<uint16>)
    requires b.Valid()
    ensures r == Read16(b.Contents(), i)
  {
    Powers(); Fit(b.Contents(), i, 2);
    r := b.At(i, 2);
  }

  method Take32(b: Buffer, i: nat) returns (r: Outcome<uint32>)
    requires b.Valid()
    ensures r == Read32(b.Contents(), i)
  {
    Powers(); Fit(b.Contents(), i, 4);
    r := b.At(i, 4);
  }

  method Take40(b: Buffer, i: nat) returns (r: Outcome<Address>)
    requires b.Valid()
    ensures r == Read40(b.Contents(), i)
  {
    Powers(); Fit(b.Contents(), i, 5);
    r := b.At(i, 5);
  }

  method Take64(b: Buffer, i: nat) returns (r: Outcome<uint64>)
    requires b.Valid()
    ensures r == Read64(b.Contents(), i)
  {
    Powers(); Fit(b.Contents(), i, 8);
    r := b.At(i, 8);
  }

  /** The switch over rule types in deserializeRules. */
  method DeserializeField(b: Buffer, form: Form, p: nat) returns (r: Outcome<Payload>)
    requires b.Valid()
    ensures r == DecodeField(form, b.Contents(), p)
  {
    hide Read8, Read16, Read32, Read40, Read64, ReadBytes;
    match form {
      case NoField =>
        r := Done(Nothing);
      case ForwardField =>
        var address :- Take64(b, p);
        var flags :- Take32(b, p + 8);
        var length :- Take16(b, p + 12);
        r := Done(Forward(address, flags, length));
      case ZtField =>
        var zt :- Take40(b, p);
        r := Done(ZtAddress(zt));
      case ShortField =>
        var w :- Take16(b, p);
        r := Done(Short(w));
      case OctetField =>
        var o :- Take8(b, p);
        r := Done(Octet(o));
      case MacField =>
        var mac :- b.Field(p, 6);
        r := Done(Mac(mac));
      case Ipv4Field =>
        var ip :- b.Field(p, 4);
        var mask :- Take8(b, p + 4);
        r := Done(Ipv4(ip, mask));
      case Ipv6Field =>
        var ip :- b.Field(p, 16);
        var mask :- Take8(b, p + 16);
        r := Done(Ipv6(ip, mask));
      case OctetsField =>
        var x :- Take8(b, p);
        var y :- Take8(b, p + 1);
        var z :- Take8(b, p + 2);
        r := Done(Octets(x, y, z));
      case RangeField =>
        var low :- Take16(b, p);
        var high :- Take16(b, p + 2);
        r := Done(Range(low, high));
      case CharacteristicsField =>
        var c :- Take64(b, p);
        r := Done(Characteristics(c));
      case RandomField =>
        var n :- Take32(b, p);
        r := Done(Random(n));
      case TagField =>
        var id :- Take32(b, p);
        var value :- Take32(b, p + 4);
        r := Done(TagPair(id, value));
      case IntRangeField =>
        var start :- Take64(b, p);
        var sum :- Take64(b, p + 8);
        var idx :- Take16(b, p + 16);
        var format :- Take8(b, p + 18);
        r := Done(IntRange(start, (sum - start) % U64 % U32, idx, format));
    }
  }

  method DeserializeRule(b: Buffer, p: nat) returns (r: Outcome<(Rule, nat)>)
    requires b.Valid()
    ensures r == DecodeRule(b.Contents(), p)
  {
    hide Read8, DecodeField;
    var t :- Take8(b, p);
    var fieldLen :- Take8(b, p + 1);
    var v :- DeserializeField(b, FormOf(t), p + 2);
    return Done((Rule(t, v), p + 2 + fieldLen));
  }

  /** deserializeRules. */
  method DeserializeRules(b: Buffer, p0: nat, n: nat) returns (r: Outcome<(seq<Rule>, nat)>)
    requires b.Valid()
    ensures r == DecodeRules(b.Contents(), p0, n)
  {
    hide DecodeRule;
    ghost var s := b.Contents();
    var p: nat := p0;
    var rules: seq<Rule> := [];
    ThenNone(DecodeRules(s, p, n));
    while |rules| < n && p < b.l
      invariant |rules| <= n
      invariant DecodeRules(s, p0, n) == Then(rules, DecodeRules(s, p, n - |rules|))
      decreases n - |rules|
    {
      RulesTurn(s, p, n - |rules|, rules);
      var step :- DeserializeRule(b, p);
      rules, p := rules + [step.0], step.1;
    }
    assert rules + [] == rules;
    return Done((rules, p));
  }

  lemma RulesTurn(s: Bytes, p: nat, n: nat, rules: seq<Rule>)
    requires n > 0 && p < |s|
    ensures var d := DecodeRule(s, p);
      Then(rules, DecodeRules(s, p, n)) ==
        if d.Failed? then Failed else Then(rules + [d.value.0], DecodeRules(s, d.value.1, n - 1))
  {
    hide DecodeRule;
    var d := DecodeRule(s, p);
    if d.Done? {
      var rest := DecodeRules(s, d.value.1, n - 1);
      if rest.Done? { assert rules + ([d.value.0] + rest.value.0) == rules + [d.value.0] + rest.value.0; }
    }
  }
}
