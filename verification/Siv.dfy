/** AES-GMAC-SIV: the two-pass encryptor, the one-pass decryptor, and why they fit together. */
module Siv {
  import opened Widths
  import opened Blocks
  import opened BigEndians
  import opened AesTables
  import opened AesCipher
  import opened AesKey
  import opened Gmac
  import opened Ctr

  // ---- The construction on whole messages ----

  datatype Key = Key(s: SBox, ek: seq<Word>, dk: seq<Word>)

  ghost predicate IsKey(k: Key) { IsDecryptionSchedule(k.ek, k.dk) }

  ghost function NoKey(): Key { Key(Substitution(b => b, b => b), [], []) }

  ghost function KeyOf(aes: Aes): (k: Key)
    requires aes.Valid()
    reads aes
    ensures IsKey(k)
  {
    Key(aes.s, aes.ek, aes.dk)
  }

  /** The GMAC tag of the authenticated bytes x under a 64-bit IV, shortened to 64 bits. */
  ghost function Mac(k0: Key, iv: Bytes, x: Bytes): (m: Bytes)
    requires IsKey(k0) && |iv| == 8
    ensures |m| == 8
  {
    hide TagWithLength, Xor;
    var t := TagWithLength(k0.s, k0.ek, iv + Zeros(4), x, |x| % U32);
    Xor(t[..8], t[8..])
  }

  /** The first counter block: the tag with the top bit of its last word cleared. */
  function Icb(tag: Bytes): (cb: Bytes)
    requires IsBlock(tag)
    ensures IsBlock(cb)
  {
    tag[..12] + [tag[12] & 0x7f] + tag[13..]
  }

  lemma TopCleared(b: bv8)
    ensures ByteVal(b & 0x7f) == ByteVal(b) % 128
  {
    LowBits(b);
    hide ByteBit;
    HornerLow(ByteBit(b, 7), ByteBit(b, 6), ByteBit(b, 5), ByteBit(b, 4), ByteBit(b, 3), ByteBit(b, 2), ByteBit(b, 1),
        ByteBit(b, 0));
  }

  lemma HornerLow(a: bool, b: bool, c: bool, d: bool, e: bool, f: bool, g: bool, h: bool)
    ensures Horner(false, b, c, d, e, f, g, h) == Horner(a, b, c, d, e, f, g, h) % 128
  {
  }

  lemma LowBits(b: bv8)
    ensures !ByteBit(b & 0x7f, 7)
    ensures forall i: nat | i < 7 :: ByteBit(b & 0x7f, i) == ByteBit(b, i)
  {
  }

  lemma WordOfBytes(s: Bytes)
    requires |s| == 4
    ensures FromBigEndian(s) ==
      0x100_0000 * ByteVal(s[0]) + (0x1_0000 * ByteVal(s[1]) + 0x100 * ByteVal(s[2]) + ByteVal(s[3]))
  {
    hide ByteVal;
    var x, y, z: Bytes := [s[0]], [s[0], s[1]], [s[0], s[1], s[2]];
    assert x == [] + [s[0]] && y == x + [s[1]] && z == y + [s[2]] && s == z + [s[3]];
    AppendByte([], s[0]); AppendByte(x, s[1]); AppendByte(y, s[2]); AppendByte(z, s[3]);
  }

  /** It keeps the first twelve bytes, and its last word is that of the tag without the top bit. */
  lemma IcbIs(tag: Bytes)
    requires IsBlock(tag)
    ensures Icb(tag)[..12] == tag[..12]
    ensures FromBigEndian(Icb(tag)[12..]) == FromBigEndian(tag[12..]) % 0x8000_0000
  {
    hide ByteVal, FromBigEndian;
    var t: Bytes := [tag[13], tag[14], tag[15]];
    assert tag[12..] == [tag[12]] + t && Icb(tag)[12..] == [tag[12] & 0x7f] + t;
    hide Icb;
    TopOfWord(tag[12], t);
  }

  lemma TopOfWord(b: bv8, t: Bytes)
    requires |t| == 3
    ensures FromBigEndian([b & 0x7f] + t) == FromBigEndian([b] + t) % 0x8000_0000
  {
    hide ByteVal, FromBigEndian;
    WordOfBytes([b] + t); WordOfBytes([b & 0x7f] + t);
    TopCleared(b);
    ByteValSmall(b); ByteValSmall(t[0]); ByteValSmall(t[1]); ByteValSmall(t[2]);
    TopOff(ByteVal(b), 0x1_0000 * ByteVal(t[0]) + 0x100 * ByteVal(t[1]) + ByteVal(t[2]));
  }

  lemma TopOff(a: nat, r: nat)
    requires a < 256 && r < 0x100_0000
    ensures 0x100_0000 * (a % 128) + r == (0x100_0000 * a + r) % 0x8000_0000
  {
  }

  datatype Sealed = Sealed(tag: Bytes, text: Bytes)

  ghost function SivTag(k0: Key, k1: Key, iv: Bytes, aad: Bytes, plain: Bytes): (tag: Bytes)
    requires IsKey(k0) && IsKey(k1) && |iv| == 8
    ensures IsBlock(tag)
  {
    EncryptSW(k1.s, k1.ek, iv + Mac(k0, iv, Padded(aad) + plain))
  }

  ghost function Seal(k0: Key, k1: Key, iv: Bytes, aad: Bytes, plain: Bytes): (c: Sealed)
    requires IsKey(k0) && IsKey(k1) && |iv| == 8
    ensures IsBlock(c.tag) && |c.text| == |plain|
  {
    var tag := SivTag(k0, k1, iv, aad, plain);
    Sealed(tag, Gctr(k1.s, k1.ek, Icb(tag), plain))
  }

  datatype Opened = Opened(plain: Bytes, ok: bool)

  ghost function Open(k0: Key, k1: Key, c: Sealed, aad: Bytes): (o: Opened)
    requires IsKey(k0) && IsKey(k1) && IsBlock(c.tag)
    ensures |o.plain| == |c.text|
  {
    var plain := Gctr(k1.s, k1.ek, Icb(c.tag), c.text);
    var ivMac := DecryptSW(k1.s, k1.dk, c.tag);
    Opened(plain, Mac(k0, ivMac[..8], Padded(aad) + plain) == ivMac[8..])
  }

  /** Opening what was sealed gives the plaintext back and accepts it. */
  lemma OpenUndoesSeal(k0: Key, k1: Key, iv: Bytes, aad: Bytes, plain: Bytes)
    requires IsKey(k0) && IsKey(k1) && |iv| == 8
    ensures Open(k0, k1, Seal(k0, k1, iv, aad, plain), aad) == Opened(plain, true)
  {
    hide EncryptSW, DecryptSW, Gctr, Icb, Mac;
    var ivMac := iv + Mac(k0, iv, Padded(aad) + plain);
    DecryptUndoesEncrypt(k1.s, k1.ek, k1.dk, ivMac);
    GctrInvolution(k1.s, k1.ek, Icb(SivTag(k0, k1, iv, aad, plain)), plain);
    assert ivMac[..8] == iv && ivMac[8..] == Mac(k0, iv, Padded(aad) + plain);
  }

  /** The decryptor accepts exactly the messages that sealing produces, with their plaintext. */
  lemma AcceptsExactlySealed(k0: Key, k1: Key, c: Sealed, aad: Bytes)
    requires IsKey(k0) && IsKey(k1) && IsBlock(c.tag)
    ensures Open(k0, k1, c, aad).ok <==> exists iv: Bytes, plain: Bytes | |iv| == 8 :: c == Seal(k0, k1, iv, aad, plain)
  {
    hide EncryptSW, DecryptSW, Gctr, Icb, Mac;
    var o := Open(k0, k1, c, aad);
    if o.ok {
      var ivMac := DecryptSW(k1.s, k1.dk, c.tag);
      EncryptUndoesDecrypt(k1.s, k1.ek, k1.dk, c.tag);
      GctrInvolution(k1.s, k1.ek, Icb(c.tag), c.text);
      assert ivMac == ivMac[..8] + ivMac[8..];
      assert c == Seal(k0, k1, ivMac[..8], aad, o.plain);
    }
    if iv: Bytes, plain: Bytes :| |iv| == 8 && c == Seal(k0, k1, iv, aad, plain) {
      OpenUndoesSeal(k0, k1, iv, aad, plain);
    }
  }

  // ---- The streaming objects ----

  lemma PaddedByUpdates(aad: Bytes)
    ensures Padded(aad) == if |aad| % 16 != 0 then aad + Zeros(16 - |aad| % 16) else aad
  {
  }

  class GmacSivEncryptor {
    const gmac: Gmac
    const ctr: Ctr
    var output: array<bv8>
    var tag: Bytes
    /** The keys, and what the current message was given so far. */
    ghost var k0: Key
    ghost var k1: Key
    ghost var iv: Bytes
    ghost var aad: Bytes
    ghost var plain: Bytes

    ghost predicate Keyed()
      reads this, gmac.aes, ctr.aes
    {
      && gmac.aes.Valid() && ctr.aes.Valid() && gmac.r != output
      && IsKey(k0) && k0 == KeyOf(gmac.aes) && IsKey(k1) && k1 == KeyOf(ctr.aes) && |iv| == 8
    }

    /** Between init and finish1. */
    ghost predicate FirstPass()
      reads this, gmac, gmac.r, gmac.aes, ctr.aes
    {
      && Keyed() && gmac.Valid() && tag == iv + Zeros(8)
      && gmac.iv == J0(iv + Zeros(4)) && gmac.data == Padded(aad) + plain
    }

    /** Between finish1 and finish2. */
    ghost predicate SecondPass()
      reads this, gmac.aes, ctr, ctr.aes, output
    {
      && Keyed() && IsBlock(tag) && ctr.out == output && ctr.Valid() && ctr.icb == Icb(tag)
      && tag == SivTag(k0, k1, iv, aad, plain)
    }

    constructor (k0: Aes, k1: Aes)
      ensures gmac.aes == k0 && ctr.aes == k1 && fresh(gmac) && fresh(gmac.r) && fresh(ctr) && gmac.r.Length == 16
    {
      gmac := new Gmac(k0);
      ctr := new Ctr(k1);
      output := new bv8[0];
      tag, this.k0, this.k1, iv, aad, plain := [], NoKey(), NoKey(), [], [], [];
    }

    method Init(iv: Bytes, output: array<bv8>)
      requires |iv| == 8 && gmac.aes.Valid() && ctr.aes.Valid() && gmac.r != output && gmac.r.Length == 16
      modifies this, gmac
      ensures FirstPass() && this.output == output && k0 == KeyOf(gmac.aes) && k1 == KeyOf(ctr.aes)
      ensures this.iv == iv && aad == [] && plain == []
    {
      hide EncryptSW, Hashed, KeySchedule, IsDecryptionSchedule, Aes.Valid;
      this.output := output;
      tag := iv + Zeros(8);
      gmac.Init(tag[..12]);
      k0, k1 := KeyOf(gmac.aes), KeyOf(ctr.aes);
      this.iv, aad, plain := iv, [], [];
      assert tag[..12] == iv + Zeros(4);
      PaddedByUpdates([]);
    }

    method Aad(a: Bytes)
      requires FirstPass() && aad == [] && plain == []
      modifies this, gmac, gmac.r
      ensures FirstPass() && output == old(output) && k0 == old(k0) && k1 == old(k1) && iv == old(iv) && aad == a
      ensures plain == []
    {
      hide EncryptSW, Hashed, KeySchedule, IsDecryptionSchedule, Aes.Valid;
      PaddedByUpdates([]); PaddedByUpdates(a);
      gmac.Update(a);
      var len := |a| % 16;
      if len != 0 {
        gmac.Update(Zeros(16 - len));
      }
      aad := a;
    }

    method Update1(input: Bytes)
      requires FirstPass()
      modifies this, gmac, gmac.r
      ensures FirstPass() && output == old(output) && k0 == old(k0) && k1 == old(k1) && iv == old(iv) && aad == old(aad)
      ensures plain == old(plain) + input
    {
      hide EncryptSW, Hashed, KeySchedule, IsDecryptionSchedule, Aes.Valid, Padded;
      gmac.Update(input);
      assert Padded(aad) + (plain + input) == Padded(aad) + plain + input;
      plain := plain + input;
    }

    method Finish1()
      requires FirstPass()
      modifies this, gmac, gmac.r, ctr
      ensures SecondPass() && output == old(output) && k0 == old(k0) && k1 == old(k1) && iv == old(iv)
      ensures aad == old(aad) && plain == old(plain) && ctr.data == []
      ensures ctr.icb[..12] == tag[..12] && FromBigEndian(ctr.icb[12..]) == FromBigEndian(tag[12..]) % 0x8000_0000
    {
      hide EncryptSW, Hashed, KeySchedule, IsDecryptionSchedule, Aes.Valid, Padded, Xor, Ctr.Valid, TagWithLength, Icb,
          Gmac.Streaming, Gmac.Ready, FromBigEndian;
      var tmp := gmac.Finish();
      assert tag[..8] == iv && J0(iv + Zeros(4))[..12] == iv + Zeros(4);
      tag := ctr.aes.Encrypt(tag[..8] + Xor(tmp[..8], tmp[8..]));
      IcbIs(tag);
      ctr.Init(Icb(tag), output);
    }

    method Update2(input: array<bv8>, off: nat, n: nat)
      requires SecondPass() && off + n <= input.Length && ctr.len + n <= output.Length && ctr.len + n < U32
      requires input == output ==> off == ctr.len
      modifies ctr, output
      ensures SecondPass() && ctr.len == old(ctr.len) + n && ctr.data == old(ctr.data) + old(input[off..off + n])
      ensures SameFrom(output[..], old(output[..]), ctr.len)
    {
      hide EncryptSW, Hashed, KeySchedule, IsDecryptionSchedule, Aes.Valid, Padded, Xor, Gctr, SivTag, Icb,
          Ctr.Streaming;
      ctr.Crypt(input, off, n);
    }

    method Finish2() returns (t: Bytes)
      requires SecondPass()
      modifies output
      ensures t == SivTag(k0, k1, iv, aad, plain)
      ensures ctr.len <= output.Length && output[ctr.len..] == old(output[ctr.len..])
      ensures ctr.data == plain ==> Sealed(t, output[..ctr.len]) == Seal(k0, k1, iv, aad, plain)
    {
      hide EncryptSW, Hashed, KeySchedule, IsDecryptionSchedule, Aes.Valid, Padded, Xor, Gctr, SivTag, Icb,
          Ctr.Streaming;
      ctr.Finish();
      t := tag;
    }
  }

  class GmacSivDecryptor {
    const ctr: Ctr
    const gmac: Gmac
    var output: array<bv8>
    var ivMac: Bytes
    var decryptedLen: nat
    ghost var k0: Key
    ghost var k1: Key
    ghost var tag: Bytes
    ghost var aad: Bytes

    ghost predicate Valid()
      reads this, gmac, gmac.r, gmac.aes, ctr, ctr.aes, output
    {
      && gmac.aes.Valid() && ctr.aes.Valid() && gmac.r != output
      && IsKey(k0) && k0 == KeyOf(gmac.aes) && IsKey(k1) && k1 == KeyOf(ctr.aes)
      && IsBlock(tag) && ivMac == DecryptSW(k1.s, k1.dk, tag)
      && gmac.Valid() && gmac.iv == J0(ivMac[..8] + Zeros(4)) && gmac.data == Padded(aad)
      && ctr.out == output && ctr.Valid() && ctr.icb == Icb(tag) && decryptedLen == ctr.len
    }

    constructor (k0: Aes, k1: Aes)
      ensures gmac.aes == k0 && ctr.aes == k1 && fresh(gmac) && fresh(gmac.r) && fresh(ctr) && gmac.r.Length == 16
    {
      ctr := new Ctr(k1);
      gmac := new Gmac(k0);
      output := new bv8[0];
      ivMac, decryptedLen, this.k0, this.k1, tag, aad := [], 0, NoKey(), NoKey(), [], [];
    }

    method Init(tag: Bytes, output: array<bv8>)
      requires IsBlock(tag) && gmac.aes.Valid() && ctr.aes.Valid() && gmac.r != output && gmac.r.Length == 16
      modifies this, gmac, ctr
      ensures Valid() && this.output == output && k0 == KeyOf(gmac.aes) && k1 == KeyOf(ctr.aes)
      ensures this.tag == tag && aad == [] && ctr.data == []
      ensures ctr.icb[..12] == tag[..12] && FromBigEndian(ctr.icb[12..]) == FromBigEndian(tag[12..]) % 0x8000_0000
    {
      hide EncryptSW, DecryptSW, Hashed, Crypted, KeySchedule, IsDecryptionSchedule, Aes.Valid, Padded, Icb, Ctr.Valid,
          Gmac.Valid, FromBigEndian, J0;
      IcbIs(tag);
      ctr.Init(Icb(tag), output);
      ivMac := ctr.aes.Decrypt(tag);
      gmac.Init(ivMac[..8] + Zeros(4));
      this.output, decryptedLen := output, 0;
      k0, k1 := KeyOf(gmac.aes), KeyOf(ctr.aes);
      this.tag, aad := tag, [];
      PaddedByUpdates([]);
    }

    method Aad(a: Bytes)
      requires Valid() && aad == []
      modifies this, gmac, gmac.r
      ensures Valid() && output == old(output) && k0 == old(k0) && k1 == old(k1) && tag == old(tag) && aad == a
      ensures ctr.data == old(ctr.data)
    {
      hide EncryptSW, DecryptSW, Hashed, Crypted, KeySchedule, IsDecryptionSchedule, Aes.Valid, Icb, Ctr.Valid, J0,
          FromBigEndian, Gmac.Streaming;
      PaddedByUpdates([]); PaddedByUpdates(a);
      gmac.Update(a);
      var len := |a| % 16;
      if len != 0 {
        gmac.Update(Zeros(16 - len));
      }
      aad := a;
    }

    method Update(input: array<bv8>, off: nat, n: nat)
      requires Valid() && off + n <= input.Length && ctr.len + n <= output.Length && ctr.len + n < U32
      requires input != gmac.r && (input == output ==> off == ctr.len)
      modifies this, ctr, output
      ensures Valid() && output == old(output) && k0 == old(k0) && k1 == old(k1) && tag == old(tag) && aad == old(aad)
      ensures ctr.len == old(ctr.len) + n && ctr.data == old(ctr.data) + old(input[off..off + n])
      ensures SameFrom(output[..], old(output[..]), ctr.len)
    {
      hide EncryptSW, DecryptSW, Hashed, Crypted, KeySchedule, IsDecryptionSchedule, Aes.Valid, Padded;
      ctr.Crypt(input, off, n);
      decryptedLen := (decryptedLen + n) % U32;
    }

    /** The verdict and the plaintext are those of opening the whole message. */
    method Finish() returns (ok: bool)
      requires Valid()
      modifies output, gmac, gmac.r
      ensures decryptedLen <= output.Length && output[decryptedLen..] == old(output[decryptedLen..])
      ensures Opened(output[..decryptedLen], ok) == Open(k0, k1, Sealed(tag, old(ctr.data)), aad)
    {
      hide EncryptSW, DecryptSW, Hashed, Crypted, KeySchedule, IsDecryptionSchedule, Aes.Valid, Padded, Xor, Gctr, Icb,
          TagWithLength, Ctr.Streaming;
      ctr.Finish();
      gmac.Update(output[..decryptedLen]);
      assert J0(ivMac[..8] + Zeros(4))[..12] == ivMac[..8] + Zeros(4);
      var gmacTag := gmac.Finish();
      ok := Xor(gmacTag[..8], gmacTag[8..]) == ivMac[8..];
    }
  }

  // ---- Every chunking of a whole exchange ----

  /** The first pass over x, cut into pieces of the given sizes and a last one with the rest. */
  method FeedFirst(e: GmacSivEncryptor, x: Bytes, cuts: seq<nat>)
    requires e.FirstPass() && e.plain == []
    modifies e, e.gmac, e.gmac.r
    ensures e.FirstPass() && e.output == old(e.output) && e.k0 == old(e.k0) && e.k1 == old(e.k1) && e.iv == old(e.iv)
    ensures e.aad == old(e.aad) && e.plain == x
  {
    hide GmacSivEncryptor.FirstPass;
    var at := 0;
    for i := 0 to |cuts|
      invariant at <= |x| && e.FirstPass() && e.output == old(e.output) && e.k0 == old(e.k0) && e.k1 == old(e.k1)
      invariant e.iv == old(e.iv) && e.aad == old(e.aad) && e.plain == x[..at]
    {
      var n := if cuts[i] < |x| - at then cuts[i] else |x| - at;
      e.Update1(x[at..at + n]);
      at := at + n;
      assert x[..at] == x[..at - n] + x[at - n..at];
    }
    e.Update1(x[at..]);
    assert x[..at] + x[at..] == x;
  }

  /** The second pass over x, cut in any way. */
  method FeedSecond(e: GmacSivEncryptor, x: array<bv8>, cuts: seq<nat>)
    requires e.SecondPass() && e.ctr.data == [] && e.ctr.len == 0 && x != e.output && x.Length <= e.output.Length
    requires x.Length < U32
    modifies e.ctr, e.output
    ensures e.SecondPass() && e.ctr.data == x[..] && e.ctr.len == x.Length && x[..] == old(x[..])
  {
    hide Crypted, SivTag, Icb, KeyOf, Aes.Valid, SameFrom;
    var at := 0;
    for i := 0 to |cuts|
      invariant at <= x.Length && e.SecondPass() && e.ctr.len == at && e.ctr.data == x[..at] && x[..] == old(x[..])
    {
      var n := if cuts[i] < x.Length - at then cuts[i] else x.Length - at;
      e.Update2(x, at, n);
      at := at + n;
      assert x[..at] == x[..at - n] + x[at - n..at];
    }
    e.Update2(x, at, x.Length - at);
    assert x[..at] + x[at..x.Length] == x[..];
  }

  /** Decrypts the first n bytes of the output buffer where they lie, cut in any way. */
  method FeedInPlace(d: GmacSivDecryptor, n: nat, cuts: seq<nat>)
    requires d.Valid() && d.ctr.data == [] && d.ctr.len == 0 && n <= d.output.Length && n < U32
    modifies d, d.ctr, d.output
    ensures d.Valid() && d.output == old(d.output) && d.k0 == old(d.k0) && d.k1 == old(d.k1) && d.tag == old(d.tag)
    ensures d.aad == old(d.aad) && d.ctr.len == n && d.ctr.data == old(d.output[..n])
  {
    hide GmacSivDecryptor.Valid, SameFrom;
    ghost var text := d.output[..];
    var at := 0;
    SameFromStart(text, 0);
    for i := 0 to |cuts|
      invariant at <= n && d.Valid() && d.output == old(d.output) && d.k0 == old(d.k0) && d.k1 == old(d.k1)
      invariant d.tag == old(d.tag)
      invariant d.aad == old(d.aad) && d.ctr.len == at && d.ctr.data == text[..at] && SameFrom(d.output[..], text, at)
    {
      var k := if cuts[i] < n - at then cuts[i] else n - at;
      FeedPiece(d, at, k, text);
      at := at + k;
    }
    FeedPiece(d, at, n - at, text);
  }

  method FeedPiece(d: GmacSivDecryptor, at: nat, k: nat, ghost text: Bytes)
    requires d.Valid() && d.ctr.len == at && at + k <= d.output.Length == |text| && at + k < U32
    requires d.ctr.data == text[..at] && SameFrom(d.output[..], text, at)
    modifies d, d.ctr, d.output
    ensures d.Valid() && d.output == old(d.output) && d.k0 == old(d.k0) && d.k1 == old(d.k1) && d.tag == old(d.tag)
    ensures d.aad == old(d.aad) && d.ctr.len == at + k && d.ctr.data == text[..at + k]
    ensures SameFrom(d.output[..], text, at + k)
  {
    hide GmacSivDecryptor.Valid;
    ghost var middle := d.output[..];
    Middle(middle, text, at, k);
    assert d.output[at..at + k] == middle[at..at + k];
    hide SameFrom;
    NotTheTail(d);
    d.Update(d.output, at, k);
    SameFromStep(d.output[..], middle, text, at, at + k);
  }

  lemma NotTheTail(d: GmacSivDecryptor)
    requires d.Valid()
    ensures d.gmac.r != d.output
  {
    hide Hashed, Crypted, Icb, KeyOf, Aes.Valid, DecryptSW, Ctr.Valid, Gmac.Valid, Padded;
  }

  lemma Middle(middle: Bytes, text: Bytes, at: nat, k: nat)
    requires SameFrom(middle, text, at) && at + k <= |text|
    ensures text[..at + k] == text[..at] + middle[at..at + k]
  {
    assert middle[at..at + k] == middle[at..][..k] == text[at..][..k] == text[at..at + k];
  }

  /** The encryptor on a whole message. */
  method SealAll(k0: Aes, k1: Aes, ghost key0: Key, ghost key1: Key, iv: Bytes, aad: Bytes, plain: array<bv8>,
      text: array<bv8>, cuts1: seq<nat>, cuts2: seq<nat>) returns (tag: Bytes)
    requires IsKey(key0) && IsKey(key1) && |iv| == 8 && plain != text && plain.Length == text.Length < U32
    requires k0.Valid() && k1.Valid() && key0 == KeyOf(k0) && key1 == KeyOf(k1)
    modifies text
    ensures Sealed(tag, text[..]) == Seal(key0, key1, iv, aad, plain[..])
  {
    hide GmacSivEncryptor.FirstPass, GmacSivEncryptor.SecondPass, SivTag, Seal, KeyOf, Aes.Valid, IsDecryptionSchedule;
    var e := new GmacSivEncryptor(k0, k1);
    e.Init(iv, text);
    e.Aad(aad);
    FeedFirst(e, plain[..], cuts1);
    e.Finish1();
    EmptyStream(e);
    FeedSecond(e, plain, cuts2);
    tag := e.Finish2();
    assert text[..plain.Length] == text[..];
  }

  lemma EmptyStream(e: GmacSivEncryptor)
    requires e.SecondPass()
    ensures |e.ctr.data| == e.ctr.len
  {
    hide Crypted, KeyOf, Aes.Valid, SivTag, Icb;
  }

  /** The decryptor on a whole message, in place. */
  method OpenAll(k0: Aes, k1: Aes, tag: Bytes, aad: Bytes, text: array<bv8>, cuts: seq<nat>) returns (ok: bool)
    requires k0.Valid() && k1.Valid() && IsBlock(tag) && text.Length < U32
    modifies text
    ensures Opened(text[..], ok) == Open(KeyOf(k0), KeyOf(k1), Sealed(tag, old(text[..])), aad)
  {
    hide GmacSivDecryptor.Valid, Open, KeyOf, Aes.Valid, IsDecryptionSchedule;
    var d := new GmacSivDecryptor(k0, k1);
    d.Init(tag, text);
    SameLength(d);
    d.Aad(aad);
    SameLength(d);
    assert text[..text.Length] == old(text[..]);
    FeedInPlace(d, text.Length, cuts);
    SameLength(d);
    ok := d.Finish();
    assert text[..text.Length] == text[..];
  }

  lemma SameLength(d: GmacSivDecryptor)
    requires d.Valid()
    ensures d.ctr.len == d.decryptedLen == |d.ctr.data| <= d.output.Length
  {
    hide Crypted, KeyOf, Aes.Valid, Icb, Hashed, Padded, DecryptSW;
  }

  /** A message sealed by the encryptor and decrypted in place by the decryptor comes back, however it is cut each
      time. */
  method Exchange(k0: Aes, k1: Aes, iv: Bytes, aad: Bytes, plain: array<bv8>, cuts1: seq<nat>, cuts2: seq<nat>,
      cuts3: seq<nat>) returns (text: array<bv8>, ok: bool)
    requires k0.Valid() && k1.Valid() && |iv| == 8 && plain.Length < U32
    ensures ok && text[..] == plain[..]
  {
    hide Open, Seal, KeyOf, Aes.Valid, IsDecryptionSchedule;
    text := new bv8[plain.Length];
    var tag := SealAll(k0, k1, KeyOf(k0), KeyOf(k1), iv, aad, plain, text, cuts1, cuts2);
    ok := OpenAll(k0, k1, tag, aad, text, cuts3);
    OpenUndoesSeal(KeyOf(k0), KeyOf(k1), iv, aad, plain[..]);
  }
}
