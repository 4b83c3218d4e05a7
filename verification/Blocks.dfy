/** Bytes, 16-byte blocks and the words loaded from and stored to them. */
module Blocks {
  import opened Gf2Poly
  import opened Gf128
  import opened GfMul

  type Bytes = seq<bv8>

  /** The byte with bit i set, counted from the least significant one. */
  function Mask(i: nat): (m: bv8)
    requires i < 8
    ensures m == 1 || m == 2 || m == 4 || m == 8 || m == 16 || m == 32 || m == 64 || m == 128
  {
    match i
    case 0 => 1
    case 1 => 2
    case 2 => 4
    case 3 => 8
    case 4 => 16
    case 5 => 32
    case 6 => 64
    case _ => 128
  }

  predicate ByteBit(b: bv8, i: nat)
    requires i < 8
  {
    b & Mask(i) != 0
  }

  function If(c: bool, b: bv8): bv8 { if c then b else 0 }

  /** The byte whose bit 7 - i is set when s + i is in v. */
  function PackByte(v: Poly, s: nat): bv8 {
    If(s in v, 128) | If(s + 1 in v, 64) | If(s + 2 in v, 32) | If(s + 3 in v, 16)
    | If(s + 4 in v, 8) | If(s + 5 in v, 4) | If(s + 6 in v, 2) | If(s + 7 in v, 1)
  }

  lemma PackByteBit(v: Poly, s: nat, i: nat)
    requires i < 8
    ensures ByteBit(PackByte(v, s), 7 - i) == (s + i in v)
  {
    OrBits(s in v, s + 1 in v, s + 2 in v, s + 3 in v, s + 4 in v, s + 5 in v, s + 6 in v, s + 7 in v);
  }

  lemma OrBits(a: bool, b: bool, c: bool, d: bool, e: bool, f: bool, g: bool, h: bool)
    ensures var p := If(a, 128) | If(b, 64) | If(c, 32) | If(d, 16) | If(e, 8) | If(f, 4) | If(g, 2) | If(h, 1);
      ByteBit(p, 7) == a && ByteBit(p, 6) == b && ByteBit(p, 5) == c && ByteBit(p, 4) == d
      && ByteBit(p, 3) == e && ByteBit(p, 2) == f && ByteBit(p, 1) == g && ByteBit(p, 0) == h
  {
  }

  /** Bytes with equal bits are equal. */
  lemma ByteExtensional(a: bv8, b: bv8)
    requires forall i: nat | i < 8 :: ByteBit(a, i) == ByteBit(b, i)
    ensures a == b
  {
    assert ByteBit(a, 0) == ByteBit(b, 0) && ByteBit(a, 1) == ByteBit(b, 1) && ByteBit(a, 2) == ByteBit(b, 2)
        && ByteBit(a, 3) == ByteBit(b, 3) && ByteBit(a, 4) == ByteBit(b, 4) && ByteBit(a, 5) == ByteBit(b, 5)
        && ByteBit(a, 6) == ByteBit(b, 6) && ByteBit(a, 7) == ByteBit(b, 7);
  }

  lemma XorBit(a: bv8, b: bv8, i: nat)
    requires i < 8
    ensures ByteBit(a ^ b, i) == (ByteBit(a, i) != ByteBit(b, i))
  {
    hide Mask;
    XorMask(a, b, Mask(i));
  }

  lemma XorMask(a: bv8, b: bv8, m: bv8)
    requires m == 1 || m == 2 || m == 4 || m == 8 || m == 16 || m == 32 || m == 64 || m == 128
    ensures ((a ^ b) & m != 0) == ((a & m != 0) != (b & m != 0))
  {
  }

  // ---- Bytes as integers ----

  /** The number whose lowest bit is c and whose other bits are half. */
  function Double(c: bool, half: nat): nat { 2 * half + if c then 1 else 0 }

  function Horner(a: bool, b: bool, c: bool, d: bool, e: bool, f: bool, g: bool, h: bool): nat {
    Double(h, Double(g, Double(f, Double(e, Double(d, Double(c, Double(b, Double(a, 0))))))))
  }

  function Byte(a: bool, b: bool, c: bool, d: bool, e: bool, f: bool, g: bool, h: bool): bv8 {
    If(a, 128) | If(b, 64) | If(c, 32) | If(d, 16) | If(e, 8) | If(f, 4) | If(g, 2) | If(h, 1)
  }

  /** The value of a byte, by Horner's rule over its bits. */
  function ByteVal(b: bv8): nat {
    Horner(ByteBit(b, 7), ByteBit(b, 6), ByteBit(b, 5), ByteBit(b, 4), ByteBit(b, 3), ByteBit(b, 2), ByteBit(b, 1),
        ByteBit(b, 0))
  }

  function Half(n: nat): nat { n / 2 }

  predicate Low(n: nat) { n % 2 == 1 }

  /** The low eight bits of n. */
  function NatByte(n: nat): bv8 {
    Byte(Low(Half(Half(Half(Half(Half(Half(Half(n)))))))), Low(Half(Half(Half(Half(Half(Half(n))))))),
         Low(Half(Half(Half(Half(Half(n)))))), Low(Half(Half(Half(Half(n))))),
         Low(Half(Half(Half(n)))), Low(Half(Half(n))), Low(Half(n)), Low(n))
  }

  lemma ByteValOf(a: bool, b: bool, c: bool, d: bool, e: bool, f: bool, g: bool, h: bool)
    ensures ByteVal(Byte(a, b, c, d, e, f, g, h)) == Horner(a, b, c, d, e, f, g, h)
  {
    hide ByteBit, If, Horner;
    OrBits(a, b, c, d, e, f, g, h);
  }

  lemma Digits(n: nat)
    ensures n == Double(Low(n), Half(n))
  {
  }

  lemma DigitsOf(c: bool, half: nat)
    ensures Half(Double(c, half)) == half && Low(Double(c, half)) == c
  {
  }

  lemma EightHalves(n: nat)
    requires n < 256
    ensures Half(Half(Half(Half(Half(Half(Half(Half(n)))))))) == 0
  {
    hide *;
    HalfSmall(n, 128);
    HalfSmall(Half(n), 64);
    HalfSmall(Half(Half(n)), 32);
    HalfSmall(Half(Half(Half(n))), 16);
    HalfSmall(Half(Half(Half(Half(n)))), 8);
    HalfSmall(Half(Half(Half(Half(Half(n))))), 4);
    HalfSmall(Half(Half(Half(Half(Half(Half(n)))))), 2);
    HalfSmall(Half(Half(Half(Half(Half(Half(Half(n))))))), 1);
  }

  lemma HalfSmall(n: nat, m: nat)
    requires n < 2 * m
    ensures Half(n) < m
  {
  }

  lemma NatRoundTrip(n: nat)
    requires n < 256
    ensures ByteVal(NatByte(n)) == n
  {
    hide Low, Half, Byte, ByteVal, Double;
    var n1 := Half(n); var n2 := Half(n1); var n3 := Half(n2); var n4 := Half(n3);
    var n5 := Half(n4); var n6 := Half(n5); var n7 := Half(n6);
    Digits(n); Digits(n1); Digits(n2); Digits(n3); Digits(n4); Digits(n5); Digits(n6); Digits(n7);
    EightHalves(n);
    ByteValOf(Low(n7), Low(n6), Low(n5), Low(n4), Low(n3), Low(n2), Low(n1), Low(n));
  }

  lemma ByteOfBits(b: bv8)
    ensures Byte(ByteBit(b, 7), ByteBit(b, 6), ByteBit(b, 5), ByteBit(b, 4), ByteBit(b, 3), ByteBit(b, 2),
      ByteBit(b, 1), ByteBit(b, 0)) == b
  {
  }

  lemma ByteValSmall(b: bv8)
    ensures ByteVal(b) < 256
  {
  }

  lemma ByteRoundTrip(b: bv8)
    ensures NatByte(ByteVal(b)) == b && ByteVal(b) < 256
  {
    hide Low, Half, Double, Byte, ByteBit;
    ByteValSmall(b);
    var n7 := Double(ByteBit(b, 7), 0); var n6 := Double(ByteBit(b, 6), n7); var n5 := Double(ByteBit(b, 5), n6);
    var n4 := Double(ByteBit(b, 4), n5); var n3 := Double(ByteBit(b, 3), n4); var n2 := Double(ByteBit(b, 2), n3);
    var n1 := Double(ByteBit(b, 1), n2);
    DigitsOf(ByteBit(b, 0), n1); DigitsOf(ByteBit(b, 1), n2); DigitsOf(ByteBit(b, 2), n3); DigitsOf(ByteBit(b, 3), n4);
    DigitsOf(ByteBit(b, 4), n5); DigitsOf(ByteBit(b, 5), n6); DigitsOf(ByteBit(b, 6), n7); DigitsOf(ByteBit(b, 7), 0);
    ByteOfBits(b);
  }

  predicate AtBit(s: Bytes, e: nat) { e / 8 < |s| && ByteBit(s[e / 8], 7 - e % 8) }

  /** The bits of a byte string, most significant bit of the first byte first. */
  function Bits(s: Bytes): Poly {
    set e: nat | e < 8 * |s| && AtBit(s, e)
  }

  lemma Locate(j: nat, i: nat)
    requires i < 8
    ensures (8 * j + i) / 8 == j && (8 * j + i) % 8 == i
  {
  }

  lemma InBits(s: Bytes, j: nat, i: nat)
    requires j < |s| && i < 8
    ensures 8 * j + i in Bits(s) <==> ByteBit(s[j], 7 - i)
  {
    Locate(j, i);
  }

  /** The n bytes whose bits are the first 8n bits of v. */
  function Pack(v: Poly, n: nat): (s: Bytes)
    ensures |s| == n
  {
    seq(n, j requires 0 <= j < n => PackByte(v, 8 * j))
  }

  lemma BitsPack(v: Poly, n: nat)
    requires forall e | e in v :: e < 8 * n
    ensures Bits(Pack(v, n)) == v
  {
    forall e: nat | e < 8 * n
      ensures e in Bits(Pack(v, n)) <==> e in v
    {
      InBits(Pack(v, n), e / 8, e % 8);
      PackByteBit(v, 8 * (e / 8), e % 8);
    }
  }

  lemma SameBits(s: Bytes, t: Bytes)
    requires |s| == |t| && Bits(s) == Bits(t)
    ensures s == t
  {
    forall j | 0 <= j < |s|
      ensures s[j] == t[j]
    {
      forall i: nat | i < 8
        ensures ByteBit(s[j], i) == ByteBit(t[j], i)
      {
        InBits(s, j, 7 - i); InBits(t, j, 7 - i);
      }
      ByteExtensional(s[j], t[j]);
    }
  }

  function Xor(s: Bytes, t: Bytes): (r: Bytes)
    requires |s| == |t|
    ensures |r| == |s|
  {
    seq(|s|, j requires 0 <= j < |s| => s[j] ^ t[j])
  }

  lemma XorAt(s: Bytes, t: Bytes, j: nat, i: nat)
    requires |s| == |t| && j < |s| && i < 8
    ensures (8 * j + i in Bits(Xor(s, t))) == ((8 * j + i in Bits(s)) != (8 * j + i in Bits(t)))
  {
    hide ByteBit, Bits;
    InBits(s, j, i); InBits(t, j, i); InBits(Xor(s, t), j, i);
    XorBit(s[j], t[j], 7 - i);
  }

  lemma BitsXor(s: Bytes, t: Bytes)
    requires |s| == |t|
    ensures Bits(Xor(s, t)) == Add(Bits(s), Bits(t))
  {
    hide Add, Xor, AtBit;
    forall e: nat | e < 8 * |s|
      ensures e in Bits(Xor(s, t)) <==> e in Add(Bits(s), Bits(t))
    {
      XorAt(s, t, e / 8, e % 8);
    }
  }

  predicate IsBlock(s: Bytes) { |s| == 16 }

  lemma BitsBlock(s: Bytes)
    requires IsBlock(s)
    ensures Block(Bits(s))
  {
  }

  /** Multiplication of 16-byte blocks, section 6.3 of NIST SP 800-38D. */
  function BlockMul(y: Bytes, h: Bytes): (z: Bytes)
    requires IsBlock(y) && IsBlock(h)
    ensures IsBlock(z)
  {
    Pack(GMul(Bits(y), Bits(h)), 16)
  }

  lemma BitsBlockMul(y: Bytes, h: Bytes)
    requires IsBlock(y) && IsBlock(h)
    ensures Bits(BlockMul(y, h)) == GMul(Bits(y), Bits(h))
  {
    BitsBlock(h);
    GMulBlock(Bits(y), Bits(h));
    BitsPack(GMul(Bits(y), Bits(h)), 16);
  }

  // ---- Big-endian loads and stores ----

  predicate AtWord(s: Bytes, b: nat) { |s| == 8 && b < 64 && ByteBit(s[7 - b / 8], b % 8) }

  /** ntoh of the 64-bit word at s. */
  function Load64(s: Bytes): Poly
    requires |s| == 8
  {
    set b: nat | b < 64 && AtWord(s, b)
  }

  /** The memory image of hton(w). */
  function Store64(w: Poly): (s: Bytes)
    ensures |s| == 8
  {
    Pack(set e: nat | e < 64 && MirrorsInto(w, 63, e), 8)
  }

  lemma MirrorIndex(b: nat)
    requires b < 64
    ensures (63 - b) / 8 == 7 - b / 8 && (63 - b) % 8 == 7 - b % 8
  {
    Locate(7 - b / 8, 7 - b % 8);
  }

  lemma LoadIsWordAt(s: Bytes)
    requires IsBlock(s)
    ensures Load64(s[..8]) == WordAt(Bits(s), 0) && Load64(s[8..]) == WordAt(Bits(s), 64)
  {
    hide ByteBit;
    forall b: nat | b < 64
      ensures b in Load64(s[..8]) <==> b in WordAt(Bits(s), 0)
      ensures b in Load64(s[8..]) <==> b in WordAt(Bits(s), 64)
    {
      MirrorIndex(b);
      InBits(s, 7 - b / 8, 7 - b % 8);
      InBits(s, 15 - b / 8, 7 - b % 8);
    }
  }

  lemma InStore(w: Poly, e: nat)
    requires e < 64
    ensures ByteBit(Store64(w)[e / 8], 7 - e % 8) == (63 - e in w)
  {
    PackByteBit(set i: nat | i < 64 && MirrorsInto(w, 63, i), 8 * (e / 8), e % 8);
    hide ByteBit;
  }

  lemma StoreIsFromWords(h: Poly, l: Poly)
    ensures Bits(Store64(h) + Store64(l)) == FromWords(h, l)
  {
    hide ByteBit, Store64;
    forall e: nat | e < 128
      ensures e in Bits(Store64(h) + Store64(l)) <==> e in FromWords(h, l)
    {
      InBits(Store64(h) + Store64(l), e / 8, e % 8);
      if e < 64 {
        InStore(h, e);
      } else {
        InStore(l, e - 64);
        Locate(e / 8 - 8, e % 8);
      }
    }
  }

  /** s_gfmul: the block y, given by its memory image, times the block whose host-order words are hh and hl. */
  method SGfMul(hh: Poly, hl: Poly, y: Bytes, ghost h: Bytes) returns (z: Bytes)
    requires IsBlock(y) && IsBlock(h) && hh == Load64(h[..8]) && hl == Load64(h[8..])
    ensures z == BlockMul(y, h)
  {
    var yl, yh := Load64(y[..8]), Load64(y[8..]);
    var (zhh0, zhl0, zlh0, zll0) := Unreduced(hh, hl, yl, yh);
    var (zhh, zhl) := Reduce(zhh0, zhl0, zlh0, zll0);
    z := Store64(zhh) + Store64(zhl);
    LoadIsWordAt(y); LoadIsWordAt(h);
    BitsBlock(y); BitsBlock(h);
    WordsMultiply(Bits(h), Bits(y));
    StoreIsFromWords(zhh, zhl);
    BitsBlockMul(y, h);
    SameBits(z, BlockMul(y, h));
  }
}
