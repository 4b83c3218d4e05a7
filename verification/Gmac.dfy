/** Streaming GMAC, which must give the tag of the concatenated data however the data is cut into updates. */
module Gmac {
  import opened Widths
  import opened Blocks
  import opened Gf2Poly
  import opened Gf128
  import opened BigEndians
  import opened AesTables
  import opened AesCipher
  import opened AesKey

  /** GHASH over the complete blocks of x, from y: section 6.4 of NIST SP 800-38D. */
  function Ghash(h: Bytes, y: Bytes, x: Bytes): (z: Bytes)
    requires IsBlock(h) && IsBlock(y)
    ensures IsBlock(z)
    decreases |x|
  {
    if |x| < 16 then y else Ghash(h, BlockMul(Xor(y, x[..16]), h), x[16..])
  }

  lemma {:induction false} GhashAppend(h: Bytes, y: Bytes, x: Bytes, n: nat, b: Bytes)
    requires IsBlock(h) && IsBlock(y) && IsBlock(b) && |x| == 16 * n
    ensures Ghash(h, y, x + b) == BlockMul(Xor(Ghash(h, y, x), b), h)
    decreases n
  {
    hide BlockMul, Xor;
    if n == 0 {
      assert x + b == b;
      assert b[..16] == b && b[16..] == [];
    } else {
      assert (x + b)[..16] == x[..16] && (x + b)[16..] == x[16..] + b;
      GhashAppend(h, BlockMul(Xor(y, x[..16]), h), x[16..], n - 1, b);
    }
  }

  function Zeros(n: nat): (s: Bytes) ensures |s| == n { seq(n, i => 0) }

  /** a followed by the least number of zero bytes that fills its last block. */
  function Padded(a: Bytes): Bytes { a + Zeros((16 - |a| % 16) % 16) }

  /** The block J0 of a 96-bit initialization vector. */
  function J0(iv: Bytes): (j: Bytes)
    requires |iv| == 12
    ensures IsBlock(j)
  {
    iv + [0, 0, 0, 1]
  }

  /** GMAC with a length field of n bytes: section 7.1 of NIST SP 800-38D with an empty plaintext when n = |a|. */
  function TagWithLength(s: SBox, ek: seq<Word>, iv: Bytes, a: Bytes, n: nat): (tag: Bytes)
    requires |ek| == 60 && |iv| == 12
    ensures IsBlock(tag)
  {
    var h := EncryptSW(s, ek, Zero16());
    Xor(EncryptSW(s, ek, J0(iv)), Ghash(h, Zero16(), Padded(a) + (BigEndian(8 * n, 8) + BigEndian(0, 8))))
  }

  function GmacTag(s: SBox, ek: seq<Word>, iv: Bytes, a: Bytes): (tag: Bytes)
    requires |ek| == 60 && |iv| == 12
    ensures IsBlock(tag)
  {
    TagWithLength(s, ek, iv, a, |a|)
  }

  // ---- What the starting hash does ----

  lemma NothingTimes(y: Bytes, h: Bytes)
    requires IsBlock(y) && IsBlock(h) && Bits(y) == {}
    ensures BlockMul(y, h) == y
  {
    hide GMul, Bits;
    BitsBlockMul(y, h);
    GMulNothing(Bits(h));
    SameBits(BlockMul(y, h), y);
  }

  lemma XorNothing(x: Bytes, z: Bytes)
    requires |x| == |z| && Bits(z) == {}
    ensures Xor(x, z) == x
  {
    hide Bits, Xor;
    BitsXor(x, z);
    assert Add(Bits(x), {}) == Bits(x);
    SameBits(Xor(x, z), x);
  }

  /** Without data the tag is the encrypted counter block alone: what is hashed, two lengths of zero, has no bit. */
  lemma TagOfNothing(s: SBox, ek: seq<Word>, iv: Bytes)
    requires |ek| == 60 && |iv| == 12
    ensures GmacTag(s, ek, iv, []) == EncryptSW(s, ek, J0(iv))
  {
    hide EncryptSW, BlockMul, Bits, BigEndian, J0;
    var h, z := EncryptSW(s, ek, Zero16()), Zero16();
    BigEndianZero(8);
    assert Padded([]) + (BigEndian(8 * 0, 8) + BigEndian(0, 8)) == z;
    NoBits();
    XorNothing(z, z);
    NothingTimes(z, h);
    assert z[..16] == z && Ghash(h, BlockMul(Xor(z, z), h), z[16..]) == BlockMul(Xor(z, z), h);
    XorNothing(EncryptSW(s, ek, J0(iv)), z);
  }

  lemma BlockMulXor(x: Bytes, y: Bytes, h: Bytes)
    requires IsBlock(x) && IsBlock(y) && IsBlock(h)
    ensures BlockMul(Xor(x, y), h) == Xor(BlockMul(x, h), BlockMul(y, h))
  {
    hide GMul, Bits, Xor, BlockMul;
    BitsXor(x, y); BitsXor(BlockMul(x, h), BlockMul(y, h));
    BitsBlockMul(x, h); BitsBlockMul(y, h); BitsBlockMul(Xor(x, y), h);
    GMulAddLeft(Bits(x), Bits(y), Bits(h));
    SameBits(BlockMul(Xor(x, y), h), Xor(BlockMul(x, h), BlockMul(y, h)));
  }

  lemma XorSwap(a: Bytes, b: Bytes, c: Bytes, d: Bytes)
    requires |a| == |b| == |c| == |d|
    ensures Xor(Xor(a, b), Xor(c, d)) == Xor(Xor(a, c), Xor(b, d))
  {
    forall j | 0 <= j < |a|
      ensures (a[j] ^ b[j]) ^ (c[j] ^ d[j]) == (a[j] ^ c[j]) ^ (b[j] ^ d[j])
    {
      ByteSwap(a[j], b[j], c[j], d[j]);
    }
  }

  lemma ByteSwap(a: bv8, b: bv8, c: bv8, d: bv8)
    ensures (a ^ b) ^ (c ^ d) == (a ^ c) ^ (b ^ d)
  {
  }

  lemma {:induction false} GhashXor(h: Bytes, a: Bytes, b: Bytes, x: Bytes, y: Bytes)
    requires IsBlock(h) && IsBlock(a) && IsBlock(b) && |x| == |y|
    ensures Ghash(h, Xor(a, b), Xor(x, y)) == Xor(Ghash(h, a, x), Ghash(h, b, y))
    decreases |x|
  {
    hide BlockMul;
    if |x| >= 16 {
      assert Xor(x, y)[..16] == Xor(x[..16], y[..16]) && Xor(x, y)[16..] == Xor(x[16..], y[16..]);
      hide Xor;
      XorSwap(a, b, x[..16], y[..16]);
      BlockMulXor(Xor(a, x[..16]), Xor(b, y[..16]), h);
      GhashXor(h, BlockMul(Xor(a, x[..16]), h), BlockMul(Xor(b, y[..16]), h), x[16..], y[16..]);
    }
  }

  /** From a block without a bit GHASH is linear: sums of equally long data hash to sums. */
  lemma GhashLinear(h: Bytes, z: Bytes, x: Bytes, y: Bytes)
    requires IsBlock(h) && IsBlock(z) && Bits(z) == {} && |x| == |y|
    ensures Ghash(h, z, Xor(x, y)) == Xor(Ghash(h, z, x), Ghash(h, z, y))
  {
    hide Ghash, Xor, Bits;
    XorNothing(z, z);
    GhashXor(h, z, z, x, y);
  }

  /** And the tag starts from such a block. */
  lemma TagFromNothing(s: SBox, ek: seq<Word>, iv: Bytes, a: Bytes, n: nat, z: Bytes)
    requires |ek| == 60 && |iv| == 12 && IsBlock(z) && Bits(z) == {}
    ensures TagWithLength(s, ek, iv, a, n) ==
      Xor(EncryptSW(s, ek, iv + [0, 0, 0, 1]),
          Ghash(EncryptSW(s, ek, z), z, Padded(a) + (BigEndian(8 * n, 8) + BigEndian(0, 8))))
  {
    OneWithoutBits();
    hide EncryptSW, Ghash, Xor, Bits, BigEndian;
  }

  // ---- What the state of a stream stands for ----

  /** y is the hash of the first blocks of the data, and tail is the rest of the data. */
  ghost predicate Hashed(h: Bytes, data: Bytes, blocks: nat, y: Bytes, tail: Bytes) {
    && IsBlock(h) && |data| == 16 * blocks + |tail|
    && y == Ghash(h, Zero16(), data[..16 * blocks])
    && tail == data[16 * blocks..]
  }

  lemma HashedNothing(h: Bytes)
    requires IsBlock(h)
    ensures Hashed(h, [], 0, Zero16(), [])
  {
  }

  lemma HashedSize(h: Bytes, data: Bytes, blocks: nat, y: Bytes, tail: Bytes)
    requires Hashed(h, data, blocks, y, tail)
    ensures |data| == 16 * blocks + |tail|
  {
  }

  lemma HashedMore(h: Bytes, data: Bytes, blocks: nat, y: Bytes, tail: Bytes, more: Bytes)
    requires Hashed(h, data, blocks, y, tail)
    ensures Hashed(h, data + more, blocks, y, tail + more)
  {
    hide Ghash;
    assert (data + more)[..16 * blocks] == data[..16 * blocks];
    assert (data + more)[16 * blocks..] == data[16 * blocks..] + more;
  }

  lemma HashedBlock(h: Bytes, data: Bytes, blocks: nat, y: Bytes, tail: Bytes)
    requires Hashed(h, data, blocks, y, tail) && IsBlock(tail)
    ensures IsBlock(y) && Hashed(h, data, blocks + 1, BlockMul(Xor(y, tail), h), [])
  {
    hide Ghash, BlockMul, Xor;
    GhashAppend(h, Zero16(), data[..16 * blocks], blocks, tail);
    assert data[..16 * blocks] + tail == data && data[..16 * (blocks + 1)] == data;
  }

  class Gmac {
    const aes: Aes
    const r: array<bv8>
    var rp: nat
    var len: nat
    var iv: Bytes
    var y: Bytes
    /** Everything absorbed since init, and the number of its blocks already hashed. */
    ghost var data: Bytes
    ghost var blocks: nat

    ghost predicate Ready()
      reads this, aes
    {
      aes.Valid() && r.Length == 16 && |iv| == 16 && iv[12..] == [0, 0, 0, 1] && IsBlock(y)
    }

    ghost predicate Valid()
      reads this, r, aes
    {
      Ready() && rp < 16 && len == |data| % U32 && Hashed(HashKey(), data, blocks, y, r[..rp])
    }

    ghost function HashKey(): (h: Bytes)
      requires aes.Valid()
      reads aes
      ensures IsBlock(h)
    {
      EncryptSW(aes.s, aes.ek, Zero16())
    }

    constructor (aes: Aes)
      ensures this.aes == aes && fresh(r) && r.Length == 16
    {
      this.aes := aes;
      r := new bv8[16](i => 0);
      rp, len, iv, y, data, blocks := 0, 0, [], [], [], 0;
    }

    method Init(iv: Bytes)
      requires |iv| == 12 && aes.Valid() && r.Length == 16
      modifies this
      ensures Valid() && data == [] && this.iv == J0(iv) && Bits(y) == {}
    {
      hide Hashed, EncryptSW, Aes.Valid;
      rp, len := 0, 0;
      this.iv := iv + [0, 0, 0, 1];
      y := Zero16();
      data, blocks := [], 0;
      HashedNothing(HashKey());
      NoBits();
      assert r[..0] == [];
    }

    ghost predicate Streaming(tail: Bytes)
      reads this, aes
    {
      Ready() && Hashed(HashKey(), data, blocks, y, tail)
    }

    /** One call of s_gfmul with the words of the hash key. */
    method MulH(x: Bytes) returns (z: Bytes)
      requires aes.Valid() && IsBlock(x)
      ensures z == BlockMul(x, HashKey())
    {
      hide EncryptSW, BlockMul, Load64;
      z := SGfMul(aes.hh, aes.hl, x, HashKey());
    }

    /** Hashes the block that waits. */
    method HashTail(tail: Bytes)
      requires Streaming(tail) && IsBlock(tail)
      modifies `y, `blocks
      ensures Streaming([])
    {
      hide Hashed, EncryptSW, Aes.Valid, BlockMul, Xor;
      HashedBlock(HashKey(), data, blocks, y, tail);
      y := MulH(Xor(y, tail));
      blocks := blocks + 1;
    }

    method PushByte(b: bv8)
      requires r.Length == 16 && rp < 16 && Streaming(r[..rp])
      modifies r, `rp, `data
      ensures rp == old(rp) + 1 && Streaming(r[..rp]) && data == old(data) + [b]
    {
      hide Hashed, EncryptSW, Aes.Valid;
      HashedMore(HashKey(), data, blocks, y, r[..rp], [b]);
      r[rp] := b;
      assert r[..rp + 1] == old(r[..rp]) + [b];
      data, rp := data + [b], rp + 1;
    }

    ghost method Extend(more: Bytes)
      requires Streaming([])
      modifies `data
      ensures Streaming(more) && data == old(data) + more
    {
      hide Hashed, EncryptSW, Aes.Valid;
      HashedMore(HashKey(), data, blocks, y, [], more);
      assert [] + more == more;
      data := data + more;
    }

    /** The first loop of update: completes the block that waits in r, if the input reaches that far. */
    method FillTail(input: Bytes) returns (i: nat)
      requires r.Length == 16 && 0 < rp < 16 && Streaming(r[..rp])
      modifies r, `rp, `data, `y, `blocks
      ensures i <= |input| && data == old(data) + input[..i]
      ensures if rp == 16 then Streaming([]) else i == |input| && rp < 16 && Streaming(r[..rp])
    {
      hide Streaming, Ready;
      i := 0;
      ghost var start := data;
      while true
        invariant 0 < rp < 16 && 0 <= i <= |input| && Streaming(r[..rp]) && data == start + input[..i]
        decreases |input| - i
      {
        if i == |input| { return; }
        PushByte(input[i]);
        i := i + 1;
        assert start + input[..i] == start + input[..i - 1] + [input[i - 1]];
        if rp == 16 {
          assert r[..rp] == r[..];
          HashTail(r[..]);
          return;
        }
      }
    }

    /** The second loop of update: whole blocks straight from the input. */
    method HashWhole(input: Bytes, from: nat) returns (i: nat)
      requires Streaming([]) && from <= |input|
      modifies `data, `y, `blocks
      ensures from <= i <= |input| < i + 16 && data == old(data) + input[from..i] && Streaming([])
    {
      hide Streaming, Ready;
      i := from;
      ghost var start := data;
      while |input| - i >= 16
        invariant from <= i <= |input| && Streaming([]) && data == start + input[from..i]
      {
        Extend(input[i..i + 16]);
        HashTail(input[i..i + 16]);
        i := i + 16;
        assert start + input[from..i] == start + input[from..i - 16] + input[i - 16..i];
      }
    }

    /** The last loop of update: fewer than sixteen bytes stay in r. */
    method KeepRest(rest: Bytes)
      requires Streaming([]) && |rest| < 16
      modifies r, `rp, `data
      ensures rp == |rest| && Streaming(r[..rp]) && data == old(data) + rest
    {
      hide Hashed, EncryptSW, Aes.Valid;
      Extend(rest);
      for j := 0 to |rest|
        invariant Streaming(rest) && data == old(data) + rest && r[..j] == rest[..j]
      {
        r[j] := rest[j];
      }
      rp := |rest|;
      assert rest[..|rest|] == rest;
    }

    method Update(input: Bytes)
      requires Valid()
      modifies this, r
      ensures Valid() && data == old(data) + input && iv == old(iv)
    {
      hide Hashed, EncryptSW, Aes.Valid;
      AddModulo(|data|, |input|);
      len := (len + |input|) % U32;
      ghost var start := data;
      var i := 0;
      if rp != 0 {
        i := FillTail(input);
        if rp < 16 {
          assert input[..i] == input;
          return;
        }
      } else {
        assert r[..rp] == [] && start + input[..0] == start;
      }
      assert data == start + input[..i];
      var k := HashWhole(input, i);
      KeepRest(input[k..]);
      assert start + input == start + input[..i] + input[i..k] + input[k..];
    }

    /** The padding loop of finish. */
    method PadTail()
      requires r.Length == 16 && 0 < rp < 16 && Streaming(r[..rp])
      modifies r, `rp, `data, `y, `blocks
      ensures Streaming([]) && data == old(data) + Zeros(16 - old(rp))
    {
      hide Streaming, Ready;
      ghost var start, p := data, rp;
      while rp < 16
        invariant p <= rp <= 16 && Streaming(r[..rp]) && data == start + Zeros(rp - p)
      {
        PushByte(0);
        assert Zeros(rp - 1 - p) + [0] == Zeros(rp - p);
      }
      assert r[..rp] == r[..];
      HashTail(r[..]);
    }

    /** Finish, up to the length field. */
    method HashPadding()
      requires Valid()
      modifies r, `rp, `data, `y, `blocks
      ensures Streaming([]) && data == Padded(old(data))
    {
      hide Hashed, EncryptSW, Aes.Valid;
      HashedSize(HashKey(), data, blocks, y, r[..rp]);
      PaddedEnd(data, blocks, rp);
      if rp != 0 {
        PadTail();
      } else {
        assert r[..rp] == [] && data + Zeros(0) == data;
      }
    }

    /** Finish, the length field. */
    method HashLength()
      requires Streaming([])
      modifies `y
      ensures Ready() && y == Ghash(HashKey(), Zero16(), data + (BigEndian(8 * len, 8) + BigEndian(0, 8)))
    {
      hide Hashed, EncryptSW, Aes.Valid, BlockMul, Xor, Ghash, BigEndian;
      HashedAll(HashKey(), data, blocks, y);
      XorLength(y, len);
      GhashAppend(HashKey(), Zero16(), data, blocks, BigEndian(8 * len, 8) + BigEndian(0, 8));
      y := MulH(Xor(y[..8], BigEndian(8 * len, 8)) + y[8..]);
    }

    lemma TagOfNoData()
      requires Ready()
      ensures |aes.ek| == 60 && GmacTag(aes.s, aes.ek, iv[..12], []) == EncryptSW(aes.s, aes.ek, iv)
    {
      hide EncryptSW, TagWithLength, Load64, KeySchedule;
      TagOfNothing(aes.s, aes.ek, iv[..12]);
      assert iv[..12] + iv[12..] == iv;
    }

    /** Completes the tag. The stream is not usable afterwards. */
    method Finish() returns (tag: Bytes)
      requires Valid()
      modifies this, r
      ensures aes.Valid() && tag == TagWithLength(aes.s, aes.ek, old(iv)[..12], old(data), |old(data)| % U32)
      ensures |old(data)| < U32 ==> tag == GmacTag(aes.s, aes.ek, old(iv)[..12], old(data))
      ensures old(data) == [] ==> tag == EncryptSW(aes.s, aes.ek, old(iv))
    {
      hide Hashed, EncryptSW, Aes.Valid, Xor, Ghash, BigEndian, Padded;
      TagOfNoData();
      HashPadding();
      HashLength();
      var iv2 := aes.Encrypt(iv[..12] + [0, 0, 0, 1]);
      tag := Xor(iv2, y);
    }
  }

  lemma PaddedEnd(a: Bytes, blocks: nat, rp: nat)
    requires |a| == 16 * blocks + rp && rp < 16
    ensures Padded(a) == a + Zeros(if rp == 0 then 0 else 16 - rp)
  {
    assert |a| % 16 == rp;
  }

  lemma HashedAll(h: Bytes, data: Bytes, blocks: nat, y: Bytes)
    requires Hashed(h, data, blocks, y, [])
    ensures |data| == 16 * blocks && IsBlock(y) && y == Ghash(h, Zero16(), data)
  {
    assert data[..16 * blocks] == data;
    hide Ghash;
  }

  lemma {:induction false} BigEndianZero(k: nat)
    ensures BigEndian(0, k) == Zeros(k)
  {
    if k > 0 { BigEndianZero(k - 1); }
  }

  lemma XorZero(b: bv8)
    ensures b ^ 0 == b
  {
  }

  /** Only the first half of the block changes: the second length field is zero. */
  lemma XorLength(y: Bytes, n: nat)
    requires IsBlock(y)
    ensures Xor(y[..8], BigEndian(8 * n, 8)) + y[8..] == Xor(y, BigEndian(8 * n, 8) + BigEndian(0, 8))
  {
    hide BigEndian;
    BigEndianZero(8);
    forall j | 8 <= j < 16
      ensures y[j] == y[j] ^ Zeros(8)[j - 8]
    {
      XorZero(y[j]);
    }
  }

  lemma AddModulo(n: nat, m: nat)
    ensures (n % U32 + m) % U32 == (n + m) % U32
  {
  }
}
