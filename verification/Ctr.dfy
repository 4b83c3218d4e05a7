/** Streaming AES-CTR: the output buffer holds the input exclusive-or the key stream however the input is cut. */
module Ctr {
  import opened Widths
  import opened Blocks
  import opened AesTables
  import opened AesCipher
  import opened AesKey
  import opened Gmac
  import opened BigEndians

  /** Adds one to the last 32 bits, modulo 2^32: section 6.2 of NIST SP 800-38D. */
  function Inc32(cb: Bytes): (r: Bytes)
    requires IsBlock(cb)
    ensures IsBlock(r)
  {
    cb[..12] + BigEndian((FromBigEndian(cb[12..]) + 1) % U32, 4)
  }

  function Counter(icb: Bytes, n: nat): (r: Bytes)
    requires IsBlock(icb)
    ensures IsBlock(r)
  {
    if n == 0 then icb else Inc32(Counter(icb, n - 1))
  }

  /** x exclusive-or the key stream from the counter block cb: section 6.5 of NIST SP 800-38D. */
  function Gctr(s: SBox, ek: seq<Word>, cb: Bytes, x: Bytes): (y: Bytes)
    requires |ek| == 60 && IsBlock(cb)
    ensures |y| == |x|
    decreases |x|
  {
    if |x| < 16 then Xor(x, EncryptSW(s, ek, cb)[..|x|])
    else Xor(x[..16], EncryptSW(s, ek, cb)) + Gctr(s, ek, Inc32(cb), x[16..])
  }

  lemma CounterNext(icb: Bytes, n: nat)
    requires IsBlock(icb)
    ensures Counter(Inc32(icb), n) == Counter(icb, n + 1)
  {
    hide Inc32;
    if n > 0 { CounterNext(icb, n - 1); }
  }

  /** Block n of the key stream encrypts counter n. */
  lemma {:induction false} GctrAppend(s: SBox, ek: seq<Word>, icb: Bytes, x: Bytes, n: nat, more: Bytes)
    requires |ek| == 60 && IsBlock(icb) && |x| == 16 * n
    ensures Gctr(s, ek, icb, x + more) == Gctr(s, ek, icb, x) + Gctr(s, ek, Counter(icb, n), more)
    decreases n
  {
    hide EncryptSW, Xor, Inc32;
    if n == 0 {
      assert x + more == more;
      assert Gctr(s, ek, icb, x) == [];
    } else {
      assert (x + more)[..16] == x[..16] && (x + more)[16..] == x[16..] + more;
      GctrAppend(s, ek, Inc32(icb), x[16..], n - 1, more);
      CounterNext(icb, n - 1);
      var a, b, c := Xor(x[..16], EncryptSW(s, ek, icb)), Gctr(s, ek, Inc32(icb), x[16..]),
          Gctr(s, ek, Counter(icb, n), more);
      assert a + (b + c) == (a + b) + c;
    }
  }

  lemma XorInvolution(x: Bytes, k: Bytes)
    requires |x| == |k|
    ensures Xor(Xor(x, k), k) == x
  {
    forall j | 0 <= j < |x| ensures x[j] ^ k[j] ^ k[j] == x[j] { ByteCancels(x[j], k[j]); }
  }

  lemma ByteCancels(a: bv8, b: bv8)
    ensures a ^ b ^ b == a
  {
  }

  /** Applying the key stream twice gives the input back. */
  lemma {:induction false} GctrInvolution(s: SBox, ek: seq<Word>, cb: Bytes, x: Bytes)
    requires |ek| == 60 && IsBlock(cb)
    ensures Gctr(s, ek, cb, Gctr(s, ek, cb, x)) == x
    decreases |x|
  {
    hide EncryptSW, Xor, Inc32;
    var k := EncryptSW(s, ek, cb);
    if |x| < 16 {
      XorInvolution(x, k[..|x|]);
    } else {
      var y, rest := Xor(x[..16], k), Gctr(s, ek, Inc32(cb), x[16..]);
      assert (y + rest)[..16] == y && (y + rest)[16..] == rest;
      XorInvolution(x[..16], k);
      GctrInvolution(s, ek, Inc32(cb), x[16..]);
    }
  }

  // ---- Counters as integers ----

  lemma U32IsPow()
    ensures Pow256(4) == U32
  {
    assert Pow256(1) == 256 && Pow256(2) == 0x1_0000 && Pow256(3) == 0x100_0000;
  }

  /** The counter in host order, and stored again after one step. */
  lemma CounterWord(cb: Bytes)
    requires IsBlock(cb)
    ensures FromBigEndian(cb[12..]) < U32
    ensures cb == cb[..12] + BigEndian(FromBigEndian(cb[12..]), 4)
  {
    hide FromBigEndian, BigEndian;
    BigEndianRoundTrip(cb[12..]);
    FromBigEndianRoundTrip(FromBigEndian(cb[12..]), 4);
    U32IsPow();
  }

  lemma WordOfInc(cb: Bytes)
    requires IsBlock(cb)
    ensures Inc32(cb)[..12] == cb[..12]
    ensures FromBigEndian(Inc32(cb)[12..]) == (FromBigEndian(cb[12..]) + 1) % U32
  {
    hide FromBigEndian, BigEndian;
    var n := (FromBigEndian(cb[12..]) + 1) % U32;
    FromBigEndianRoundTrip(n, 4);
    U32IsPow();
    assert Inc32(cb)[..12] == cb[..12] && Inc32(cb)[12..] == BigEndian(n, 4);
  }

  /** A counter that starts below 2^31 does not wrap for 2^31 blocks: it counts up, and the first twelve bytes stay. */
  lemma {:induction false} CounterCountsUp(cb: Bytes, n: nat)
    requires IsBlock(cb) && FromBigEndian(cb[12..]) < 0x8000_0000 && n <= 0x8000_0000
    ensures Counter(cb, n)[..12] == cb[..12]
    ensures FromBigEndian(Counter(cb, n)[12..]) == FromBigEndian(cb[12..]) + n
  {
    hide FromBigEndian, Inc32;
    if n > 0 {
      CounterCountsUp(cb, n - 1);
      WordOfInc(Counter(cb, n - 1));
    }
  }

  lemma CounterStep(nonce: Bytes, c: nat)
    requires |nonce| == 12 && c < U32
    ensures nonce + BigEndian((c + 1) % U32, 4) == Inc32(nonce + BigEndian(c, 4))
  {
    hide FromBigEndian, BigEndian;
    FromBigEndianRoundTrip(c, 4);
    U32IsPow();
    assert (nonce + BigEndian(c, 4))[..12] == nonce && (nonce + BigEndian(c, 4))[12..] == BigEndian(c, 4);
  }

  /** The key stream block from the loop-invariant words ctr0rk0, ctr1rk1 and ctr2rk2 of the bulk loop and the counter
      word. */
  function BulkKeyStream(s: SBox, ek: seq<Word>, w0: Word, w1: Word, w2: Word, c: nat): (ks: Bytes)
    requires |ek| == 60
    ensures IsBlock(ks)
  {
    StoreState(EncryptWhitened(s, ek, State(w0, w1, w2, XorW(LoadWord(BigEndian(c, 4), 0), ek[3]))))
  }

  lemma BulkIsEncrypt(s: SBox, ek: seq<Word>, nonce: Bytes, c: nat)
    requires |ek| == 60 && |nonce| == 12
    ensures BulkKeyStream(s, ek, XorW(LoadWord(nonce, 0), ek[0]), XorW(LoadWord(nonce, 4), ek[1]),
      XorW(LoadWord(nonce, 8), ek[2]), c)
         == EncryptSW(s, ek, nonce + BigEndian(c, 4))
  {
    hide BigEndian, XorW, EncryptWhitened, StoreState;
    var cb := nonce + BigEndian(c, 4);
    assert LoadState(cb) ==
        State(LoadWord(nonce, 0), LoadWord(nonce, 4), LoadWord(nonce, 8), LoadWord(BigEndian(c, 4), 0));
  }

  // ---- What the state of a stream stands for ----

  /** out is the first blocks of x encrypted, followed by the rest of x in the clear; ctr belongs to the next block. */
  ghost predicate Crypted(s: SBox, ek: seq<Word>, icb: Bytes, x: Bytes, blocks: nat, ctr: Bytes, out: Bytes) {
    && |ek| == 60 && IsBlock(icb) && 16 * blocks <= |x|
    && ctr == Counter(icb, blocks)
    && out == Gctr(s, ek, icb, x[..16 * blocks]) + x[16 * blocks..]
  }

  lemma CryptedSize(s: SBox, ek: seq<Word>, icb: Bytes, x: Bytes, blocks: nat, ctr: Bytes, out: Bytes)
    requires Crypted(s, ek, icb, x, blocks, ctr, out)
    ensures |ek| == 60 && |out| == |x| && 16 * blocks <= |x| && IsBlock(ctr)
  {
  }

  lemma CryptedNothing(s: SBox, ek: seq<Word>, icb: Bytes)
    requires |ek| == 60 && IsBlock(icb)
    ensures Crypted(s, ek, icb, [], 0, icb, [])
  {
  }

  lemma CryptedMore(s: SBox, ek: seq<Word>, icb: Bytes, x: Bytes, blocks: nat, ctr: Bytes, out: Bytes, more: Bytes)
    requires Crypted(s, ek, icb, x, blocks, ctr, out)
    ensures Crypted(s, ek, icb, x + more, blocks, ctr, out + more)
  {
    hide Gctr, Counter;
    assert (x + more)[..16 * blocks] == x[..16 * blocks];
    assert (x + more)[16 * blocks..] == x[16 * blocks..] + more;
  }

  lemma ShortGctr(s: SBox, ek: seq<Word>, cb: Bytes, x: Bytes)
    requires |ek| == 60 && IsBlock(cb) && |x| <= 16
    ensures Gctr(s, ek, cb, x) == Xor(x, EncryptSW(s, ek, cb)[..|x|])
  {
    hide EncryptSW, Inc32;
    if |x| == 16 {
      assert x[..16] == x && Gctr(s, ek, Inc32(cb), x[16..]) == [];
    }
  }

  /** The bytes after the complete blocks, at most one block of them, are encrypted in place. */
  lemma CryptedTail(s: SBox, ek: seq<Word>, icb: Bytes, x: Bytes, blocks: nat, ctr: Bytes, out: Bytes)
    requires Crypted(s, ek, icb, x, blocks, ctr, out) && |x| <= 16 * blocks + 16
    ensures IsBlock(ctr) && |out| == |x| && |x| - 16 * blocks <= 16
    ensures out[..16 * blocks] + Xor(out[16 * blocks..], EncryptSW(s, ek, ctr)[..|x| - 16 * blocks]) ==
      Gctr(s, ek, icb, x)
  {
    hide Gctr, Counter, EncryptSW, Xor;
    GctrAppend(s, ek, icb, x[..16 * blocks], blocks, x[16 * blocks..]);
    ShortGctr(s, ek, ctr, x[16 * blocks..]);
    assert x[..16 * blocks] + x[16 * blocks..] == x;
    assert out[..16 * blocks] == Gctr(s, ek, icb, x[..16 * blocks]);
  }

  lemma CryptedBlock(s: SBox, ek: seq<Word>, icb: Bytes, x: Bytes, blocks: nat, ctr: Bytes, out: Bytes)
    requires Crypted(s, ek, icb, x, blocks, ctr, out) && |x| == 16 * blocks + 16
    ensures IsBlock(ctr) && |out| == |x|
    ensures Crypted(s, ek, icb, x, blocks + 1, Inc32(ctr),
      out[..16 * blocks] + Xor(out[16 * blocks..], EncryptSW(s, ek, ctr)))
  {
    hide Gctr, EncryptSW, Xor, Inc32;
    CryptedTail(s, ek, icb, x, blocks, ctr, out);
    var k := EncryptSW(s, ek, ctr);
    assert k[..16] == k;
    assert x[..16 * (blocks + 1)] == x;
  }

  class Ctr {
    const aes: Aes
    var ctr: Bytes
    var out: array<bv8>
    var len: nat
    /** The initial counter block, everything crypted since init, and the number of its blocks already encrypted. */
    ghost var icb: Bytes
    ghost var data: Bytes
    ghost var blocks: nat

    /** The text written so far is right, and cb is the counter of the next block. */
    ghost predicate At(cb: Bytes, text: Bytes)
      reads this, aes
    {
      aes.Valid() && |text| == |data| && Crypted(aes.s, aes.ek, icb, data, blocks, cb, text)
    }

    ghost predicate Streaming()
      reads this, aes, out
    {
      len <= out.Length && At(ctr, out[..len])
    }

    ghost predicate Valid()
      reads this, aes, out
    {
      len <= out.Length && Streaming() && 16 * blocks <= len < 16 * blocks + 16
    }

    constructor (aes: Aes)
      ensures this.aes == aes
    {
      this.aes := aes;
      out := new bv8[0];
      ctr, len, icb, data, blocks := [], 0, [], [], 0;
    }

    method Init(iv: Bytes, output: array<bv8>)
      requires IsBlock(iv) && aes.Valid()
      modifies this
      ensures Valid() && out == output && icb == iv && data == [] && len == 0
    {
      hide Crypted, EncryptSW, KeySchedule;
      ctr, out, len := iv, output, 0;
      icb, data, blocks := iv, [], 0;
      CryptedNothing(aes.s, aes.ek, iv);
      assert output[..0] == [];
    }

    /** Stores n bytes of src exclusive-or bytes of the key stream. */
    method Store(src: array<bv8>, from: nat, at: nat, n: nat, ks: Bytes)
      requires from + n <= src.Length && at + n <= out.Length && n <= |ks| && (src == out ==> from == at)
      modifies out
      ensures out[..at] == old(out[..at]) && out[at + n..] == old(out[at + n..])
      ensures out[at..at + n] == Xor(old(src[from..from + n]), ks[..n])
    {
      for j := 0 to n
        invariant forall i | 0 <= i < out.Length ::
          out[i] == if at <= i < at + j then old(src[from + i - at]) ^ ks[i - at] else old(out[i])
        invariant src != out ==> src[..] == old(src[..])
      {
        out[at + j] := src[from + j] ^ ks[j];
      }
    }

    method PutByte(b: bv8)
      requires Streaming() && len < out.Length
      modifies out, `len, `data
      ensures Streaming() && len == old(len) + 1 && data == old(data) + [b] && out[len..] == old(out[..])[len..]
    {
      hide Crypted, EncryptSW, KeySchedule, IsDecryptionSchedule;
      CryptedMore(aes.s, aes.ek, icb, data, blocks, ctr, out[..len], [b]);
      out[len] := b;
      assert out[..len + 1] == old(out[..len]) + [b];
      data, len := data + [b], len + 1;
    }

    /** Encrypts the block of src at from into the output. */
    method StoreBlock(src: array<bv8>, from: nat, at: nat, ks: Bytes)
      requires from + 16 <= src.Length && at + 16 <= out.Length && IsBlock(ks) && (src == out ==> from == at)
      modifies out
      ensures out[..at + 16] == old(out[..at]) + Xor(old(src[from..from + 16]), ks)
      ensures out[at + 16..] == old(out[at + 16..])
    {
      hide Xor;
      Store(src, from, at, 16, ks);
      assert ks[..16] == ks;
      assert out[..at + 16] == out[..at] + out[at..at + 16];
    }

    /** A block completed byte by byte is encrypted where it lies. */
    method CompleteBlock()
      requires Streaming() && len == 16 * blocks + 16
      modifies out, `ctr, `blocks
      ensures Streaming() && len == 16 * blocks && out[len..] == old(out[len..])
    {
      hide Crypted, EncryptSW, KeySchedule, IsDecryptionSchedule, FromBigEndian, BigEndian, Xor, Load64;
      ghost var text := out[..len];
      CryptedSize(aes.s, aes.ek, icb, data, blocks, ctr, text);
      CryptedBlock(aes.s, aes.ek, icb, data, blocks, ctr, text);
      CounterWord(ctr);
      var c := FromBigEndian(ctr[12..]);
      CounterStep(ctr[..12], c);
      var keyStream := aes.Encrypt(ctr);
      assert out[..len - 16] == text[..len - 16] && out[len - 16..len] == text[len - 16..];
      StoreBlock(out, len - 16, len - 16, keyStream);
      ctr := ctr[..12] + BigEndian((c + 1) % U32, 4);
      blocks := blocks + 1;
    }

    /** Appends the encryption of one whole block of input, given its key stream. */
    method AppendBlock(input: array<bv8>, off: nat, ghost cb: Bytes, ks: Bytes)
      requires IsBlock(cb) && len + 16 <= out.Length && off + 16 <= input.Length && (input == out ==> off == len)
      requires At(cb, out[..len]) && len == 16 * blocks && ks == EncryptSW(aes.s, aes.ek, cb)
      modifies out, `len, `data, `blocks
      ensures len == old(len) + 16 <= out.Length && len == 16 * blocks && At(Inc32(cb), out[..len])
      ensures data == old(data) + old(input[off..off + 16]) && out[len..] == old(out[..])[len..]
    {
      hide Crypted, EncryptSW, KeySchedule, IsDecryptionSchedule, Xor, Inc32, Load64;
      ghost var more, text := input[off..off + 16], out[..len];
      CryptedMore(aes.s, aes.ek, icb, data, blocks, cb, text, more);
      CryptedBlock(aes.s, aes.ek, icb, data + more, blocks, cb, text + more);
      assert (text + more)[..len] == text && (text + more)[len..] == more;
      StoreBlock(input, off, len, ks);
      data, blocks, len := data + more, blocks + 1, len + 16;
    }

    /** The bytes of input from off on are rest, and writing to the output will not disturb them. */
    ghost predicate Pending(input: array<bv8>, off: nat, rest: Bytes)
      reads `len, `out, input
    {
      off + |rest| <= input.Length && input[off..off + |rest|] == rest && (input == out ==> off == len)
    }

    /** Copies the next input byte. */
    method PutNext(input: array<bv8>, off: nat, ghost x: Bytes)
      requires Streaming() && 0 < |x| && len < out.Length && Pending(input, off, x)
      modifies out, `len, `data
      ensures Streaming() && len == old(len) + 1 && data == old(data) + [x[0]] && Pending(input, off + 1, x[1..])
      ensures SameFrom(out[..], old(out[..]), len)
    {
      hide Crypted, EncryptSW, KeySchedule, IsDecryptionSchedule, Load64, At;
      PutByte(input[off]);
      StillPending(input, off, x, out, old(len), old(input[..]), old(out[..]), 1);
    }

    /** What is left of the input has not been overwritten. */
    lemma StillPending(input: array<bv8>, off: nat, x: Bytes, o: array<bv8>, at: nat, before: Bytes, text: Bytes,
        n: nat)
      requires n <= |x| && off + |x| <= input.Length == |before| && before[off..off + |x|] == x
      requires o == out && |text| == out.Length && at + n == len <= out.Length && out[len..] == text[len..]
      requires if input == out then off == at && before == text else input[..] == before
      ensures Pending(input, off + n, x[n..])
    {
      forall k | off + n <= k < off + |x|
        ensures input[k] == x[k - off]
      {
        assert before[off..off + |x|][k - off] == before[k];
        if input == out {
          assert out[len..][k - off - n] == text[len..][k - off - n];
        } else {
          assert input[..][k] == before[k];
        }
      }
    }

    /** The first loop of crypt: completes the block at the end of the output, if the input reaches that far. */
    method FillBlock(input: array<bv8>, off: nat, n: nat, ghost x: Bytes) returns (i: nat)
      requires Streaming() && 16 * blocks < len < 16 * blocks + 16 && n == |x| && len + n <= out.Length
      requires Pending(input, off, x)
      modifies out, `len, `data, `ctr, `blocks
      ensures i <= n && len == old(len) + i && Streaming() && data == old(data) + x[..i]
      ensures Pending(input, off + i, x[i..])
      ensures if i < n then len == 16 * blocks else 16 * blocks <= len < 16 * blocks + 16
      ensures SameFrom(out[..], old(out[..]), len)
    {
      hide Crypted, EncryptSW, KeySchedule, IsDecryptionSchedule, Load64, At, Streaming, Pending, SameFrom;
      ghost var text := out[..];
      SameFromStart(text, len);
      i := 0;
      ghost var start := data;
      while true
        invariant i <= n && len == old(len) + i && 16 * blocks < len < 16 * blocks + 16
        invariant Streaming() && data == start + x[..i] && Pending(input, off + i, x[i..])
        invariant SameFrom(out[..], text, len)
        decreases n - i
      {
        if i == n { return; }
        ghost var middle := out[..];
        PutNext(input, off + i, x[i..]);
        SameFromStep(out[..], middle, text, len - 1, len);
        i := i + 1;
        assert start + x[..i] == start + x[..i - 1] + [x[i - 1..][0]] && x[i - 1..][1..] == x[i..];
        if len % 16 == 0 {
          middle := out[..];
          CompletePending(input, off + i, x[i..]);
          SameFromStep(out[..], middle, text, len, len);
          return;
        }
      }
    }

    method CompletePending(input: array<bv8>, off: nat, ghost rest: Bytes)
      requires Streaming() && len == 16 * blocks + 16 && Pending(input, off, rest)
      modifies out, `ctr, `blocks
      ensures Streaming() && len == 16 * blocks && Pending(input, off, rest) && SameFrom(out[..], old(out[..]), len)
    {
      hide Crypted, EncryptSW, KeySchedule, IsDecryptionSchedule, Load64, At;
      CompleteBlock();
      StillPending(input, off, rest, out, len, old(input[..]), old(out[..]), 0);
    }

    method AppendPending(input: array<bv8>, off: nat, ghost x: Bytes, ghost cb: Bytes, ks: Bytes)
      requires IsBlock(cb) && 16 <= |x| && len + 16 <= out.Length && Pending(input, off, x)
      requires At(cb, out[..len]) && len == 16 * blocks && ks == EncryptSW(aes.s, aes.ek, cb)
      modifies out, `len, `data, `blocks
      ensures len == old(len) + 16 <= out.Length && len == 16 * blocks && At(Inc32(cb), out[..len])
      ensures data == old(data) + x[..16] && Pending(input, off + 16, x[16..]) && SameFrom(out[..], old(out[..]), len)
    {
      hide Crypted, EncryptSW, KeySchedule, IsDecryptionSchedule, Load64, At, Inc32;
      assert input[off..off + 16] == input[off..off + |x|][..16];
      AppendBlock(input, off, cb, ks);
      StillPending(input, off, x, out, old(len), old(input[..]), old(out[..]), 16);
    }

    /** The bulk loop. */
    method CryptWhole(input: array<bv8>, off: nat, n: nat, ghost x: Bytes) returns (i: nat)
      requires Streaming() && 16 * blocks == len && n == |x| && len + n <= out.Length && Pending(input, off, x)
      modifies out, `len, `data, `ctr, `blocks
      ensures i <= n < i + 16 && len == old(len) + i == 16 * blocks
      ensures Streaming() && data == old(data) + x[..i] && Pending(input, off + i, x[i..])
      ensures SameFrom(out[..], old(out[..]), len)
    {
      hide SameFrom, Crypted, EncryptSW, KeySchedule, IsDecryptionSchedule, Load64, Pending, FromBigEndian, BigEndian,
          XorW, BulkKeyStream, Inc32;
      ghost var text := out[..];
      SameFromStart(text, len);
      i := 0;
      CryptedSize(aes.s, aes.ek, icb, data, blocks, ctr, out[..len]);
      CounterWord(ctr);
      var nonce := ctr[..12];
      var c: nat := FromBigEndian(ctr[12..]);
      var w0, w1, w2 := XorW(LoadWord(ctr, 0), aes.ek[0]), XorW(LoadWord(ctr, 4), aes.ek[1]),
          XorW(LoadWord(ctr, 8), aes.ek[2]);
      assert LoadWord(ctr, 0) == LoadWord(nonce, 0) && LoadWord(ctr, 4) == LoadWord(nonce, 4)
          && LoadWord(ctr, 8) == LoadWord(nonce, 8);
      ghost var start := data;
      hide At;
      while n - i >= 16
        invariant i <= n && len == old(len) + i == 16 * blocks && len + n - i <= out.Length && c < U32
        invariant At(nonce + BigEndian(c, 4), out[..len]) && data == start + x[..i] && Pending(input, off + i, x[i..])
        invariant SameFrom(out[..], text, len)
      {
        ghost var middle := out[..];
        BulkIsEncrypt(aes.s, aes.ek, nonce, c);
        CounterStep(nonce, c);
        AppendPending(input, off + i, x[i..], nonce + BigEndian(c, 4), BulkKeyStream(aes.s, aes.ek, w0, w1, w2, c));
        SameFromStep(out[..], middle, text, len - 16, len);
        c := (c + 1) % U32;
        i := i + 16;
        assert start + x[..i] == start + x[..i - 16] + x[i - 16..][..16] && x[i - 16..][16..] == x[i..];
      }
      ctr := nonce + BigEndian(c, 4);
    }

    /** The last loop of crypt: fewer than sixteen bytes wait in the output. */
    method CopyRest(input: array<bv8>, off: nat, n: nat, ghost x: Bytes)
      requires Streaming() && 16 * blocks == len && n == |x| < 16 && len + n <= out.Length && Pending(input, off, x)
      modifies out, `len, `data
      ensures Valid() && len == old(len) + n && data == old(data) + x && SameFrom(out[..], old(out[..]), len)
    {
      hide Crypted, EncryptSW, KeySchedule, IsDecryptionSchedule, Load64, Pending, At, Streaming, SameFrom;
      ghost var text := out[..];
      SameFromStart(text, len);
      ghost var start := data;
      for i := 0 to n
        invariant len == old(len) + i && Streaming() && data == start + x[..i] && Pending(input, off + i, x[i..])
        invariant SameFrom(out[..], text, len)
      {
        ghost var middle := out[..];
        PutNext(input, off + i, x[i..]);
        SameFromStep(out[..], middle, text, len - 1, len);
        assert start + x[..i + 1] == start + x[..i] + [x[i..][0]] && x[i..][1..] == x[i + 1..];
      }
      assert x[..n] == x;
    }

    /** Appends n bytes of input (the total fits the 32-bit field of the source), which may already lie in the output at
        the place where their encryption goes. */
    method Crypt(input: array<bv8>, off: nat, n: nat)
      requires Valid() && off + n <= input.Length && len + n <= out.Length && len + n < U32
      requires input == out ==> off == len
      modifies this, out
      ensures Valid() && out == old(out) && icb == old(icb)
      ensures len == old(len) + n && data == old(data) + old(input[off..off + n])
      ensures SameFrom(out[..], old(out[..]), len)
    {
      hide Crypted, EncryptSW, KeySchedule, IsDecryptionSchedule, Load64, Pending, At, Streaming, SameFrom;
      ghost var text, at := out[..], len;
      SameFromStart(text, len);
      ghost var x, start := input[off..off + n], data;
      StartPending(input, off, n);
      var i := 0;
      FirstPiece(start, x, 0);
      if len % 16 != 0 {
        i := FillBlock(input, off, n, x);
        FirstPiece(start, x, i);
        if i == n { return; }
      }
      ghost var middle := out[..];
      CryptRest(input, off + i, n - i, x[i..]);
      SameFromStep(out[..], middle, text, at + i, len);
      FirstPiece(start, x, i);
    }

    /** The bulk loop and what follows it. */
    method CryptRest(input: array<bv8>, off: nat, n: nat, ghost x: Bytes)
      requires Streaming() && 16 * blocks == len && n == |x| && len + n <= out.Length && Pending(input, off, x)
      modifies out, `len, `data, `ctr, `blocks
      ensures Valid() && len == old(len) + n && data == old(data) + x && SameFrom(out[..], old(out[..]), len)
    {
      hide Crypted, EncryptSW, KeySchedule, IsDecryptionSchedule, Load64, Pending, At, Streaming, SameFrom;
      ghost var text, at, start := out[..], len, data;
      var k := CryptWhole(input, off, n, x);
      ghost var middle := out[..];
      CopyRest(input, off + k, n - k, x[k..]);
      SameFromStep(out[..], middle, text, at + k, len);
      FirstPiece(start, x, k);
    }

    lemma StartPending(input: array<bv8>, off: nat, n: nat)
      requires off + n <= input.Length && (input == out ==> off == len)
      ensures Pending(input, off, input[off..off + n])
    {
    }

    /** Encrypts the bytes of an incomplete last block. The stream is not usable afterwards. */
    method Finish()
      requires Valid()
      modifies out
      ensures out[..len] == Gctr(aes.s, aes.ek, icb, data) && out[len..] == old(out[len..])
    {
      hide Crypted, EncryptSW, KeySchedule, IsDecryptionSchedule, Load64, Xor, Gctr;
      ghost var text := out[..len];
      CryptedTail(aes.s, aes.ek, icb, data, blocks, ctr, text);
      TailSize(len, blocks);
      ghost var ks := aes.Encrypt(ctr);
      hide Aes.Valid;
      var rem := len % 16;
      if rem == 0 {
        NoTail(text, ks);
      } else {
        var tmp := aes.Encrypt(ctr);
        Store(out, len - rem, len - rem, rem, tmp);
        StoredTail(text, out[..], rem, tmp);
      }
    }
  }

  lemma TailSize(n: nat, blocks: nat)
    requires 16 * blocks <= n < 16 * blocks + 16
    ensures n % 16 == n - 16 * blocks
  {
  }

  /** Two contents of the output agree from position at on. */
  predicate SameFrom(text: Bytes, before: Bytes, at: nat) {
    |text| == |before| && at <= |text| && text[at..] == before[at..]
  }

  lemma SameFromStart(text: Bytes, at: nat)
    requires at <= |text|
    ensures SameFrom(text, text, at)
  {
  }

  lemma SameFromStep(text: Bytes, middle: Bytes, before: Bytes, at: nat, to: nat)
    requires SameFrom(text, middle, to) && SameFrom(middle, before, at) && at <= to
    ensures SameFrom(text, before, to)
  {
    assert middle[to..] == middle[at..][to - at..] && before[to..] == before[at..][to - at..];
  }

  lemma FirstPiece(start: Bytes, x: Bytes, i: nat)
    requires i <= |x|
    ensures start + x == start + x[..i] + x[i..]
    ensures i == |x| ==> start + x == start + x[..i]
    ensures i == 0 ==> start == start + x[..i] && x[i..] == x
  {
  }

  lemma NoTail(text: Bytes, ks: Bytes)
    ensures text[..|text|] + Xor(text[|text|..], ks[..0]) == text
  {
  }

  lemma StoredTail(text: Bytes, out: Bytes, rem: nat, ks: Bytes)
    requires rem <= |ks| && rem <= |text| <= |out|
    requires out[..|text| - rem] == text[..|text| - rem]
    requires out[|text| - rem..|text|] == Xor(text[|text| - rem..], ks[..rem])
    ensures out[..|text|] == text[..|text| - rem] + Xor(text[|text| - rem..], ks[..rem])
  {
    hide Xor;
    assert out[..|text|] == out[..|text| - rem] + out[|text| - rem..|text|];
  }
}
