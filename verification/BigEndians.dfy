/** Integers in network byte order. */
module BigEndians {
  import opened Arithmetic
  import opened Blocks

  /** n in k big-endian bytes. */
  function BigEndian(n: nat, k: nat): (s: Bytes)
    ensures |s| == k
  {
    if k == 0 then [] else BigEndian(n / 256, k - 1) + [NatByte(n % 256)]
  }

  /** The big-endian integer in a byte string. */
  function FromBigEndian(b: Bytes): nat {
    if b == [] then 0 else 256 * FromBigEndian(b[..|b| - 1]) + ByteVal(b[|b| - 1])
  }

  lemma LastByte(n: nat, k: nat, m: nat, last: bv8)
    requires k > 0 && n / 256 == m && n % 256 == ByteVal(last)
    ensures BigEndian(n, k) == BigEndian(m, k - 1) + [last]
  {
    ByteRoundTrip(last);
  }

  lemma {:induction false} BigEndianRoundTrip(b: Bytes)
    ensures BigEndian(FromBigEndian(b), |b|) == b
  {
    if b != [] {
      var init, last := b[..|b| - 1], b[|b| - 1];
      BigEndianRoundTrip(init);
      ByteRoundTrip(last);
      hide NatByte, ByteVal;
      var n, m := FromBigEndian(b), FromBigEndian(init);
      assert n == 256 * m + ByteVal(last);
      hide FromBigEndian;
      DivUnique(n, 256, m, ByteVal(last));
      LastByte(n, |b|, m, last);
    }
  }

  function Pow256(k: nat): (p: nat) ensures p > 0 { if k == 0 then 1 else 256 * Pow256(k - 1) }

  lemma AppendByte(b: Bytes, last: bv8)
    ensures FromBigEndian(b + [last]) == 256 * FromBigEndian(b) + ByteVal(last)
  {
    hide ByteVal;
    assert (b + [last])[..|b|] == b;
  }

  lemma {:induction false} FromBigEndianRoundTrip(n: nat, k: nat)
    ensures FromBigEndian(BigEndian(n, k)) == n % Pow256(k)
  {
    if k > 0 {
      FromBigEndianRoundTrip(n / 256, k - 1);
      NatRoundTrip(n % 256);
      DivModStep(n, Pow256(k - 1));
      AppendByte(BigEndian(n / 256, k - 1), NatByte(n % 256));
      hide FromBigEndian, NatByte, ByteVal;
    }
  }

  lemma DivModStep(n: nat, p: nat)
    requires p > 0
    ensures 256 * (n / 256 % p) + n % 256 == n % (256 * p)
  {
    var q, r := n / 256, n % 256;
    var q', r' := q / p, q % p;
    assert n == 256 * q + r && q == p * q' + r';
    Regroup(p, q', r', r);
    DivUnique(n, 256 * p, q', 256 * r' + r);
  }

  lemma Regroup(p: nat, q: nat, r: nat, s: nat)
    ensures 256 * (p * q + r) + s == (256 * p) * q + (256 * r + s)
  {
  }

  /** The bytes of a number beyond the lowest j are those of its quotient. */
  lemma {:induction false} LeadingBytes(n: nat, k: nat, j: nat)
    ensures BigEndian(n, k + j)[..k] == BigEndian(n / Pow256(j), k)
    decreases j
  {
    hide NatByte;
    if j > 0 {
      assert BigEndian(n, k + j)[..k] == BigEndian(n / 256, k + j - 1)[..k];
      LeadingBytes(n / 256, k, j - 1);
      DivTwice(n, Pow256(j - 1));
    }
  }

  lemma DivTwice(v: nat, p: nat)
    requires p > 0
    ensures v / 256 / p == v / (256 * p)
  {
    DivModStep(v, p);
    var q := v / 256;
    assert v == 256 * q + v % 256 && q == p * (q / p) + q % p;
    Regroup(p, q / p, q % p, v % 256);
    DivUnique(v, 256 * p, q / p, 256 * (q % p) + v % 256);
  }

  /** The values that one, two, four, five and eight bytes can hold. */
  lemma Powers()
    ensures Pow256(0) == 1 && Pow256(1) == 256 && Pow256(2) == 0x1_0000 && Pow256(4) == 0x1_0000_0000
    ensures Pow256(5) == 0x100_0000_0000 && Pow256(8) == 0x1_0000_0000_0000_0000
  {
    assert Pow256(3) == 0x100_0000 && Pow256(6) == 0x1_0000_0000_0000 && Pow256(7) == 0x100_0000_0000_0000;
  }

  /** A value that fits reads back. */
  lemma ReadBack(n: nat, k: nat)
    requires n < Pow256(k)
    ensures FromBigEndian(BigEndian(n, k)) == n
  {
    FromBigEndianRoundTrip(n, k);
    hide BigEndian, FromBigEndian, Pow256;
  }
}
