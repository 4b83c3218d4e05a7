/** The fixed-capacity buffer with big-endian integers, and reading at an offset. */
module Buffers {
  import opened Wrappers
  import opened Blocks
  import opened BigEndians

  // ---- Reading ----

  /** at: the integer in the k bytes at i, or failure if they are not all there. */
  function ReadInt(b: Bytes, i: nat, k: nat): Outcome<nat> {
    if i + k > |b| then Failed else Done(FromBigEndian(b[i..i + k]))
  }

  /** field: the n bytes at i. */
  function ReadBytes(b: Bytes, i: nat, n: nat): Outcome<Bytes> {
    if i + n > |b| then Failed else Done(b[i..i + n])
  }

  /** The bytes s stand at position p. */
  predicate Has(b: Bytes, p: nat, s: Bytes) { p + |s| <= |b| && b[p..p + |s|] == s }

  lemma HasParts(b: Bytes, p: nat, s: Bytes, t: Bytes)
    ensures Has(b, p, s + t) <==> Has(b, p, s) && Has(b, p + |s|, t)
  {
    if p + |s| + |t| <= |b| {
      assert b[p..p + |s| + |t|] == b[p..p + |s|] + b[p + |s|..p + |s| + |t|];
      assert Has(b, p, s + t) ==> b[p..p + |s|] == (s + t)[..|s|] && b[p + |s|..p + |s| + |t|] == (s + t)[|s|..];
    }
  }

  lemma ReadHas(b: Bytes, p: nat, n: nat, k: nat)
    requires Has(b, p, BigEndian(n, k)) && n < Pow256(k)
    ensures ReadInt(b, p, k) == Done(n)
  {
    hide BigEndian, FromBigEndian, Pow256;
    ReadBack(n, k);
  }

  lemma ReadHasBytes(b: Bytes, p: nat, s: Bytes)
    requires Has(b, p, s)
    ensures ReadBytes(b, p, |s|) == Done(s)
  {
  }

  // ---- The buffer ----

  class Buffer {
    const b: array<bv8>
    var l: nat

    ghost predicate Valid()
      reads this
    {
      l <= b.Length
    }

    ghost function Contents(): (s: Bytes)
      requires Valid()
      reads this, b
    {
      b[..l]
    }

    constructor (capacity: nat)
      ensures Valid() && Contents() == [] && b.Length == capacity && fresh(b)
    {
      b := new bv8[capacity](i => 0);
      l := 0;
    }

    /** Appends the k low bytes of v, most significant first. */
    method AppendInt(v: nat, k: nat) returns (r: Status)
      requires Valid()
      modifies this, b
      ensures Valid() && r.Fine? == (old(l) + k <= b.Length)
      ensures Contents() == if r.Fine? then old(Contents()) + BigEndian(v, k) else old(Contents())
    {
      hide BigEndian;
      if l + k > b.Length {
        return Thrown;
      }
      ghost var before, be := Contents(), BigEndian(v, k);
      for x := 1 to k + 1
        invariant b[..l + x - 1] == before + be[..x - 1]
        modifies b
      {
        DigitAt(v, k, x - 1);
        b[l + x - 1] := NatByte(v / Power(k - x) % 256);
        assert be[..x] == be[..x - 1] + [be[x - 1]];
      }
      assert be[..k] == be;
      l := l + k;
      return Fine;
    }

    method Append(s: Bytes) returns (r: Status)
      requires Valid()
      modifies this, b
      ensures Valid() && r.Fine? == (old(l) + |s| <= b.Length)
      ensures Contents() == if r.Fine? then old(Contents()) + s else old(Contents())
    {
      if l + |s| > b.Length {
        return Thrown;
      }
      for x := 0 to |s|
        invariant b[..l + x] == old(b[..l]) + s[..x]
        modifies b
      {
        b[l + x] := s[x];
      }
      l := l + |s|;
      return Fine;
    }

    /** Makes room for i bytes whose contents are whatever was there. */
    method AddSize(i: nat) returns (r: Status)
      requires Valid()
      modifies this
      ensures Valid() && r.Fine? == (old(l) + i <= b.Length) && l == old(l) + if r.Fine? then i else 0
      ensures old(l) <= l && Contents()[..old(l)] == old(Contents())
    {
      if l + i > b.Length {
        return Thrown;
      }
      l := l + i;
      return Fine;
    }

    /** Overwrites the k bytes at i. */
    method SetAt(i: nat, v: nat, k: nat) returns (r: Status)
      requires Valid()
      modifies b
      ensures r.Fine? == (i + k <= l)
      ensures Contents() ==
        if r.Fine? then old(Contents())[..i] + BigEndian(v, k) + old(Contents())[i + k..] else old(Contents())
    {
      hide BigEndian;
      if i + k > l {
        return Thrown;
      }
      ghost var before, be := Contents(), BigEndian(v, k);
      for x := 1 to k + 1
        invariant forall j | i <= j < i + x - 1 :: b[j] == be[j - i]
        invariant forall j | 0 <= j < i || i + x - 1 <= j < l :: b[j] == before[j]
        modifies b
      {
        DigitAt(v, k, x - 1);
        b[i + x - 1] := NatByte(v / Power(k - x) % 256);
      }
      assert Contents() == before[..i] + be + before[i + k..];
      return Fine;
    }

    /** Reads a big-endian integer. */
    method At(i: nat, k: nat) returns (r: Outcome<nat>)
      requires Valid()
      ensures r == ReadInt(Contents(), i, k)
    {
      if i + k > l {
        return Failed;
      }
      var v := 0;
      for x := 0 to k
        invariant v == FromBigEndian(b[i..i + x])
      {
        v := v * 256 + ByteVal(b[i + x]);
        AppendByte(b[i..i + x], b[i + x]);
        assert b[i..i + x + 1] == b[i..i + x] + [b[i + x]];
      }
      assert b[..l][i..i + k] == b[i..i + k];
      return Done(v);
    }

    method Field(i: nat, n: nat) returns (r: Outcome<Bytes>)
      requires Valid()
      ensures r == ReadBytes(Contents(), i, n)
    {
      if i + n > l {
        return Failed;
      }
      assert b[..l][i..i + n] == b[i..i + n];
      return Done(b[i..i + n]);
    }

    /** Erases n bytes at position at, and closes the gap. */
    method Erase(at: nat, n: nat) returns (r: Status)
      requires Valid()
      modifies this, b
      ensures Valid() && r.Fine? == (at + n <= old(l))
      ensures Contents() == if r.Fine? then old(Contents())[..at] + old(Contents())[at + n..] else old(Contents())
    {
      if at + n > l {
        return Thrown;
      }
      ghost var s := Contents();
      for x := at to l - n
        invariant forall k | at <= k < x :: b[k] == s[k + n]
        invariant forall k | 0 <= k < at :: b[k] == s[k]
        invariant forall k | x <= k < l :: b[k] == s[k]
        modifies b
      {
        b[x] := b[x + n];
      }
      l := l - n;
      assert Contents() == s[..at] + s[at + n..];
      return Fine;
    }

    /** Drops everything before position at. */
    method Behead(at: nat) returns (r: Status)
      requires Valid()
      modifies this, b
      ensures Valid() && r.Fine? == (at <= old(l))
      ensures Contents() == if r.Fine? then old(Contents())[at..] else old(Contents())
    {
      r := Erase(0, at);
    }
  }

  /** 256 to the power n, as a shift amount of 8n bits. */
  function Power(n: nat): (p: nat) ensures p > 0 { Pow256(n) }

  /** Byte x of the big-endian form is the x-th digit from the top. */
  lemma {:induction false} DigitAt(v: nat, k: nat, x: nat)
    requires x < k
    ensures BigEndian(v, k)[x] == NatByte(v / Power(k - 1 - x) % 256)
  {
    if x == k - 1 {
      assert Power(0) == 1;
    } else {
      DigitAt(v / 256, k - 1, x);
      DivTwice(v, Power(k - 2 - x));
    }
  }
}
