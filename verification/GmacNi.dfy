/** GHASH with 128-bit registers: one block at a time, and four blocks with a single reduction. */
module GmacNi {
  import opened Gf2Poly
  import opened Gf128
  import opened GfMul
  import opened Blocks
  import opened AesKey
  import opened Gmac

  // ---- Registers: sets of bit positions below 128 ----

  /** The register holding the block b with its bytes swapped, so that b reads as a big-endian integer. */
  function Reg(b: Bytes): Poly
    requires IsBlock(b)
  {
    set p: nat | p < 128 && ByteBit(b[15 - p / 8], p % 8)
  }

  /** The memory image of a register with its bytes swapped. */
  function Memory(v: Poly): (b: Bytes)
    ensures IsBlock(b)
  {
    Pack(Mirror(v), 16)
  }

  function Lo64(v: Poly): Poly { Below(v, 64) }
  function Hi64(v: Poly): Poly { Above(v, 64) }

  /** The position of bit p within its 32-bit lane. */
  function Lane(p: nat): (q: nat)
    ensures q <= p
  {
    if p < 32 then p else if p < 64 then p - 32 else if p < 96 then p - 64 else p - 96
  }

  predicate FromBelow(v: Poly, k: nat, p: nat) { Lane(p) >= k && p - k in v }
  predicate FromAbove(v: Poly, k: nat, p: nat) { Lane(p) + k < 32 && p + k in v }

  /** Shifts of each lane, and of the whole register. */
  function SllLanes(v: Poly, k: nat): Poly { set p: nat | p < 128 && FromBelow(v, k, p) }
  function SrlLanes(v: Poly, k: nat): Poly { set p: nat | p < 128 && FromAbove(v, k, p) }
  function Sll(v: Poly, k: nat): Poly { Below(Shift(v, k), 128) }
  function Srl(v: Poly, k: nat): Poly { Above(v, k) }

  /** The two halves exchanged: a shuffle of the lanes with the constant 78. */
  function SwapHalves(v: Poly): Poly { Add(Shift(Below(v, 64), 64), Above(v, 64)) }

  ghost predicate Is128(v: Poly) { forall p | p in v :: p < 128 }

  // ---- The code's reductions ----

  /** The 256-bit product shifted left by one: low and high register. */
  function DoubleLow(t1: Poly): Poly { SllLanes(t1, 1) + Sll(SrlLanes(t1, 31), 32) }
  function DoubleHigh(t1: Poly, t4: Poly): Poly {
    (SllLanes(t4, 1) + Sll(SrlLanes(t4, 31), 32)) + Srl(SrlLanes(t1, 31), 96)
  }

  function Carries(t1: Poly): Poly { Add(Add(SllLanes(t1, 31), SllLanes(t1, 30)), SllLanes(t1, 25)) }

  function FoldLow(t1: Poly): Poly { Add(t1, Sll(Carries(t1), 96)) }

  /** The last three statements of p_gmacPCLMUL128. */
  function FoldRegisters(t1: Poly, t4: Poly): Poly {
    var t5, u := Carries(t1), FoldLow(t1);
    Add(Add(Add(Add(Add(t4, Srl(t5, 32)), u), SrlLanes(u, 2)), SrlLanes(u, 7)), SrlLanes(u, 1))
  }

  function Reduced(t1: Poly, t4: Poly): Poly { FoldRegisters(DoubleLow(t1), DoubleHigh(t1, t4)) }

  /** p_gmacPCLMUL128, up to the byte swap of the result. */
  function MulRegisters(h: Poly, y: Poly): Poly {
    var t2 := Add(Mul(Hi64(h), Lo64(y)), Mul(Lo64(h), Hi64(y)));
    Reduced(Add(Mul(Lo64(h), Lo64(y)), Sll(t2, 64)), Add(Mul(Hi64(h), Hi64(y)), Srl(t2, 64)))
  }

  /** p_gmacPCLMUL128: h is a swapped register, y a block in memory order. */
  function PclMul(h: Poly, y: Bytes): (z: Bytes)
    requires IsBlock(y)
    ensures IsBlock(z)
  {
    Memory(MulRegisters(h, Reg(y)))
  }

  // ---- Registers and blocks ----

  lemma RegIsMirror(b: Bytes)
    requires IsBlock(b)
    ensures Reg(b) == Mirror(Bits(b))
  {
    hide ByteBit;
    forall p: nat | p < 128
      ensures p in Reg(b) <==> p in Mirror(Bits(b))
    {
      Opposite(p);
      InBits(b, (127 - p) / 8, (127 - p) % 8);
    }
  }

  lemma Opposite(p: nat)
    requires p < 128
    ensures (127 - p) / 8 == 15 - p / 8 && (127 - p) % 8 == 7 - p % 8
  {
    Locate(15 - p / 8, 7 - p % 8);
  }

  lemma BitsMemory(v: Poly)
    ensures Bits(Memory(v)) == Mirror(v)
  {
    hide Mirror;
    MirrorBlock(v);
    BitsPack(Mirror(v), 16);
  }

  lemma MirrorBlock(v: Poly)
    ensures Block(Mirror(v))
  {
  }

  // ---- The lane operations shift the 256-bit product by one ----

  lemma DoubleBits(t1: Poly, t4: Poly, p: nat)
    requires Is128(t1) && Is128(t4)
    ensures p in DoubleLow(t1) <==> 1 <= p < 128 && p - 1 in t1
    ensures p in DoubleHigh(t1, t4) <==> if p == 0 then 127 in t1 else p < 128 && p - 1 in t4
  {
  }

  lemma FoldBits(t1: Poly, t4: Poly, p: nat)
    requires Is128(t1) && Is128(t4) && p < 128
    ensures var u := FoldLow(t1);
            p in FoldRegisters(t1, t4) <==> ((((p in t4) != (p in u)) != (p + 1 in u)) != (p + 2 in u)) != (p + 7 in u)
  {
  }

  lemma CarryBits(t1: Poly, p: nat)
    requires Is128(t1)
    ensures p in FoldLow(t1) <==> (p < 128 &&
      ((((p in t1) != (p == 127 && 0 in t1)) != (p >= 126 && p - 126 in t1)) != (p >= 121 && p - 121 in t1)))
  {
  }

  lemma MirrorFoldLow(t1: Poly)
    requires Is128(t1)
    ensures var b := Mirror(t1); Mirror(FoldLow(t1)) == Add(b, Above(TimesR(b), 128))
  {
    var b := Mirror(t1);
    forall e: nat
      ensures e in Mirror(FoldLow(t1)) <==> e in Add(b, Above(TimesR(b), 128))
    {
      hide *;
      MirrorFoldLowBit(t1, e);
    }
    hide *;
    SameCoefficients(Mirror(FoldLow(t1)), Add(b, Above(TimesR(b), 128)));
  }

  lemma InMirror(v: Poly, e: nat)
    ensures e in Mirror(v) <==> e < 128 && 127 - e in v
  {
  }

  lemma MirrorFoldLowBit(t1: Poly, e: nat)
    requires Is128(t1)
    ensures var b := Mirror(t1); e in Mirror(FoldLow(t1)) <==> e in Add(b, Above(TimesR(b), 128))
  {
    hide *;
    var b := Mirror(t1);
    InAdd(b, Above(TimesR(b), 128), e);
    InAbove(TimesR(b), 128, e);
    InTimesR(b, e + 128);
    InMirror(FoldLow(t1), e); InMirror(t1, e);
    InMirror(t1, e + 128); InMirror(t1, e + 127); InMirror(t1, e + 126); InMirror(t1, e + 121);
    if e < 128 { CarryBits(t1, 127 - e); }
  }

  lemma InAbove(p: Poly, n: nat, j: nat)
    ensures j in Above(p, n) <==> j + n in p
  {
  }

  lemma MirrorFold(t1: Poly, t4: Poly)
    requires Is128(t1) && Is128(t4)
    ensures Mirror(FoldRegisters(t1, t4)) == FoldPoly(Mirror(t4), Mirror(t1))
  {
    var u := FoldLow(t1);
    var b := Mirror(u);
    MirrorFoldLow(t1);
    forall e: nat
      ensures e in Mirror(FoldRegisters(t1, t4)) <==> e in Add(Mirror(t4), Below(TimesR(b), 128))
    {
      hide *;
      MirrorFoldBit(t1, t4, e);
    }
    hide TimesR, FoldLow, FoldRegisters, Mirror, Add, Below;
    SameCoefficients(Mirror(FoldRegisters(t1, t4)), Add(Mirror(t4), Below(TimesR(b), 128)));
  }

  lemma MirrorFoldBit(t1: Poly, t4: Poly, e: nat)
    requires Is128(t1) && Is128(t4)
    ensures e in Mirror(FoldRegisters(t1, t4)) <==> e in Add(Mirror(t4), Below(TimesR(Mirror(FoldLow(t1))), 128))
  {
    var u := FoldLow(t1);
    var b := Mirror(u);
    InTimesR(b, e);
    InMirror(FoldRegisters(t1, t4), e); InMirror(t4, e); InMirror(u, e);
    if e >= 1 { InMirror(u, e - 1); }
    if e >= 2 { InMirror(u, e - 2); }
    if e >= 7 { InMirror(u, e - 7); }
    if e < 128 { FoldBits(t1, t4, 127 - e); FoldLowBound(t1, e); }
    hide TimesR, FoldLow, FoldRegisters, Mirror;
  }

  lemma FoldLowBound(t1: Poly, e: nat)
    requires Is128(t1)
    ensures forall p | p in FoldLow(t1) :: p < 128
  {
  }

  /** The 256-bit product w, as a polynomial e whose coefficients run the other way, reduced. */
  lemma ReducedIsEv(t1: Poly, t4: Poly, e: Poly)
    requires Is128(t1) && Is128(t4)
    requires forall k | k in e :: k <= 254
    requires forall k: nat | k <= 254 :: k in e <==> 254 - k in Add(Shift(t4, 128), t1)
    ensures Mirror(Reduced(t1, t4)) == Ev(e, {0}, 256)
  {
    var lo, hi := DoubleLow(t1), DoubleHigh(t1, t4);
    forall k: nat
      ensures k in e <==> k in Add(Mirror(hi), Shift(Mirror(lo), 128))
      ensures (k in lo ==> k < 128) && (k in hi ==> k < 128)
    {
      DoubleBits(t1, t4, k);
      if k < 128 { DoubleBits(t1, t4, 127 - k); } else if k < 256 { DoubleBits(t1, t4, 255 - k); }
      hide DoubleLow, DoubleHigh;
    }
    hide DoubleLow, DoubleHigh, FoldRegisters, FoldPoly, Mirror;
    MirrorFold(lo, hi);
    MirrorBlock(lo); MirrorBlock(hi);
    FoldPolyIsEv(Mirror(hi), Mirror(lo));
    SameCoefficients(e, Add(Mirror(hi), Shift(Mirror(lo), 128)));
    hide Add, Shift;
  }

  // ---- Products of registers ----

  /** A low, a middle and a high product of halves, put together. */
  function Total(lo: Poly, mid: Poly, hi: Poly): Poly { Add(Add(Shift(hi, 128), Shift(mid, 64)), lo) }

  lemma Combine(lo: Poly, mid: Poly, hi: Poly)
    requires Is128(mid) && Is128(lo) && Is128(hi)
    ensures Add(Shift(Add(hi, Srl(mid, 64)), 128), Add(lo, Sll(mid, 64))) == Total(lo, mid, hi)
    ensures Is128(Add(hi, Srl(mid, 64))) && Is128(Add(lo, Sll(mid, 64)))
  {
    assert forall k: nat :: k in Add(Shift(Add(hi, Srl(mid, 64)), 128), Add(lo, Sll(mid, 64))) <==>
        k in Total(lo, mid, hi);
    hide Shift, Above;
  }

  function Lows(h: Poly, d: Poly): Poly { Mul(Lo64(h), Lo64(d)) }
  function Highs(h: Poly, d: Poly): Poly { Mul(Hi64(h), Hi64(d)) }

  lemma HalvesMultiply(h: Poly, y: Poly)
    ensures Mul(h, y) == Total(Lows(h, y), Add(Mul(Hi64(h), Lo64(y)), Mul(Lo64(h), Hi64(y))), Highs(h, y))
    ensures Add(Mul(Hi64(h), Lo64(y)), Mul(Lo64(h), Hi64(y)))
         == Add(Mul(Add(Hi64(h), Lo64(h)), Add(Hi64(y), Lo64(y))), Add(Lows(h, y), Highs(h, y)))
  {
    hide Mul, Add, Shift, Above, Below;
    Split(h, 64); Split(y, 64);
    AddBasics(Lo64(h), Shift(Hi64(h), 64), {}); AddBasics(Lo64(y), Shift(Hi64(y), 64), {});
    Karatsuba(Hi64(h), Lo64(h), Hi64(y), Lo64(y), 64);
    MiddleIs(Hi64(h), Lo64(h), Hi64(y), Lo64(y));
    var c := Mul(Add(Hi64(h), Lo64(h)), Add(Hi64(y), Lo64(y)));
    AddBasics(c, Highs(h, y), Lows(h, y)); AddBasics(Highs(h, y), Lows(h, y), {});
  }

  lemma ProductsFit(h: Poly, y: Poly)
    requires Is128(h) && Is128(y)
    ensures Is128(Lows(h, y)) && Is128(Highs(h, y)) && Is128(Mul(Hi64(h), Lo64(y))) && Is128(Mul(Lo64(h), Hi64(y)))
  {
    hide Mul;
    MulBound(Lo64(h), Lo64(y), 64, 64); MulBound(Hi64(h), Hi64(y), 64, 64);
    MulBound(Hi64(h), Lo64(y), 64, 64); MulBound(Lo64(h), Hi64(y), 64, 64);
  }

  lemma AddFits(a: Poly, b: Poly)
    requires Is128(a) && Is128(b)
    ensures Is128(Add(a, b))
  {
  }

  lemma Is128Mirror(v: Poly)
    ensures Is128(Mirror(v))
  {
  }

  /** The register product of two blocks read as integers is their product in GF(2^128). */
  lemma MulRegistersIsGMul(h: Poly, y: Poly)
    requires Block(h) && Block(y)
    ensures Mirror(MulRegisters(Mirror(h), Mirror(y))) == GMul(y, h)
  {
    var rh, ry := Mirror(h), Mirror(y);
    Is128Mirror(h); Is128Mirror(y);
    ProductsFit(rh, ry);
    AddFits(Mul(Hi64(rh), Lo64(ry)), Mul(Lo64(rh), Hi64(ry)));
    HalvesMultiply(rh, ry);
    var t2 := Add(Mul(Hi64(rh), Lo64(ry)), Mul(Lo64(rh), Hi64(ry)));
    Combine(Lows(rh, ry), t2, Highs(rh, ry));
    hide Mul, Add, Sll, Srl, Lo64, Hi64, Mirror, Reduced, GMul, Shift;
    forall k: nat | k <= 254
      ensures k in Mul(y, h) <==> 254 - k in Mul(rh, ry)
    {
      MirrorMul(y, h, k);
      MulComm(rh, ry);
    }
    MulBound(y, h, 128, 128);
    ReducedIsEv(Add(Lows(rh, ry), Sll(t2, 64)), Add(Highs(rh, ry), Srl(t2, 64)), Mul(y, h));
    GMulIsReduced(y, h);
  }

  /** p_gmacPCLMUL128 is the block multiplication, and so agrees with s_gfmul. */
  lemma PclMulIsBlockMul(h: Bytes, y: Bytes)
    requires IsBlock(h) && IsBlock(y)
    ensures PclMul(Reg(h), y) == BlockMul(y, h)
  {
    hide MulRegisters, GMul, Mirror, Memory, BlockMul, Bits, Reg;
    RegIsMirror(h); RegIsMirror(y);
    BitsBlock(h); BitsBlock(y);
    MulRegistersIsGMul(Bits(h), Bits(y));
    BitsMemory(MulRegisters(Reg(h), Reg(y)));
    BitsBlockMul(y, h);
    SameBits(PclMul(Reg(h), y), BlockMul(y, h));
  }

  // ---- Four blocks, one reduction ----

  /** A power of the hash key with its halves added: an entry of h2. */
  function Halves(h: Poly): Poly { Add(SwapHalves(h), h) }

  function Sum4(a: Poly, b: Poly, c: Poly, d: Poly): Poly { Add(Add(a, b), Add(c, d)) }

  /** The reduction at the end of the wide loop's body, in its own order of additions. */
  function ReducedWide(a0: Poly, b0: Poly): Poly {
    var c0 := SrlLanes(a0, 31);
    var a1 := SllLanes(a0, 1) + Sll(c0, 32);
    var b1 := (SllLanes(b0, 1) + Sll(SrlLanes(b0, 31), 32)) + Srl(c0, 96);
    var c := Add(SllLanes(a1, 31), Add(SllLanes(a1, 30), SllLanes(a1, 25)));
    var a := Add(a1, Sll(c, 96));
    Add(b1, Add(a, Add(Add(SrlLanes(a, 1), Srl(c, 32)), Add(SrlLanes(a, 2), SrlLanes(a, 7)))))
  }

  /** The registers of the powers of the hash key: h, hh, hhh and hhhh, and the same with their halves added. */
  datatype Powers = Powers(h: Poly, hh: Poly, hhh: Poly, hhhh: Poly, h2: Poly, hh2: Poly, hhh2: Poly, hhhh2: Poly)

  /** The body of the wide loop on swapped registers. */
  function WideRegisters(w: Powers, d1: Poly, d2: Poly, d3: Poly, d4: Poly): Poly {
    var a := Sum4(Lows(w.hhhh, d1), Lows(w.hhh, d2), Lows(w.hh, d3), Lows(w.h, d4));
    var b := Sum4(Highs(w.hhhh, d1), Highs(w.hhh, d2), Highs(w.hh, d3), Highs(w.h, d4));
    var c := Add(Sum4(Lows(w.hhhh2, Halves(d1)), Lows(w.hhh2, Halves(d2)), Lows(w.hh2, Halves(d3)),
        Lows(w.h2, Halves(d4))), Add(a, b));
    ReducedWide(Add(Sll(c, 64), a), Add(Srl(c, 64), b))
  }

  lemma ReducedWideIsReduced(a: Poly, b: Poly)
    ensures ReducedWide(a, b) == Reduced(a, b)
  {
    hide Add, SrlLanes, SllLanes, Sll, Srl;
    var a1, b1 := DoubleLow(a), DoubleHigh(a, b);
    AddBasics(SllLanes(a1, 31), SllLanes(a1, 30), SllLanes(a1, 25));
    Reorder(b1, Srl(Carries(a1), 32), FoldLow(a1), SrlLanes(FoldLow(a1), 2), SrlLanes(FoldLow(a1), 7),
        SrlLanes(FoldLow(a1), 1));
  }

  lemma Reorder(b: Poly, c: Poly, u: Poly, u2: Poly, u7: Poly, u1: Poly)
    ensures Add(b, Add(u, Add(Add(u1, c), Add(u2, u7)))) == Add(Add(Add(Add(Add(b, c), u), u2), u7), u1)
  {
    var l, r := Add(b, Add(u, Add(Add(u1, c), Add(u2, u7)))), Add(Add(Add(Add(Add(b, c), u), u2), u7), u1);
    assert forall i: nat :: i in l <==> i in r;
    hide Add;
  }

  lemma HalvesLow(v: Poly)
    ensures Lo64(Halves(v)) == Lo64(Add(Hi64(v), Lo64(v)))
  {
    hide Add, Above, Shift;
    assert forall i: nat :: i in Lo64(Halves(v)) <==> i in Lo64(Add(Hi64(v), Lo64(v)));
  }

  lemma HalvesFold(v: Poly)
    requires Is128(v)
    ensures Lo64(Halves(v)) == Add(Hi64(v), Lo64(v))
  {
    HalvesLow(v);
    assert forall i | i in Add(Hi64(v), Lo64(v)) :: i < 64;
    hide Add, Above, Halves;
  }

  /** The total of a product of two registers, with the middle term as the wide loop computes it. */
  lemma ProductTotal(h: Poly, d: Poly)
    requires Is128(h) && Is128(d)
    ensures Mul(h, d) == Total(Lows(h, d), Add(Lows(Halves(h), Halves(d)), Add(Lows(h, d), Highs(h, d))), Highs(h, d))
    ensures Is128(Lows(h, d)) && Is128(Highs(h, d)) && Is128(Lows(Halves(h), Halves(d)))
  {
    HalvesMultiply(h, d);
    HalvesFold(h); HalvesFold(d);
    ProductsFit(h, d);
    hide Mul, Add, Halves;
    MulBound(Lo64(Halves(h)), Lo64(Halves(d)), 64, 64);
  }

  lemma TotalAdd(a: Poly, b: Poly, c: Poly, a': Poly, b': Poly, c': Poly)
    ensures Add(Total(a, b, c), Total(a', b', c')) == Total(Add(a, a'), Add(b, b'), Add(c, c'))
  {
    ShiftAdd(c, c', 128); ShiftAdd(b, b', 64);
    hide Add, Shift;
    AddSwap(Add(Shift(c, 128), Shift(b, 64)), a, Add(Shift(c', 128), Shift(b', 64)), a');
    AddSwap(Shift(c, 128), Shift(b, 64), Shift(c', 128), Shift(b', 64));
  }

  lemma ShiftAdd(a: Poly, b: Poly, n: nat)
    ensures Shift(Add(a, b), n) == Add(Shift(a, n), Shift(b, n))
  {
    hide Add;
    assert forall i: nat :: i in Shift(Add(a, b), n) <==> i in Add(Shift(a, n), Shift(b, n));
    hide Shift;
  }

  /** The sum of two products whose middle terms are still to be completed. */
  lemma PairTotal(l: Poly, m: Poly, h: Poly, l': Poly, m': Poly, h': Poly)
    ensures Add(Total(l, Add(m, Add(l, h)), h), Total(l', Add(m', Add(l', h')), h'))
         == Total(Add(l, l'), Add(Add(m, m'), Add(Add(l, l'), Add(h, h'))), Add(h, h'))
  {
    hide Add;
    TotalAdd(l, Add(m, Add(l, h)), h, l', Add(m', Add(l', h')), h');
    AddSwap(m, Add(l, h), m', Add(l', h')); AddSwap(l, h, l', h');
    hide Total;
  }

  ghost predicate AllBlocks(h1: Poly, h2: Poly, h3: Poly, h4: Poly) { Block(h1) && Block(h2) && Block(h3) && Block(h4) }

  /** The registers of four blocks, the first being the hash key itself. */
  function PowersOf(h1: Poly, h2: Poly, h3: Poly, h4: Poly): Powers {
    Powers(h1, h2, h3, h4, Halves(h1), Halves(h2), Halves(h3), Halves(h4))
  }

  lemma WideTotal(h1: Poly, h2: Poly, h3: Poly, h4: Poly, d1: Poly, d2: Poly, d3: Poly, d4: Poly)
    requires Is128(h1) && Is128(h2) && Is128(h3) && Is128(h4) && Is128(d1) && Is128(d2) && Is128(d3) && Is128(d4)
    ensures var a := Sum4(Lows(h4, d1), Lows(h3, d2), Lows(h2, d3), Lows(h1, d4));
      var b := Sum4(Highs(h4, d1), Highs(h3, d2), Highs(h2, d3), Highs(h1, d4));
      var c := Add(Sum4(Lows(Halves(h4), Halves(d1)), Lows(Halves(h3), Halves(d2)), Lows(Halves(h2), Halves(d3)),
          Lows(Halves(h1), Halves(d4))), Add(a, b));
      && Sum4(Mul(h4, d1), Mul(h3, d2), Mul(h2, d3), Mul(h1, d4)) == Total(a, c, b)
      && Is128(a) && Is128(b) && Is128(c)
  {
    hide Mul, Add, Lows, Highs, Halves, Total, Is128;
    ProductTotal(h4, d1); ProductTotal(h3, d2); ProductTotal(h2, d3); ProductTotal(h1, d4);
    var l1, l2, l3, l4 := Lows(h4, d1), Lows(h3, d2), Lows(h2, d3), Lows(h1, d4);
    var g1, g2, g3, g4 := Highs(h4, d1), Highs(h3, d2), Highs(h2, d3), Highs(h1, d4);
    var m1, m2, m3, m4 := Lows(Halves(h4), Halves(d1)), Lows(Halves(h3), Halves(d2)), Lows(Halves(h2), Halves(d3)),
        Lows(Halves(h1), Halves(d4));
    PairTotal(l1, m1, g1, l2, m2, g2);
    PairTotal(l3, m3, g3, l4, m4, g4);
    PairTotal(Add(l1, l2), Add(m1, m2), Add(g1, g2), Add(l3, l4), Add(m3, m4), Add(g3, g4));
    Sum4Fits(l1, l2, l3, l4); Sum4Fits(g1, g2, g3, g4); Sum4Fits(m1, m2, m3, m4);
    AddFits(Sum4(l1, l2, l3, l4), Sum4(g1, g2, g3, g4));
    AddFits(Sum4(m1, m2, m3, m4), Add(Sum4(l1, l2, l3, l4), Sum4(g1, g2, g3, g4)));
  }

  lemma Sum4Fits(a: Poly, b: Poly, c: Poly, d: Poly)
    requires Is128(a) && Is128(b) && Is128(c) && Is128(d)
    ensures Is128(Sum4(a, b, c, d))
  {
    hide Add, Is128;
    AddFits(a, b); AddFits(c, d); AddFits(Add(a, b), Add(c, d));
  }

  lemma Sum4Mirrors(k: nat, h1: Poly, h2: Poly, h3: Poly, h4: Poly, d1: Poly, d2: Poly, d3: Poly, d4: Poly)
    requires AllBlocks(h1, h2, h3, h4) && AllBlocks(d1, d2, d3, d4) && k <= 254
    ensures k in Sum4(Mul(d1, h4), Mul(d2, h3), Mul(d3, h2), Mul(d4, h1))
      <==> 254 - k in Sum4(Mul(Mirror(h4), Mirror(d1)), Mul(Mirror(h3), Mirror(d2)), Mul(Mirror(h2), Mirror(d3)),
          Mul(Mirror(h1), Mirror(d4)))
  {
    hide Mul, Mirror;
    MirrorMul(d1, h4, k); MirrorMul(d2, h3, k); MirrorMul(d3, h2, k); MirrorMul(d4, h1, k);
    MulComm(Mirror(h4), Mirror(d1)); MulComm(Mirror(h3), Mirror(d2)); MulComm(Mirror(h2), Mirror(d3));
    MulComm(Mirror(h1), Mirror(d4));
    hide Add;
  }

  lemma Sum4Small(a: Poly, b: Poly, c: Poly, d: Poly)
    requires forall k | k in a :: k + 1 < 256
    requires forall k | k in b :: k + 1 < 256
    requires forall k | k in c :: k + 1 < 256
    requires forall k | k in d :: k + 1 < 256
    ensures forall k | k in Sum4(a, b, c, d) :: k <= 254
  {
  }

  lemma EvSum4(a: Poly, b: Poly, c: Poly, d: Poly)
    ensures Ev(Sum4(a, b, c, d), {0}, 256) == Sum4(Ev(a, {0}, 256), Ev(b, {0}, 256), Ev(c, {0}, 256), Ev(d, {0}, 256))
  {
    hide Add, Ev;
    EvAdd(a, b, {0}, 256); EvAdd(c, d, {0}, 256); EvAdd(Add(a, b), Add(c, d), {0}, 256);
  }

  /** The wide loop's body adds the four products in GF(2^128). */
  lemma WideIsSum(h1: Poly, h2: Poly, h3: Poly, h4: Poly, d1: Poly, d2: Poly, d3: Poly, d4: Poly)
    requires AllBlocks(h1, h2, h3, h4) && AllBlocks(d1, d2, d3, d4)
    ensures Mirror(WideRegisters(PowersOf(Mirror(h1), Mirror(h2), Mirror(h3), Mirror(h4)), Mirror(d1), Mirror(d2),
      Mirror(d3), Mirror(d4)))
         == Sum4(GMul(d1, h4), GMul(d2, h3), GMul(d3, h2), GMul(d4, h1))
  {
    Is128Mirror(h1); Is128Mirror(h2); Is128Mirror(h3); Is128Mirror(h4);
    Is128Mirror(d1); Is128Mirror(d2); Is128Mirror(d3); Is128Mirror(d4);
    hide Mul, Add, Mirror, GMul, Lows, Highs, Halves, Sll, Srl, Shift, Reduced, ReducedWide, Ev;
    var m1, m2, m3, m4, e1, e2, e3, e4 := Mirror(h1), Mirror(h2), Mirror(h3), Mirror(h4), Mirror(d1), Mirror(d2),
        Mirror(d3), Mirror(d4);
    WideTotal(m1, m2, m3, m4, e1, e2, e3, e4);
    var a := Sum4(Lows(m4, e1), Lows(m3, e2), Lows(m2, e3), Lows(m1, e4));
    var b := Sum4(Highs(m4, e1), Highs(m3, e2), Highs(m2, e3), Highs(m1, e4));
    var c := Add(Sum4(Lows(Halves(m4), Halves(e1)), Lows(Halves(m3), Halves(e2)), Lows(Halves(m2), Halves(e3)),
        Lows(Halves(m1), Halves(e4))), Add(a, b));
    Combine(a, c, b);
    AddBasics(Sll(c, 64), a, {}); AddBasics(Srl(c, 64), b, {});
    var lo, hi := Add(a, Sll(c, 64)), Add(b, Srl(c, 64));
    ReducedWideIsReduced(lo, hi);
    var p := Sum4(Mul(d1, h4), Mul(d2, h3), Mul(d3, h2), Mul(d4, h1));
    MulBound(d1, h4, 128, 128); MulBound(d2, h3, 128, 128); MulBound(d3, h2, 128, 128); MulBound(d4, h1, 128, 128);
    Sum4Small(Mul(d1, h4), Mul(d2, h3), Mul(d3, h2), Mul(d4, h1));
    forall k: nat | k <= 254
      ensures k in p <==> 254 - k in Add(Shift(hi, 128), lo)
    {
      Sum4Mirrors(k, h1, h2, h3, h4, d1, d2, d3, d4);
      hide Sum4;
    }
    hide Sum4;
    ReducedIsEv(lo, hi, p);
    EvSum4(Mul(d1, h4), Mul(d2, h3), Mul(d3, h2), Mul(d4, h1));
    GMulIsReduced(d1, h4); GMulIsReduced(d2, h3); GMulIsReduced(d3, h2); GMulIsReduced(d4, h1);
  }

  // ---- The aggregated step is four one-block steps ----

  lemma PowerUp(d: Poly, p: Poly, h: Poly)
    requires Block(d) && Block(p) && Block(h)
    ensures GMul(GMul(d, p), h) == GMul(d, GMul(p, h))
  {
    GMulAssoc(d, p, h);
  }

  /** Horner's rule with the powers of the hash key multiplied out. */
  lemma HornerIsSum(h: Poly, d1: Poly, d2: Poly, d3: Poly, d4: Poly)
    requires Block(h) && AllBlocks(d1, d2, d3, d4)
    ensures var hh := GMul(h, h); var hhh := GMul(hh, h); var hhhh := GMul(hhh, h);
      GMul(Add(GMul(Add(GMul(Add(GMul(d1, h), d2), h), d3), h), d4), h)
      == Sum4(GMul(d1, hhhh), GMul(d2, hhh), GMul(d3, hh), GMul(d4, h))
  {
    hide GMul, Add;
    var hh := GMul(h, h); var hhh := GMul(hh, h);
    GMulBlock(h, h); GMulBlock(hh, h);
    GMulAddLeft(GMul(d1, h), d2, h);
    PowerUp(d1, h, h);
    GMulAddLeft(Add(GMul(d1, hh), GMul(d2, h)), d3, h);
    GMulAddLeft(GMul(d1, hh), GMul(d2, h), h);
    PowerUp(d1, hh, h); PowerUp(d2, h, h);
    GMulAddLeft(Add(Add(GMul(d1, hhh), GMul(d2, hh)), GMul(d3, h)), d4, h);
    GMulAddLeft(Add(GMul(d1, hhh), GMul(d2, hh)), GMul(d3, h), h);
    GMulAddLeft(GMul(d1, hhh), GMul(d2, hh), h);
    PowerUp(d1, hhh, h); PowerUp(d2, hh, h); PowerUp(d3, h, h);
    AddBasics(Add(GMul(d1, GMul(hhh, h)), GMul(d2, hhh)), GMul(d3, hh), GMul(d4, h));
  }

  /** The powers of the hash key that p_init_aesni stores. */
  ghost predicate IsPowers(w: Powers, h: Bytes) {
    && IsBlock(h)
    && var hh := BlockMul(h, h); var hhh := BlockMul(hh, h); var hhhh := BlockMul(hhh, h);
       w == PowersOf(Reg(h), Reg(hh), Reg(hhh), Reg(hhhh))
  }

  /** The end of p_init_aesni, from the hash key in memory order. */
  method InitPowers(h: Bytes) returns (w: Powers)
    requires IsBlock(h)
    ensures IsPowers(w, h)
  {
    hide Reg, PclMul, BlockMul, SwapHalves, Add;
    var hswap := Reg(h);
    var hh := PclMul(hswap, h);
    PclMulIsBlockMul(h, h);
    var hhh := PclMul(hswap, hh);
    PclMulIsBlockMul(h, hh);
    var hhhh := PclMul(hswap, hhh);
    PclMulIsBlockMul(h, hhh);
    w := Powers(hswap, Reg(hh), Reg(hhh), Reg(hhhh),
                Add(SwapHalves(hswap), hswap), Add(SwapHalves(Reg(hh)), Reg(hh)),
                Add(SwapHalves(Reg(hhh)), Reg(hhh)), Add(SwapHalves(Reg(hhhh)), Reg(hhhh)));
  }

  /** The body of the wide loop. */
  function WideStep(w: Powers, y: Bytes, b1: Bytes, b2: Bytes, b3: Bytes, b4: Bytes): (z: Bytes)
    requires IsBlock(y) && IsBlock(b1) && IsBlock(b2) && IsBlock(b3) && IsBlock(b4)
    ensures IsBlock(z)
  {
    Memory(WideRegisters(w, Reg(Xor(y, b1)), Reg(b2), Reg(b3), Reg(b4)))
  }

  /** One block absorbed. */
  function Absorb(h: Bytes, y: Bytes, b: Bytes): (z: Bytes)
    requires IsBlock(h) && IsBlock(y) && IsBlock(b)
    ensures IsBlock(z)
  {
    BlockMul(Xor(y, b), h)
  }

  lemma BitsAbsorb(h: Bytes, y: Bytes, b: Bytes)
    requires IsBlock(h) && IsBlock(y) && IsBlock(b)
    ensures Bits(Absorb(h, y, b)) == GMul(Add(Bits(y), Bits(b)), Bits(h))
  {
    hide GMul, Bits, BlockMul, Xor, Add;
    BitsBlockMul(Xor(y, b), h);
    BitsXor(y, b);
  }

  lemma BitsWideStep(w: Powers, h: Bytes, y: Bytes, b1: Bytes, b2: Bytes, b3: Bytes, b4: Bytes)
    requires IsPowers(w, h) && IsBlock(y) && IsBlock(b1) && IsBlock(b2) && IsBlock(b3) && IsBlock(b4)
    ensures var k := Bits(h); var kk := GMul(k, k); var kkk := GMul(kk, k);
      Bits(WideStep(w, y, b1, b2, b3, b4))
      == Sum4(GMul(Add(Bits(y), Bits(b1)), GMul(kkk, k)), GMul(Bits(b2), kkk), GMul(Bits(b3), kk), GMul(Bits(b4), k))
  {
    hide GMul, Bits, BlockMul, Xor, Reg, Memory, WideRegisters, Mirror, Add, Sum4, Halves;
    var hh := BlockMul(h, h); var hhh := BlockMul(hh, h); var hhhh := BlockMul(hhh, h);
    BitsBlockMul(h, h); BitsBlockMul(hh, h); BitsBlockMul(hhh, h);
    BitsXor(y, b1);
    BitsBlock(h); BitsBlock(hh); BitsBlock(hhh); BitsBlock(hhhh);
    BitsBlock(Xor(y, b1)); BitsBlock(b2); BitsBlock(b3); BitsBlock(b4);
    RegIsMirror(h); RegIsMirror(hh); RegIsMirror(hhh); RegIsMirror(hhhh);
    RegIsMirror(Xor(y, b1)); RegIsMirror(b2); RegIsMirror(b3); RegIsMirror(b4);
    BitsMemory(WideRegisters(w, Reg(Xor(y, b1)), Reg(b2), Reg(b3), Reg(b4)));
    WideIsSum(Bits(h), Bits(hh), Bits(hhh), Bits(hhhh), Bits(Xor(y, b1)), Bits(b2), Bits(b3), Bits(b4));
  }

  /** The aggregated step equals four one-block steps. */
  lemma WideStepIsFourSteps(w: Powers, h: Bytes, y: Bytes, b1: Bytes, b2: Bytes, b3: Bytes, b4: Bytes)
    requires IsPowers(w, h) && IsBlock(y) && IsBlock(b1) && IsBlock(b2) && IsBlock(b3) && IsBlock(b4)
    ensures WideStep(w, y, b1, b2, b3, b4) == Absorb(h, Absorb(h, Absorb(h, Absorb(h, y, b1), b2), b3), b4)
  {
    assert IsBlock(h);
    hide GMul, Bits, WideStep, Absorb, Add, Sum4, IsPowers;
    var y1 := Absorb(h, y, b1); var y2 := Absorb(h, y1, b2); var y3 := Absorb(h, y2, b3);
    BitsAbsorb(h, y, b1); BitsAbsorb(h, y1, b2); BitsAbsorb(h, y2, b3); BitsAbsorb(h, y3, b4);
    BitsWideStep(w, h, y, b1, b2, b3, b4);
    BitsBlock(h); BitsBlock(y); BitsBlock(b1); BitsBlock(b2); BitsBlock(b3); BitsBlock(b4);
    AddFits(Bits(y), Bits(b1));
    HornerIsSum(Bits(h), Add(Bits(y), Bits(b1)), Bits(b2), Bits(b3), Bits(b4));
    SameBits(WideStep(w, y, b1, b2, b3, b4), Absorb(h, y3, b4));
  }

  // ---- The streaming update ----

  lemma HashedFour(w: Powers, h: Bytes, data: Bytes, blocks: nat, y: Bytes, b1: Bytes, b2: Bytes, b3: Bytes, b4: Bytes)
    requires IsPowers(w, h) && Hashed(h, data, blocks, y, []) && IsBlock(b1) && IsBlock(b2) && IsBlock(b3)
    requires IsBlock(b4)
    ensures IsBlock(y) && Hashed(h, data + b1 + b2 + b3 + b4, blocks + 4, WideStep(w, y, b1, b2, b3, b4), [])
  {
    hide Hashed, WideStep, IsPowers;
    var y1 := HashedOne(h, data, blocks, y, b1);
    var y2 := HashedOne(h, data + b1, blocks + 1, y1, b2);
    var y3 := HashedOne(h, data + b1 + b2, blocks + 2, y2, b3);
    var y4 := HashedOne(h, data + b1 + b2 + b3, blocks + 3, y3, b4);
    WideStepIsFourSteps(w, h, y, b1, b2, b3, b4);
  }

  lemma HashedOne(h: Bytes, data: Bytes, blocks: nat, y: Bytes, b: Bytes) returns (z: Bytes)
    requires Hashed(h, data, blocks, y, []) && IsBlock(b)
    ensures IsBlock(h) && IsBlock(y) && z == Absorb(h, y, b) && Hashed(h, data + b, blocks + 1, z, [])
  {
    hide BlockMul, Xor, Ghash;
    HashedMore(h, data, blocks, y, [], b);
    assert [] + b == b;
    HashedBlock(h, data + b, blocks, y, b);
    z := Absorb(h, y, b);
  }

  class NiGmac {
    const w: Powers
    const r: array<bv8>
    var rp: nat
    var y: Bytes
    ghost const h: Bytes
    ghost var data: Bytes
    ghost var blocks: nat

    ghost predicate Streaming(z: Bytes, tail: Bytes)
      reads this
    {
      IsPowers(w, h) && r.Length == 16 && Hashed(h, data, blocks, z, tail)
    }

    /** The same state that the one-block code keeps. */
    ghost predicate Valid()
      reads this, r
    {
      rp < 16 && r.Length == 16 && Streaming(y, r[..rp])
    }

    constructor (h: Bytes)
      requires IsBlock(h)
      ensures Valid() && data == [] && this.h == h && fresh(r)
    {
      hide Hashed, IsPowers;
      var powers := InitPowers(h);
      w := powers;
      r := new bv8[16](i => 0);
      this.h := h;
      rp, y, data, blocks := 0, Zero16(), [], 0;
      new;
      HashedNothing(h);
      assert r[..0] == [];
    }

    /** Hashes one block. */
    method HashBlock(b: Bytes)
      requires Streaming(y, []) && IsBlock(b)
      modifies `y, `data, `blocks
      ensures Streaming(y, []) && data == old(data) + b
    {
      hide Hashed, BlockMul, Reg;
      ghost var z := HashedOne(h, data, blocks, y, b);
      y := PclMul(w.h, Xor(y, b));
      PclMulIsBlockMul(h, Xor(old(y), b));
      data, blocks := data + b, blocks + 1;
    }

    /** The first loop of the update: completes the block that waits in r, if the input reaches that far. */
    method FillTail(input: Bytes) returns (i: nat)
      requires 0 < rp < 16 && r.Length == 16 && Streaming(y, r[..rp])
      modifies r, `rp, `data, `y, `blocks
      ensures i <= |input| && data == old(data) + input[..i]
      ensures if rp == 16 then Streaming(y, []) else i == |input| && rp < 16 && Streaming(y, r[..rp])
    {
      hide Streaming;
      i := 0;
      ghost var start := data;
      while true
        invariant 0 < rp < 16 && 0 <= i <= |input| && Streaming(y, r[..rp]) && data == start + input[..i]
        decreases |input| - i
      {
        if i == |input| { return; }
        PushByte(input[i]);
        i := i + 1;
        assert start + input[..i] == start + input[..i - 1] + [input[i - 1]];
        if rp == 16 {
          assert r[..rp] == r[..];
          HashWaiting();
          return;
        }
      }
    }

    method PushByte(b: bv8)
      requires r.Length == 16 && rp < 16 && Streaming(y, r[..rp])
      modifies r, `rp, `data
      ensures rp == old(rp) + 1 && Streaming(y, r[..rp]) && data == old(data) + [b]
    {
      hide Hashed, IsPowers;
      HashedMore(h, data, blocks, y, r[..rp], [b]);
      r[rp] := b;
      assert r[..rp + 1] == old(r[..rp]) + [b];
      data, rp := data + [b], rp + 1;
    }

    method HashWaiting()
      requires r.Length == 16 && Streaming(y, r[..])
      modifies `y, `blocks
      ensures Streaming(y, [])
    {
      hide Hashed, BlockMul, Reg;
      HashedBlock(h, data, blocks, y, r[..]);
      y := PclMul(w.h, Xor(y, r[..]));
      PclMulIsBlockMul(h, Xor(old(y), r[..]));
      blocks := blocks + 1;
    }

    /** The wide loop: four blocks a turn. */
    method HashWide(input: Bytes, from: nat) returns (i: nat)
      requires Streaming(y, []) && from <= |input|
      modifies `data, `y, `blocks
      ensures from <= i <= |input| < i + 64 && data == old(data) + input[from..i] && Streaming(y, [])
    {
      hide Hashed, IsPowers, WideStep;
      i := from;
      ghost var start := data;
      while |input| - i >= 64
        invariant from <= i <= |input| && Streaming(y, []) && data == start + input[from..i]
      {
        var b1, b2, b3, b4 := input[i..i + 16], input[i + 16..i + 32], input[i + 32..i + 48], input[i + 48..i + 64];
        HashedFour(w, h, data, blocks, y, b1, b2, b3, b4);
        y := WideStep(w, y, b1, b2, b3, b4);
        FourPieces(start, input, from, i);
        data, blocks := data + b1 + b2 + b3 + b4, blocks + 4;
        i := i + 64;
      }
    }

    /** The one-block loop. */
    method HashWhole(input: Bytes, from: nat) returns (i: nat)
      requires Streaming(y, []) && from <= |input|
      modifies `data, `y, `blocks
      ensures from <= i <= |input| < i + 16 && data == old(data) + input[from..i] && Streaming(y, [])
    {
      hide Streaming;
      i := from;
      ghost var start := data;
      while |input| - i >= 16
        invariant from <= i <= |input| && Streaming(y, []) && data == start + input[from..i]
      {
        HashBlock(input[i..i + 16]);
        i := i + 16;
        assert start + input[from..i] == start + input[from..i - 16] + input[i - 16..i];
      }
    }

    /** The last loop: fewer than sixteen bytes stay in r. */
    method KeepRest(rest: Bytes)
      requires r.Length == 16 && Streaming(y, []) && |rest| < 16
      modifies r, `rp, `data
      ensures Valid() && rp == |rest| && data == old(data) + rest
    {
      hide Hashed, IsPowers;
      HashedMore(h, data, blocks, y, [], rest);
      assert [] + rest == rest;
      data := data + rest;
      for j := 0 to |rest|
        invariant Streaming(y, rest) && data == old(data) + rest && r[..j] == rest[..j]
      {
        r[j] := rest[j];
      }
      rp := |rest|;
      assert rest[..|rest|] == rest;
    }

    /** p_aesNIUpdate: for every input it leaves the state that hashing block by block would. */
    method Update(input: Bytes)
      requires Valid()
      modifies this, r
      ensures Valid() && data == old(data) + input
    {
      hide Streaming;
      ghost var start := data;
      var i := 0;
      if rp != 0 {
        i := FillTail(input);
        if rp < 16 {
          assert input[..i] == input;
          return;
        }
      } else {
        assert r[..rp] == [] && start + input[..0] == start;
      }
      assert data == start + input[..i];
      var j := HashWide(input, i);
      var k := HashWhole(input, j);
      KeepRest(input[k..]);
      assert start + input == start + input[..i] + input[i..j] + input[j..k] + input[k..];
    }
  }

  lemma FourPieces(start: Bytes, input: Bytes, from: nat, i: nat)
    requires from <= i && i + 64 <= |input|
    ensures start + input[from..i] + input[i..i + 16] + input[i + 16..i + 32] + input[i + 32..i + 48]
      + input[i + 48..i + 64]
         == start + input[from..i + 64]
  {
  }

  /** After the same data, the wide update and the one-block update hold the same hash and the same tail. */
  lemma StateIsDetermined(h: Bytes, data: Bytes, n: nat, y: Bytes, tail: Bytes, n': nat, y': Bytes, tail': Bytes)
    requires Hashed(h, data, n, y, tail) && |tail| < 16
    requires Hashed(h, data, n', y', tail') && |tail'| < 16
    ensures y == y' && tail == tail'
  {
    assert n == n';
    hide Ghash;
  }
}
