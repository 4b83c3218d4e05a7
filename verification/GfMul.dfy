/** The software block multiplication s_gfmul: nine 32-bit carry-less products joined by Karatsuba's identity at
    two levels, then a word-level reduction. A machine word is the set of the positions of its one bits. */
module GfMul {
  import opened Gf2Poly
  import opened WideMul
  import opened Gf128

  ghost predicate Is64(w: Poly) { forall i | i in w :: i < 64 }

  function Hi32(w: Poly): Poly { Above(w, 32) }
  function Lo32(w: Poly): Poly { Below(w, 32) }
  function Join(h: Poly, l: Poly): Poly { Shift(h, 32) + l }
  function Shl(w: Poly, k: nat): Poly { Below(Shift(w, k), 64) }
  function Shr(w: Poly, k: nat): Poly { Above(w, k) }

  // ---- Karatsuba ----

  /** The middle term of Karatsuba's identity. */
  function Middle(y1: Poly, y0: Poly, h1: Poly, h0: Poly): Poly {
    Add(Add(Mul(Add(y1, y0), Add(h1, h0)), Mul(y1, h1)), Mul(y0, h0))
  }

  lemma Karatsuba(y1: Poly, y0: Poly, h1: Poly, h0: Poly, n: nat)
    ensures Mul(Add(Shift(y1, n), y0), Add(Shift(h1, n), h0))
         == Add(Add(Shift(Mul(y1, h1), n + n), Shift(Middle(y1, y0, h1, h0), n)), Mul(y0, h0))
  {
    hide Mul;
    var s := Add(Shift(h1, n), h0);
    MulAddLeft(Shift(y1, n), y0, s);
    MulShiftLeft(y1, s, n);
    MulAddRight(y1, Shift(h1, n), h0); MulShiftRight(y1, h1, n);
    MulAddRight(y0, Shift(h1, n), h0); MulShiftRight(y0, h1, n);
    MiddleIs(y1, y0, h1, h0);
    Collect(Mul(y1, h1), Mul(y1, h0), Mul(y0, h1), Mul(y0, h0), n);
  }

  lemma MiddleIs(y1: Poly, y0: Poly, h1: Poly, h0: Poly)
    ensures Middle(y1, y0, h1, h0) == Add(Mul(y1, h0), Mul(y0, h1))
  {
    hide Mul;
    MulAddLeft(y1, y0, Add(h1, h0));
    MulAddRight(y1, h1, h0); MulAddRight(y0, h1, h0);
    Cancel(Mul(y1, h1), Mul(y1, h0), Mul(y0, h1), Mul(y0, h0));
  }

  lemma Cancel(a: Poly, b: Poly, c: Poly, d: Poly)
    ensures Add(Add(Add(Add(a, b), Add(c, d)), a), d) == Add(b, c)
  {
    hide Add, Shift, Above;
    assert forall i: nat :: i in Add(Add(Add(Add(a, b), Add(c, d)), a), d) <==> i in Add(b, c);
  }

  lemma Collect(a: Poly, b: Poly, c: Poly, d: Poly, n: nat)
    ensures Add(Shift(Add(Shift(a, n), b), n), Add(Shift(c, n), d))
         == Add(Add(Shift(a, n + n), Shift(Add(b, c), n)), d)
  {
    hide Add, Shift, Above;
    assert forall i: nat :: i in Add(Shift(Add(Shift(a, n), b), n), Add(Shift(c, n), d))
                       <==> i in Add(Add(Shift(a, n + n), Shift(Add(b, c), n)), d);
  }

  lemma JoinSplit(w: Poly)
    ensures w == Add(Shift(Hi32(w), 32), Lo32(w)) == Join(Hi32(w), Lo32(w))
  {
  }

  lemma MulBound(x: Poly, y: Poly, n: nat, m: nat)
    requires forall i | i in x :: i < n
    requires forall i | i in y :: i < m
    ensures forall k | k in Mul(x, y) :: k + 1 < n + m
  {
  }

  /** A 128-bit word out of four 32-bit ones. */
  function Quad(a: Poly, b: Poly, c: Poly, d: Poly): Poly {
    Add(Shift(Join(a, b), 64), Join(c, d))
  }

  /** One of the three groups of s_gfmul: three s_bmul32 products give a 64 x 64 bit product as four words. */
  function Group(yh: Poly, yl: Poly, hh: Poly, hl: Poly): (r: (Poly, Poly, Poly, Poly)) {
    var a, b, c := BMul32(yh, hh), BMul32(yl, hl), BMul32(Add(yh, yl), Add(hh, hl));
    var ah, al, bh, bl := Hi32(a), Lo32(a), Hi32(b), Lo32(b);
    var ch := Add(Hi32(c), Add(ah, bh));
    var cl := Add(Lo32(c), Add(al, bl));
    (ah, Add(al, ch), Add(bh, cl), bl)
  }

  lemma GroupIsMul(yh: Poly, yl: Poly, hh: Poly, hl: Poly)
    requires Is32(yh) && Is32(yl) && Is32(hh) && Is32(hl)
    ensures var (a, b, c, d) := Group(yh, yl, hh, hl);
            Quad(a, b, c, d) == Mul(Add(Shift(yh, 32), yl), Add(Shift(hh, 32), hl))
            && Is32(a) && Is32(b) && Is32(c) && Is32(d)
  {
    hide BMul32, Mul;
    BMul32IsMul(yh, hh); BMul32IsMul(yl, hl); BMul32IsMul(Add(yh, yl), Add(hh, hl));
    Karatsuba(yh, yl, hh, hl, 32);
    MulBound(yh, hh, 32, 32); MulBound(yl, hl, 32, 32); MulBound(Add(yh, yl), Add(hh, hl), 32, 32);
    GroupWords(Mul(yh, hh), Mul(yl, hl), Mul(Add(yh, yl), Add(hh, hl)));
  }

  lemma InQuad(a: Poly, b: Poly, c: Poly, d: Poly, i: nat)
    requires Is32(a) && Is32(b) && Is32(c) && Is32(d)
    ensures i in Quad(a, b, c, d) <==>
      if i < 32 then i in d else if i < 64 then i - 32 in c else if i < 96 then i - 64 in b else i - 96 in a
  {
    hide Add, Shift, Above;
  }

  lemma GroupWords(a: Poly, b: Poly, c: Poly)
    requires Is64(a) && Is64(b) && Is64(c)
    ensures var ch := Add(Hi32(c), Add(Hi32(a), Hi32(b)));
            var cl := Add(Lo32(c), Add(Lo32(a), Lo32(b)));
            Quad(Hi32(a), Add(Lo32(a), ch), Add(Hi32(b), cl), Lo32(b)) ==
                Add(Add(Shift(a, 64), Shift(Add(Add(c, a), b), 32)), b)
            && Is32(Hi32(a)) && Is32(Add(Lo32(a), ch)) && Is32(Add(Hi32(b), cl)) && Is32(Lo32(b))
  {
    hide Add, Shift, Above;
    hide Quad;
    var ch := Add(Hi32(c), Add(Hi32(a), Hi32(b)));
    var cl := Add(Lo32(c), Add(Lo32(a), Lo32(b)));
    forall i: nat
      ensures i in Quad(Hi32(a), Add(Lo32(a), ch), Add(Hi32(b), cl), Lo32(b)) <==>
        i in Add(Add(Shift(a, 64), Shift(Add(Add(c, a), b), 32)), b)
    {
      InQuad(Hi32(a), Add(Lo32(a), ch), Add(Hi32(b), cl), Lo32(b), i);
    }
  }

  // ---- 128 x 128 bits ----

  /** A 256-bit word out of four 64-bit ones. */
  function Wide(a: Poly, b: Poly, c: Poly, d: Poly): Poly {
    Add(Shift(Add(Shift(a, 64), b), 128), Add(Shift(c, 64), d))
  }

  lemma InWide(a: Poly, b: Poly, c: Poly, d: Poly, i: nat)
    requires Is64(a) && Is64(b) && Is64(c) && Is64(d)
    ensures i in Wide(a, b, c, d) <==>
      if i < 64 then i in d else if i < 128 then i - 64 in c else if i < 192 then i - 128 in b else i - 192 in a
  {
    hide Add, Shift, Above;
  }

  /** The unreduced product, before it is shifted left by one: the part of s_gfmul up to zll. */
  function Unreduced(hh: Poly, hl: Poly, yl: Poly, yh: Poly): (Poly, Poly, Poly, Poly) {
    var (hhh, hhl, hlh, hll) := (Hi32(hh), Lo32(hh), Hi32(hl), Lo32(hl));
    var (cilh, cill, cihh, cihl) := (Hi32(yh), Lo32(yh), Hi32(yl), Lo32(yl));
    var (aah, aal, abh, abl) := Group(cihh, cihl, hhh, hhl);
    var (bah, bal, bbh, bbl) := Group(cilh, cill, hlh, hll);
    var (cah0, cal0, cbh0, cbl0) := Group(Add(cihh, cilh), Add(cihl, cill), Add(hhh, hlh), Add(hhl, hll));
    var cah, cal := Add(cah0, Add(bah, aah)), Add(cal0, Add(bal, aal));
    var cbh, cbl := Add(cbh0, Add(bbh, abh)), Add(cbl0, Add(bbl, abl));
    (Join(aah, aal), Add(Join(abh, abl), Join(cah, cal)), Add(Join(bah, bal), Join(cbh, cbl)), Join(bbh, bbl))
  }

  lemma UnreducedIsMul(hh: Poly, hl: Poly, yl: Poly, yh: Poly)
    requires Is64(hh) && Is64(hl) && Is64(yl) && Is64(yh)
    ensures var (a, b, c, d) := Unreduced(hh, hl, yl, yh);
            Wide(a, b, c, d) == Mul(Add(Shift(yl, 64), yh), Add(Shift(hh, 64), hl))
            && Is64(a) && Is64(b) && Is64(c) && Is64(d)
  {
    hide Group, Mul, Quad, Wide;
    var (hhh, hhl, hlh, hll) := (Hi32(hh), Lo32(hh), Hi32(hl), Lo32(hl));
    var (cilh, cill, cihh, cihl) := (Hi32(yh), Lo32(yh), Hi32(yl), Lo32(yl));
    GroupIsMul(cihh, cihl, hhh, hhl);
    GroupIsMul(cilh, cill, hlh, hll);
    GroupIsMul(Add(cihh, cilh), Add(cihl, cill), Add(hhh, hlh), Add(hhl, hll));
    JoinSplit(hh); JoinSplit(hl); JoinSplit(yl); JoinSplit(yh);
    AddJoin(cihh, cihl, cilh, cill); AddJoin(hhh, hhl, hlh, hll);
    Karatsuba(yl, yh, hh, hl, 64);
    var (a0, a1, a2, a3) := Group(cihh, cihl, hhh, hhl);
    var (b0, b1, b2, b3) := Group(cilh, cill, hlh, hll);
    var (c0, c1, c2, c3) := Group(Add(cihh, cilh), Add(cihl, cill), Add(hhh, hlh), Add(hhl, hll));
    WideWords(a0, a1, a2, a3, b0, b1, b2, b3, c0, c1, c2, c3);
  }

  lemma AddJoin(a: Poly, b: Poly, c: Poly, d: Poly)
    ensures Add(Add(Shift(a, 32), b), Add(Shift(c, 32), d)) == Add(Shift(Add(a, c), 32), Add(b, d))
  {
    hide Add, Shift, Above;
    assert forall i: nat :: i in Add(Add(Shift(a, 32), b), Add(Shift(c, 32), d)) <==>
        i in Add(Shift(Add(a, c), 32), Add(b, d));
  }

  lemma WideWords(a0: Poly, a1: Poly, a2: Poly, a3: Poly, b0: Poly, b1: Poly, b2: Poly, b3: Poly, c0: Poly, c1: Poly,
      c2: Poly, c3: Poly)
    requires Is32(a0) && Is32(a1) && Is32(a2) && Is32(a3)
    requires Is32(b0) && Is32(b1) && Is32(b2) && Is32(b3)
    requires Is32(c0) && Is32(c1) && Is32(c2) && Is32(c3)
    ensures var cah, cal := Add(c0, Add(b0, a0)), Add(c1, Add(b1, a1));
            var cbh, cbl := Add(c2, Add(b2, a2)), Add(c3, Add(b3, a3));
            var za, zb, zc, zd := Join(a0, a1), Add(Join(a2, a3), Join(cah, cal)), Add(Join(b0, b1), Join(cbh, cbl)),
                Join(b2, b3);
            var a, b, c := Quad(a0, a1, a2, a3), Quad(b0, b1, b2, b3), Quad(c0, c1, c2, c3);
            Wide(za, zb, zc, zd) == Add(Add(Shift(a, 128), Shift(Add(Add(c, a), b), 64)), b)
            && Is64(za) && Is64(zb) && Is64(zc) && Is64(zd)
  {
    hide Add, Shift, Above;
    var cah, cal := Add(c0, Add(b0, a0)), Add(c1, Add(b1, a1));
    var cbh, cbl := Add(c2, Add(b2, a2)), Add(c3, Add(b3, a3));
    var za, zb, zc, zd := Join(a0, a1), Add(Join(a2, a3), Join(cah, cal)), Add(Join(b0, b1), Join(cbh, cbl)),
        Join(b2, b3);
    var a, b, c := Quad(a0, a1, a2, a3), Quad(b0, b1, b2, b3), Quad(c0, c1, c2, c3);
    assert Is64(za) && Is64(zb) && Is64(zc) && Is64(zd);
    hide Wide, Quad;
    forall i: nat
      ensures i in Wide(za, zb, zc, zd) <==> i in Add(Add(Shift(a, 128), Shift(Add(Add(c, a), b), 64)), b)
    {
      InWide(za, zb, zc, zd, i);
      InQuad(b0, b1, b2, b3, i);
      if i >= 64 {
        InQuad(a0, a1, a2, a3, i - 64); InQuad(b0, b1, b2, b3, i - 64); InQuad(c0, c1, c2, c3, i - 64);
      }
      if i >= 128 { InQuad(a0, a1, a2, a3, i - 128); }
    }
  }

  // ---- Reduction ----

  /** The block whose first eight bytes, read as a big-endian integer, are the word h, and the rest the word l. */
  function FromWords(h: Poly, l: Poly): Poly {
    set e: nat | e < 128 && AtExponent(h, l, e)
  }

  predicate AtExponent(h: Poly, l: Poly, e: nat)
    requires e < 128
  {
    if e < 64 then 63 - e in h else 127 - e in l
  }

  /** The 256-bit product after the shift left by one. */
  function Doubled(zhh: Poly, zhl: Poly, zlh: Poly, zll: Poly): (Poly, Poly, Poly, Poly) {
    (Shl(zhh, 1) + Shr(zhl, 63), Shl(zhl, 1) + Shr(zlh, 63), Shl(zlh, 1) + Shr(zll, 63), Shl(zll, 1))
  }

  /** The last part of s_gfmul: shift the 256-bit product left by one, fold zll into zlh, then both into the result. */
  function Reduce(zhh0: Poly, zhl0: Poly, zlh0: Poly, zll0: Poly): (Poly, Poly) {
    var (zhh, zhl, zlh, zll) := Doubled(zhh0, zhl0, zlh0, zll0);
    Fold(zhh, zhl, zlh, zll)
  }

  function Fold(zhh: Poly, zhl: Poly, zlh0: Poly, zll: Poly): (Poly, Poly) {
    var zlh := Add(zlh0, Add(Add(Shl(zll, 63), Shl(zll, 62)), Shl(zll, 57)));
    (Add(zhh, Add(Add(Add(zlh, Shr(zlh, 1)), Shr(zlh, 2)), Shr(zlh, 7))),
     Add(zhl, Add(Add(Add(Add(Add(Add(zll, Shr(zll, 1)), Shr(zll, 2)), Shr(zll, 7)), Shl(zlh, 63)), Shl(zlh, 62)),
         Shl(zlh, 57))))
  }

  /** b times 1 + x + x^2 + x^7, which is congruent to b times x^128. */
  function TimesR(b: Poly): Poly { Add(Add(Add(b, Shift(b, 1)), Shift(b, 2)), Shift(b, 7)) }

  lemma TimesRIsMul(b: Poly)
    ensures Mul(R, b) == TimesR(b)
  {
    hide Mul, TimesR;
    assert R == Add(Add(Add({0}, {1}), {2}), {7});
    MulAddLeft(Add(Add({0}, {1}), {2}), {7}, b); MulAddLeft(Add({0}, {1}), {2}, b); MulAddLeft({0}, {1}, b);
    MulSingle(0, b); MulSingle(1, b); MulSingle(2, b); MulSingle(7, b);
    TimesRParts(b);
  }

  lemma TimesRParts(b: Poly)
    ensures Add(Add(Add(Shift(b, 0), Shift(b, 1)), Shift(b, 2)), Shift(b, 7)) == TimesR(b)
  {
    assert Shift(b, 0) == b;
  }

  /** A multiple of x^128 reduces to its fold. */
  lemma EvTop(b: Poly)
    requires Block(b)
    ensures Ev(Shift(b, 128), {0}, 256) == Ev(TimesR(b), {0}, 256)
  {
    hide Mul, TimesR;
    EvShift(b, {0}, 128, 128);
    EvOne(b, 128); BlockBelow(b);
    Times128(b);
    RBlock();
    EvMul(R, b, {0}, 128, 128);
    TimesRIsMul(b);
  }

  /** Folding the part above x^128, with the overflow of the fold folded once more. */
  function FoldPoly(a: Poly, b: Poly): Poly {
    Add(a, Below(TimesR(Add(b, Above(TimesR(b), 128))), 128))
  }

  lemma FoldPolyIsEv(a: Poly, b: Poly)
    requires Block(a) && Block(b)
    ensures FoldPoly(a, b) == Ev(Add(a, Shift(b, 128)), {0}, 256)
  {
    var f, o := TimesR(b), Above(TimesR(b), 128);
    assert forall i | i in o :: i < 7;
    EvAdd(a, Shift(b, 128), {0}, 256);
    EvWiden(a, {0}, 128, 256); EvOne(a, 128); BlockBelow(a);
    EvTop(b);
    SplitEv(f, o);
    EvTop(o);
    assert forall i | i in TimesR(o) :: i < 14;
    EvWiden(TimesR(o), {0}, 128, 256); EvOne(TimesR(o), 128);
    FoldAdds(b, o);
  }

  lemma SplitEv(f: Poly, o: Poly)
    requires o == Above(f, 128)
    ensures Ev(f, {0}, 256) == Add(Below(f, 128), Ev(Shift(o, 128), {0}, 256))
  {
    Split(f, 128);
    EvAdd(Below(f, 128), Shift(o, 128), {0}, 256);
    EvWiden(Below(f, 128), {0}, 128, 256); EvOne(Below(f, 128), 128);
    assert Below(Below(f, 128), 128) == Below(f, 128);
  }

  lemma FoldAdds(b: Poly, o: Poly)
    requires forall i | i in o :: i < 7
    ensures Below(TimesR(Add(b, o)), 128) == Add(Below(TimesR(b), 128), Below(TimesR(o), 128))
    ensures Below(TimesR(o), 128) == TimesR(o)
  {
    hide Add, Shift, Above;
    assert forall i: nat :: i in TimesR(Add(b, o)) <==> i in Add(TimesR(b), TimesR(o));
  }

  lemma FoldIsFoldPoly(hh: Poly, hl: Poly, lh: Poly, ll: Poly)
    requires Is64(hh) && Is64(hl) && Is64(lh) && Is64(ll)
    ensures var (h, l) := Fold(hh, hl, lh, ll);
            FromWords(h, l) == FoldPoly(FromWords(hh, hl), FromWords(lh, ll))
  {
    var (h, l) := Fold(hh, hl, lh, ll);
    var b := FromWords(lh, ll);
    var b' := Add(b, Above(TimesR(b), 128));
    var lh' := Add(lh, Add(Add(Shl(ll, 63), Shl(ll, 62)), Shl(ll, 57)));
    OverflowWord(lh, ll);
    forall e: nat | e < 128
      ensures e in FromWords(h, l) <==> e in FoldPoly(FromWords(hh, hl), b)
    {
      FoldBit(hh, hl, lh', ll, e);
    }
  }

  lemma OverflowWord(lh: Poly, ll: Poly)
    requires Is64(lh) && Is64(ll)
    ensures var lh' := Add(lh, Add(Add(Shl(ll, 63), Shl(ll, 62)), Shl(ll, 57)));
            var b := FromWords(lh, ll);
            FromWords(lh', ll) == Add(b, Above(TimesR(b), 128)) && Is64(lh')
  {
    hide Add, Shift, Above;
    var lh' := Add(lh, Add(Add(Shl(ll, 63), Shl(ll, 62)), Shl(ll, 57)));
    var b := FromWords(lh, ll);
    forall e: nat
      ensures e in FromWords(lh', ll) <==> e in Add(b, Above(TimesR(b), 128))
    {
    }
  }

  lemma FoldBit(hh: Poly, hl: Poly, lh: Poly, ll: Poly, e: nat)
    requires Is64(hh) && Is64(hl) && Is64(lh) && Is64(ll) && e < 128
    ensures var h := Add(hh, Add(Add(Add(lh, Shr(lh, 1)), Shr(lh, 2)), Shr(lh, 7)));
            var l := Add(hl, Add(Add(Add(Add(Add(Add(ll, Shr(ll, 1)), Shr(ll, 2)), Shr(ll, 7)), Shl(lh, 63)),
                Shl(lh, 62)), Shl(lh, 57)));
            e in FromWords(h, l) <==> e in Add(FromWords(hh, hl), Below(TimesR(FromWords(lh, ll)), 128))
  {
    var b := FromWords(lh, ll);
    InTimesR(b, e);
    hide TimesR, Add, Shift, Above;
    if e < 64 {
      FoldBitHigh(hh, lh, 63 - e);
    } else {
      FoldBitLow(hl, lh, ll, 127 - e);
    }
  }

  lemma InTimesR(b: Poly, e: nat)
    ensures e in TimesR(b) <==>
      (((e in b) != (e >= 1 && e - 1 in b)) != (e >= 2 && e - 2 in b)) != (e >= 7 && e - 7 in b)
  {
    hide Add, Shift, Above;
  }

  lemma FoldBitHigh(hh: Poly, lh: Poly, i: nat)
    ensures i in Add(hh, Add(Add(Add(lh, Shr(lh, 1)), Shr(lh, 2)), Shr(lh, 7))) <==>
      ((((i in hh) != (i in lh)) != (i + 1 in lh)) != (i + 2 in lh)) != (i + 7 in lh)
  {
    hide Add, Shift, Above;
  }

  lemma FoldBitLow(hl: Poly, lh: Poly, ll: Poly, i: nat)
    requires i < 64
    ensures i in Add(hl,
      Add(Add(Add(Add(Add(Add(ll, Shr(ll, 1)), Shr(ll, 2)), Shr(ll, 7)), Shl(lh, 63)), Shl(lh, 62)), Shl(lh, 57))) <==>
      (((((((i in hl) != (i in ll)) != (i + 1 in ll)) != (i + 2 in ll)) != (i + 7 in ll))
        != (i >= 63 && i - 63 in lh)) != (i >= 62 && i - 62 in lh)) != (i >= 57 && i - 57 in lh)
  {
    hide Add, Shift, Above;
  }

  /** After the shift, bit 255 - k holds the coefficient of x^k. */
  lemma DoubledBit(zhh: Poly, zhl: Poly, zlh: Poly, zll: Poly, k: nat)
    requires Is64(zhh) && Is64(zhl) && Is64(zlh) && Is64(zll)
    ensures var (thh, thl, tlh, tll) := Doubled(zhh, zhl, zlh, zll);
            Is64(thh) && Is64(thl) && Is64(tlh) && Is64(tll)
            && (k <= 254 ==> (k in Add(FromWords(thh, thl), Shift(FromWords(tlh, tll), 128)) <==>
               254 - k in Wide(zhh, zhl, zlh, zll)))
            && (k > 254 ==> k !in Add(FromWords(thh, thl), Shift(FromWords(tlh, tll), 128)))
  {
    hide Add, Shift, Above;
    if k <= 254 { InWide(zhh, zhl, zlh, zll, 254 - k); }
    hide Wide;
  }

  lemma ReduceIsEv(zhh: Poly, zhl: Poly, zlh: Poly, zll: Poly, e: Poly)
    requires Is64(zhh) && Is64(zhl) && Is64(zlh) && Is64(zll)
    requires forall k | k in e :: k <= 254
    requires forall k: nat | k <= 254 :: k in e <==> 254 - k in Wide(zhh, zhl, zlh, zll)
    ensures var (h, l) := Reduce(zhh, zhl, zlh, zll);
            FromWords(h, l) == Ev(e, {0}, 256)
  {
    hide Wide, Doubled, Fold, FoldPoly, FromWords;
    var (thh, thl, tlh, tll) := Doubled(zhh, zhl, zlh, zll);
    forall k: nat
      ensures k in e <==> k in Add(FromWords(thh, thl), Shift(FromWords(tlh, tll), 128))
    {
      DoubledBit(zhh, zhl, zlh, zll, k);
      hide Shift, Add;
    }
    DoubledBit(zhh, zhl, zlh, zll, 0);
    FoldIsFoldPoly(thh, thl, tlh, tll);
    BlockWords(thh, thl); BlockWords(tlh, tll);
    FoldPolyIsEv(FromWords(thh, thl), FromWords(tlh, tll));
    SameCoefficients(e, Add(FromWords(thh, thl), Shift(FromWords(tlh, tll), 128)));
    hide Shift, Add;
  }

  lemma BlockWords(h: Poly, l: Poly)
    ensures Block(FromWords(h, l))
  {
  }

  // ---- Blocks as big-endian integers ----

  /** The word made of bits s..s+63 of a block, most significant first. */
  function WordAt(v: Poly, s: nat): Poly {
    set b: nat | b < 64 && AtWordBit(v, s, b)
  }

  predicate AtWordBit(v: Poly, s: nat, b: nat) { b < 64 && s + 63 - b in v }

  predicate MirrorsInto(v: Poly, top: nat, b: nat) { b <= top && top - b in v }

  /** The block read as one big-endian 128-bit integer. */
  function Mirror(v: Poly): Poly { set b: nat | b < 128 && MirrorsInto(v, 127, b) }

  lemma MirrorWords(v: Poly)
    ensures Mirror(v) == Add(Shift(WordAt(v, 0), 64), WordAt(v, 64))
    ensures Block(v) ==> FromWords(WordAt(v, 0), WordAt(v, 64)) == v
  {
  }

  lemma MirrorMul(x: Poly, y: Poly, k: nat)
    requires Block(x) && Block(y) && k <= 254
    ensures k in Mul(x, y) <==> 254 - k in Mul(Mirror(x), Mirror(y))
  {
    InMul(x, y, k); InMul(Mirror(x), Mirror(y), 254 - k);
    var f := (i: nat) => if i <= 127 then 127 - i else 0;
    SameSize(Meets(x, y, k), Meets(Mirror(x), Mirror(y), 254 - k), f, f);
  }

  /** The reduced product of the words of two blocks is their product in GF(2^128). */
  lemma WordsMultiply(h: Poly, y: Poly)
    requires Block(h) && Block(y)
    ensures var (a, b, c, d) := Unreduced(WordAt(h, 0), WordAt(h, 64), WordAt(y, 0), WordAt(y, 64));
            var (zh, zl) := Reduce(a, b, c, d);
            FromWords(zh, zl) == GMul(y, h)
  {
    hide Unreduced, Reduce, GMul, Mul, Wide;
    UnreducedIsMul(WordAt(h, 0), WordAt(h, 64), WordAt(y, 0), WordAt(y, 64));
    MirrorWords(h); MirrorWords(y);
    var (a, b, c, d) := Unreduced(WordAt(h, 0), WordAt(h, 64), WordAt(y, 0), WordAt(y, 64));
    forall k: nat | k <= 254
      ensures k in Mul(y, h) <==> 254 - k in Wide(a, b, c, d)
    {
      MirrorMul(y, h, k);
    }
    MulBound(y, h, 128, 128);
    ReduceIsEv(a, b, c, d, Mul(y, h));
    GMulIsReduced(y, h);
  }
}