/** AES words, the field GF(2^8) and the lookup tables of the software cipher.

    The substitution box is a parameter: any byte permutation given with its inverse. */
module AesTables {
  import opened Blocks

  datatype Substitution = Substitution(S: bv8 -> bv8, Inv: bv8 -> bv8)

  ghost predicate Inverses(s: Substitution) {
    forall b: bv8 :: s.Inv(s.S(b)) == b && s.S(s.Inv(b)) == b
  }

  type SBox = s: Substitution | Inverses(s) witness Substitution(b => b, b => b)

  /** A 32-bit word, most significant byte first. */
  datatype Word = Word(a: bv8, b: bv8, c: bv8, d: bv8)

  /** Four words: the columns of the AES state. */
  datatype State = State(w0: Word, w1: Word, w2: Word, w3: Word)

  /** Exclusive or of bytes, the addition of GF(2^8). */
  function Plus(p: bv8, q: bv8): bv8 { p ^ q }

  function Sum4(p: bv8, q: bv8, r: bv8, s: bv8): bv8 { Plus(Plus(Plus(p, q), r), s) }

  function XorW(v: Word, w: Word): Word { Word(Plus(v.a, w.a), Plus(v.b, w.b), Plus(v.c, w.c), Plus(v.d, w.d)) }

  function XorS(s: State, t: State): State {
    State(XorW(s.w0, t.w0), XorW(s.w1, t.w1), XorW(s.w2, t.w2), XorW(s.w3, t.w3))
  }

  function Ror8(w: Word): Word { Word(w.d, w.a, w.b, w.c) }
  function Ror16(w: Word): Word { Word(w.c, w.d, w.a, w.b) }
  function Ror24(w: Word): Word { Word(w.b, w.c, w.d, w.a) }

  // ---- GF(2^8), section 4 of FIPS 197 ----

  /** Multiplication by x: shift left, and add x^4 + x^3 + x + 1 if a bit falls off. */
  function X(b: bv8): bv8 {
    (b << 1) ^ (b >> 7) ^ ((b >> 7) << 1) ^ ((b >> 7) << 3) ^ ((b >> 7) << 4)
  }

  lemma XIsConditional(b: bv8)
    ensures X(b) == if b & 0x80 == 0 then b << 1 else (b << 1) ^ 0x1b
  {
  }

  function By2(b: bv8): bv8 { X(b) }
  function By3(b: bv8): bv8 { Plus(X(b), b) }
  function By9(b: bv8): bv8 { Plus(X(X(X(b))), b) }
  function ByB(b: bv8): bv8 { Plus(Plus(X(X(X(b))), X(b)), b) }
  function ByD(b: bv8): bv8 { Plus(Plus(X(X(X(b))), X(X(b))), b) }
  function ByE(b: bv8): bv8 { Plus(Plus(X(X(X(b))), X(X(b))), X(b)) }

  lemma XLinear(p: bv8, q: bv8)
    ensures X(Plus(p, q)) == Plus(X(p), X(q))
  {
    ShiftsLinear(p, q);
  }

  lemma ShiftsLinear(p: bv8, q: bv8)
    ensures ((p ^ q) << 1) ^ ((p ^ q) >> 7) ^ (((p ^ q) >> 7) << 1) ^ (((p ^ q) >> 7) << 3) ^ (((p ^ q) >> 7) << 4)
         == ((p << 1) ^ (p >> 7) ^ ((p >> 7) << 1) ^ ((p >> 7) << 3) ^ ((p >> 7) << 4))
          ^ ((q << 1) ^ (q >> 7) ^ ((q >> 7) << 1) ^ ((q >> 7) << 3) ^ ((q >> 7) << 4))
  {
  }

  // ---- Reference transformations, sections 5.1 and 5.3 of FIPS 197 ----

  function SubWord(s: SBox, w: Word): Word { Word(s.S(w.a), s.S(w.b), s.S(w.c), s.S(w.d)) }
  function InvSubWord(s: SBox, w: Word): Word { Word(s.Inv(w.a), s.Inv(w.b), s.Inv(w.c), s.Inv(w.d)) }

  function SubBytes(s: SBox, t: State): State {
    State(SubWord(s, t.w0), SubWord(s, t.w1), SubWord(s, t.w2), SubWord(s, t.w3))
  }
  function InvSubBytes(s: SBox, t: State): State {
    State(InvSubWord(s, t.w0), InvSubWord(s, t.w1), InvSubWord(s, t.w2), InvSubWord(s, t.w3))
  }

  function ShiftRows(t: State): State {
    State(Word(t.w0.a, t.w1.b, t.w2.c, t.w3.d), Word(t.w1.a, t.w2.b, t.w3.c, t.w0.d),
          Word(t.w2.a, t.w3.b, t.w0.c, t.w1.d), Word(t.w3.a, t.w0.b, t.w1.c, t.w2.d))
  }
  function InvShiftRows(t: State): State {
    State(Word(t.w0.a, t.w3.b, t.w2.c, t.w1.d), Word(t.w1.a, t.w0.b, t.w3.c, t.w2.d),
          Word(t.w2.a, t.w1.b, t.w0.c, t.w3.d), Word(t.w3.a, t.w2.b, t.w1.c, t.w0.d))
  }

  function MixColumn(w: Word): Word {
    Word(Sum4(By2(w.a), By3(w.b), w.c, w.d), Sum4(w.a, By2(w.b), By3(w.c), w.d),
         Sum4(w.a, w.b, By2(w.c), By3(w.d)), Sum4(By3(w.a), w.b, w.c, By2(w.d)))
  }
  function InvMixColumn(w: Word): Word {
    Word(Sum4(ByE(w.a), ByB(w.b), ByD(w.c), By9(w.d)), Sum4(By9(w.a), ByE(w.b), ByB(w.c), ByD(w.d)),
         Sum4(ByD(w.a), By9(w.b), ByE(w.c), ByB(w.d)), Sum4(ByB(w.a), ByD(w.b), By9(w.c), ByE(w.d)))
  }

  function MixColumns(t: State): State {
    State(MixColumn(t.w0), MixColumn(t.w1), MixColumn(t.w2), MixColumn(t.w3))
  }
  function InvMixColumns(t: State): State {
    State(InvMixColumn(t.w0), InvMixColumn(t.w1), InvMixColumn(t.w2), InvMixColumn(t.w3))
  }

  // ---- InvMixColumn is linear and undoes MixColumn ----

  lemma PlusBasics(a: bv8, b: bv8, c: bv8)
    ensures Plus(a, b) == Plus(b, a)
    ensures Plus(Plus(a, b), c) == Plus(a, Plus(b, c))
  {
  }

  lemma PlusSwap(a: bv8, b: bv8, c: bv8, d: bv8)
    ensures Plus(Plus(a, b), Plus(c, d)) == Plus(Plus(a, c), Plus(b, d))
  {
    hide Plus;
    PlusBasics(a, b, Plus(c, d)); PlusBasics(b, c, d); PlusBasics(c, b, d); PlusBasics(a, c, Plus(b, d));
  }

  lemma XPowersLinear(p: bv8, q: bv8)
    ensures X(Plus(p, q)) == Plus(X(p), X(q))
    ensures X(X(Plus(p, q))) == Plus(X(X(p)), X(X(q)))
    ensures X(X(X(Plus(p, q)))) == Plus(X(X(X(p))), X(X(X(q))))
  {
    hide X, Plus;
    XLinear(p, q);
    XLinear(X(p), X(q));
    XLinear(X(X(p)), X(X(q)));
  }

  lemma MultiplesLinear(p: bv8, q: bv8)
    ensures By9(Plus(p, q)) == Plus(By9(p), By9(q)) && ByB(Plus(p, q)) == Plus(ByB(p), ByB(q))
    ensures ByD(Plus(p, q)) == Plus(ByD(p), ByD(q)) && ByE(Plus(p, q)) == Plus(ByE(p), ByE(q))
  {
    hide X, Plus;
    XPowersLinear(p, q);
    var p1, p2, p3, q1, q2, q3 := X(p), X(X(p)), X(X(X(p))), X(q), X(X(q)), X(X(X(q)));
    PlusSwap(p3, q3, p, q);
    PlusSwap(p3, q3, p1, q1); PlusSwap(Plus(p3, p1), Plus(q3, q1), p, q);
    PlusSwap(p3, q3, p2, q2); PlusSwap(Plus(p3, p2), Plus(q3, q2), p, q); PlusSwap(Plus(p3, p2), Plus(q3, q2), p1, q1);
  }

  lemma Sum4Linear(p: bv8, q: bv8, r: bv8, s: bv8, p': bv8, q': bv8, r': bv8, s': bv8)
    ensures Sum4(Plus(p, p'), Plus(q, q'), Plus(r, r'), Plus(s, s')) == Plus(Sum4(p, q, r, s), Sum4(p', q', r', s'))
  {
    hide Plus;
    PlusSwap(p, p', q, q');
    PlusSwap(Plus(p, q), Plus(p', q'), r, r');
    PlusSwap(Plus(Plus(p, q), r), Plus(Plus(p', q'), r'), s, s');
  }

  lemma InvMixColumnLinear(v: Word, w: Word)
    ensures InvMixColumn(XorW(v, w)) == XorW(InvMixColumn(v), InvMixColumn(w))
  {
    hide X, Plus, Sum4, By9, ByB, ByD, ByE;
    MultiplesLinear(v.a, w.a); MultiplesLinear(v.b, w.b); MultiplesLinear(v.c, w.c); MultiplesLinear(v.d, w.d);
    Sum4Linear(ByE(v.a), ByB(v.b), ByD(v.c), By9(v.d), ByE(w.a), ByB(w.b), ByD(w.c), By9(w.d));
    Sum4Linear(By9(v.a), ByE(v.b), ByB(v.c), ByD(v.d), By9(w.a), ByE(w.b), ByB(w.c), ByD(w.d));
    Sum4Linear(ByD(v.a), By9(v.b), ByE(v.c), ByB(v.d), ByD(w.a), By9(w.b), ByE(w.c), ByB(w.d));
    Sum4Linear(ByB(v.a), ByD(v.b), By9(v.c), ByE(v.d), ByB(w.a), ByD(w.b), By9(w.c), ByE(w.d));
  }

  /** On a column with one nonzero byte, the products of coefficients add up to one, or cancel. */
  lemma Coefficients1(x: bv8)
    ensures Sum4(ByE(By2(x)), ByB(x), ByD(x), By9(By3(x))) == x
    ensures Sum4(By9(By2(x)), ByE(x), ByB(x), ByD(By3(x))) == 0
  {
  }

  lemma Coefficients2(x: bv8)
    ensures Sum4(ByD(By2(x)), By9(x), ByE(x), ByB(By3(x))) == 0
    ensures Sum4(ByB(By2(x)), ByD(x), By9(x), ByE(By3(x))) == 0
  {
  }

  lemma ZeroMultiples()
    ensures By2(0) == 0 && By3(0) == 0 && By9(0) == 0 && ByB(0) == 0 && ByD(0) == 0 && ByE(0) == 0
  {
  }

  lemma PlusZero(p: bv8)
    ensures Plus(p, 0) == p && Plus(0, p) == p
  {
  }

  lemma Rotate4(p: bv8, q: bv8, r: bv8, s: bv8)
    ensures Sum4(p, q, r, s) == Sum4(q, r, s, p) == Sum4(r, s, p, q) == Sum4(s, p, q, r)
  {
    Rotate(p, q, r, s); Rotate(q, r, s, p); Rotate(r, s, p, q);
  }

  lemma Rotate(p: bv8, q: bv8, r: bv8, s: bv8)
    ensures Sum4(p, q, r, s) == Sum4(q, r, s, p)
  {
    hide Plus;
    PlusBasics(p, q, r); PlusBasics(p, Plus(q, r), s);
    PlusBasics(p, Plus(Plus(q, r), s), 0);
  }

  /** Rotating the bytes of a column commutes with both transformations. */
  lemma MixRotates(w: Word)
    ensures MixColumn(Ror8(w)) == Ror8(MixColumn(w)) && InvMixColumn(Ror8(w)) == Ror8(InvMixColumn(w))
  {
    hide X, Plus, Sum4, By2, By3, By9, ByB, ByD, ByE;
    Rotate4(By2(w.a), By3(w.b), w.c, w.d); Rotate4(w.a, By2(w.b), By3(w.c), w.d);
    Rotate4(w.a, w.b, By2(w.c), By3(w.d)); Rotate4(By3(w.a), w.b, w.c, By2(w.d));
    Rotate4(ByE(w.a), ByB(w.b), ByD(w.c), By9(w.d)); Rotate4(By9(w.a), ByE(w.b), ByB(w.c), ByD(w.d));
    Rotate4(ByD(w.a), By9(w.b), ByE(w.c), ByB(w.d)); Rotate4(ByB(w.a), ByD(w.b), By9(w.c), ByE(w.d));
  }

  /** A column holding one byte, mixed: one entry of the table Te0 before substitution. */
  function Te(x: bv8): Word { Word(By2(x), x, x, By3(x)) }

  lemma InvMixTe(x: bv8)
    ensures InvMixColumn(Te(x)) == Word(x, 0, 0, 0)
  {
    hide X, Plus, Sum4, By2, By3, By9, ByB, ByD, ByE;
    Coefficients1(x); Coefficients2(x);
  }

  lemma MixColumnIsTables(w: Word)
    ensures MixColumn(w) == XorW(XorW(XorW(Te(w.a), Ror8(Te(w.b))), Ror16(Te(w.c))), Ror24(Te(w.d)))
  {
  }

  lemma InvMixColumnUndoes(w: Word)
    ensures InvMixColumn(MixColumn(w)) == w
  {
    hide X, Plus, Sum4, By2, By3, By9, ByB, ByD, ByE, MixColumn, InvMixColumn, Te;
    var a, b, c, d := Te(w.a), Ror8(Te(w.b)), Ror16(Te(w.c)), Ror24(Te(w.d));
    MixColumnIsTables(w);
    InvMixColumnLinear(XorW(XorW(a, b), c), d); InvMixColumnLinear(XorW(a, b), c); InvMixColumnLinear(a, b);
    InvMixTe(w.a); InvMixTe(w.b); InvMixTe(w.c); InvMixTe(w.d);
    MixRotates(Te(w.b));
    MixRotates(Te(w.c)); MixRotates(Ror8(Te(w.c)));
    MixRotates(Te(w.d)); MixRotates(Ror8(Te(w.d))); MixRotates(Ror16(Te(w.d)));
    PlusZero(w.a); PlusZero(w.b); PlusZero(w.c); PlusZero(w.d); PlusZero(0);
  }

  // ---- MixColumn undoes InvMixColumn ----

  lemma MixMultiplesLinear(p: bv8, q: bv8)
    ensures By2(Plus(p, q)) == Plus(By2(p), By2(q)) && By3(Plus(p, q)) == Plus(By3(p), By3(q))
  {
    hide X, Plus;
    XPowersLinear(p, q);
    PlusSwap(X(p), X(q), p, q);
  }

  lemma MixColumnLinear(v: Word, w: Word)
    ensures MixColumn(XorW(v, w)) == XorW(MixColumn(v), MixColumn(w))
  {
    hide X, Plus, Sum4, By2, By3;
    MixMultiplesLinear(v.a, w.a); MixMultiplesLinear(v.b, w.b); MixMultiplesLinear(v.c, w.c);
    MixMultiplesLinear(v.d, w.d);
    Sum4Linear(By2(v.a), By3(v.b), v.c, v.d, By2(w.a), By3(w.b), w.c, w.d);
    Sum4Linear(v.a, By2(v.b), By3(v.c), v.d, w.a, By2(w.b), By3(w.c), w.d);
    Sum4Linear(v.a, v.b, By2(v.c), By3(v.d), w.a, w.b, By2(w.c), By3(w.d));
    Sum4Linear(By3(v.a), v.b, v.c, By2(v.d), By3(w.a), w.b, w.c, By2(w.d));
  }

  /** A column holding one byte, inversely mixed: one entry of the table Td0 after substitution. */
  function Td(x: bv8): Word { Word(ByE(x), By9(x), ByD(x), ByB(x)) }

  lemma InvCoefficients1(x: bv8)
    ensures Sum4(By2(ByE(x)), By3(By9(x)), ByD(x), ByB(x)) == x
    ensures Sum4(ByE(x), By2(By9(x)), By3(ByD(x)), ByB(x)) == 0
  {
  }

  lemma InvCoefficients2(x: bv8)
    ensures Sum4(ByE(x), By9(x), By2(ByD(x)), By3(ByB(x))) == 0
    ensures Sum4(By3(ByE(x)), By9(x), ByD(x), By2(ByB(x))) == 0
  {
  }

  lemma MixTd(x: bv8)
    ensures MixColumn(Td(x)) == Word(x, 0, 0, 0)
  {
    hide X, Plus, Sum4, By2, By3, By9, ByB, ByD, ByE;
    InvCoefficients1(x); InvCoefficients2(x);
  }

  lemma InvMixByte(v: bv8)
    ensures InvMixColumn(Word(v, 0, 0, 0)) == Td(v)
  {
    hide X, Plus, By9, ByB, ByD, ByE, By2, By3;
    ZeroMultiples();
    PlusZero(ByE(v)); PlusZero(By9(v)); PlusZero(ByD(v)); PlusZero(ByB(v));
  }

  lemma InvMixColumnIsTables(w: Word)
    ensures InvMixColumn(w) == XorW(XorW(XorW(Td(w.a), Ror8(Td(w.b))), Ror16(Td(w.c))), Ror24(Td(w.d)))
  {
    hide InvMixColumn, Plus, Td;
    var a, b, c, d := Word(w.a, 0, 0, 0), Word(w.b, 0, 0, 0), Word(w.c, 0, 0, 0), Word(w.d, 0, 0, 0);
    PlusZero(w.a); PlusZero(w.b); PlusZero(w.c); PlusZero(w.d); PlusZero(0);
    assert w == XorW(XorW(XorW(a, Ror8(b)), Ror16(c)), Ror24(d));
    InvMixColumnLinear(XorW(XorW(a, Ror8(b)), Ror16(c)), Ror24(d));
    InvMixColumnLinear(XorW(a, Ror8(b)), Ror16(c)); InvMixColumnLinear(a, Ror8(b));
    MixRotates(b);
    MixRotates(c); MixRotates(Ror8(c));
    MixRotates(d); MixRotates(Ror8(d)); MixRotates(Ror16(d));
    InvMixByte(w.a); InvMixByte(w.b); InvMixByte(w.c); InvMixByte(w.d);
  }

  lemma MixColumnUndoes(w: Word)
    ensures MixColumn(InvMixColumn(w)) == w
  {
    hide X, Plus, Sum4, By2, By3, By9, ByB, ByD, ByE, MixColumn, InvMixColumn, Td;
    var a, b, c, d := Td(w.a), Ror8(Td(w.b)), Ror16(Td(w.c)), Ror24(Td(w.d));
    InvMixColumnIsTables(w);
    MixColumnLinear(XorW(XorW(a, b), c), d); MixColumnLinear(XorW(a, b), c); MixColumnLinear(a, b);
    MixTd(w.a); MixTd(w.b); MixTd(w.c); MixTd(w.d);
    MixRotates(Td(w.b));
    MixRotates(Td(w.c)); MixRotates(Ror8(Td(w.c)));
    MixRotates(Td(w.d)); MixRotates(Ror8(Td(w.d))); MixRotates(Ror16(Td(w.d)));
    PlusZero(w.a); PlusZero(w.b); PlusZero(w.c); PlusZero(w.d); PlusZero(0);
  }
}
