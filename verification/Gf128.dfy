/** GF(2^128) as the GCM standard defines it, and the algebra that lets products be regrouped.

    A 128-bit block is the polynomial whose x^i coefficient is bit i, counted from the most significant bit
    of the first byte. */
module Gf128 {
  import opened Gf2Poly

  /** x^128 = 1 + x + x^2 + x^7: the block written R in section 6.3 of NIST SP 800-38D. */
  const R: Poly := {0, 1, 2, 7}

  ghost predicate Block(v: Poly) { forall i | i in v :: i < 128 }

  /** One step of the V sequence of section 6.3: shift right by one bit, and add R if a one falls off. */
  function MulX(v: Poly): Poly {
    if 127 in v then Add(Below(Shift(v, 1), 128), R) else Below(Shift(v, 1), 128)
  }

  /** Steps i..127 of the block multiplication of section 6.3, from V_i = v. */
  function Steps(x: Poly, v: Poly, i: nat): Poly
    requires i <= 128
    decreases 128 - i
  {
    if i == 128 then {}
    else if i in x then Add(v, Steps(x, MulX(v), i + 1))
    else Steps(x, MulX(v), i + 1)
  }

  /** The product of blocks x and y, section 6.3 of NIST SP 800-38D. */
  function GMul(x: Poly, y: Poly): Poly { Steps(x, y, 0) }

  // ---- Evaluating a polynomial at x, acting on a block ----

  /** x^e times c. */
  function Times(c: Poly, e: nat): Poly {
    if e == 0 then c else MulX(Times(c, e - 1))
  }

  /** The sum of x^e times c over the exponents e of t below n. */
  function Ev(t: Poly, c: Poly, n: nat): Poly {
    if n == 0 then {} else if n - 1 in t then Add(Ev(t, c, n - 1), Times(c, n - 1)) else Ev(t, c, n - 1)
  }

  lemma AddBasics(a: Poly, b: Poly, c: Poly)
    ensures Add(a, b) == Add(b, a)
    ensures Add(Add(a, b), c) == Add(a, Add(b, c))
    ensures Add(a, {}) == a && Add({}, a) == a && Add(a, a) == {}
  {
    assert forall i: nat :: i in Add(Add(a, b), c) <==> i in Add(a, Add(b, c));
  }

  lemma AddSwap(a: Poly, b: Poly, c: Poly, d: Poly)
    ensures Add(Add(a, b), Add(c, d)) == Add(Add(a, c), Add(b, d))
  {
    assert forall i: nat :: i in Add(Add(a, b), Add(c, d)) <==> i in Add(Add(a, c), Add(b, d));
  }

  lemma MulXAdd(a: Poly, b: Poly)
    ensures MulX(Add(a, b)) == Add(MulX(a), MulX(b))
  {
    assert Below(Shift(Add(a, b), 1), 128) == Add(Below(Shift(a, 1), 128), Below(Shift(b, 1), 128));
    assert forall i: nat :: i in MulX(Add(a, b)) <==> i in Add(MulX(a), MulX(b));
  }

  lemma MulXBlock(a: Poly)
    ensures Block(MulX(a))
  {
  }

  lemma {:induction false} TimesAdd(a: Poly, b: Poly, e: nat)
    ensures Times(Add(a, b), e) == Add(Times(a, e), Times(b, e))
  {
    hide MulX, Add;
    if e > 0 {
      TimesAdd(a, b, e - 1);
      MulXAdd(Times(a, e - 1), Times(b, e - 1));
    }
  }

  lemma {:induction false} TimesPlus(c: Poly, d: nat, e: nat)
    ensures Times(Times(c, d), e) == Times(c, d + e)
  {
    hide MulX;
    if e > 0 { TimesPlus(c, d, e - 1); }
  }

  lemma MulXZero()
    ensures MulX({}) == {}
  {
  }

  lemma {:induction false} TimesZero(e: nat)
    ensures Times({}, e) == {}
  {
    MulXZero();
    hide MulX;
    if e > 0 { TimesZero(e - 1); }
  }

  lemma {:induction false} EvAdd(s: Poly, t: Poly, c: Poly, n: nat)
    ensures Ev(Add(s, t), c, n) == Add(Ev(s, c, n), Ev(t, c, n))
  {
    if n > 0 {
      EvAdd(s, t, c, n - 1);
      var e, f, x := Ev(s, c, n - 1), Ev(t, c, n - 1), Times(c, n - 1);
      assert forall i: nat :: i in Add(Add(e, f), x) <==> i in Add(Add(e, x), f);
      assert forall i: nat :: i in Add(Add(e, f), x) <==> i in Add(e, Add(f, x));
      assert forall i: nat :: i in Add(Add(e, x), Add(f, x)) <==> i in Add(e, f);
    }
  }

  lemma {:induction false} EvWiden(t: Poly, c: Poly, n: nat, m: nat)
    requires n <= m && forall i | i in t :: i < n
    ensures Ev(t, c, m) == Ev(t, c, n)
  {
    if n < m { EvWiden(t, c, n, m - 1); }
  }

  lemma {:induction false} EvTimes(t: Poly, c: Poly, n: nat, e: nat)
    ensures Ev(t, Times(c, e), n) == Times(Ev(t, c, n), e)
  {
    hide MulX, Add;
    if n == 0 {
      TimesZero(e);
    } else {
      EvTimes(t, c, n - 1, e);
      TimesPlus(c, e, n - 1); TimesPlus(c, n - 1, e);
      TimesAdd(Ev(t, c, n - 1), Times(c, n - 1), e);
    }
  }

  lemma {:induction false} EvShift(t: Poly, c: Poly, n: nat, e: nat)
    ensures Ev(Shift(t, e), c, n + e) == Times(Ev(t, c, n), e)
  {
    hide MulX, Add;
    if n == 0 {
      TimesZero(e);
      EvNothing(Shift(t, e), c, e);
    } else {
      EvShift(t, c, n - 1, e);
      TimesPlus(c, n - 1, e);
      TimesAdd(Ev(t, c, n - 1), Times(c, n - 1), e);
    }
  }

  lemma {:induction false} EvNothing(t: Poly, c: Poly, n: nat)
    requires forall i | i in t :: i >= n
    ensures Ev(t, c, n) == {}
  {
    if n > 0 { EvNothing(t, c, n - 1); }
  }

  /** Multiplying the polynomials composes their actions. */
  lemma {:induction false} EvMul(s: Poly, t: Poly, c: Poly, n: nat, m: nat)
    requires forall i | i in s :: i < n
    requires forall i | i in t :: i < m
    ensures Ev(Mul(s, t), c, n + m) == Ev(s, Ev(t, c, m), n)
  {
    hide Add, MulX;
    if n == 0 {
      assert Mul(s, t) == {};
      EvNothing({}, c, n + m);
    } else {
      hide Mul;
      var s', top := s - {n - 1}, if n - 1 in s then {n - 1} else {};
      assert s == Add(s', top);
      EvMul(s', t, c, n - 1, m);
      MulAddLeft(s', top, t);
      EvAdd(Mul(s', t), Mul(top, t), c, n + m);
      MulBelow(s', t, n - 1, m);
      EvWiden(Mul(s', t), c, n - 1 + m, n + m);
      EvPrefix(s, s', Ev(t, c, m), n - 1);
      if n - 1 in s {
        EvMonomial(n - 1, t, c, m);
      } else {
        MulNone(t);
        EvNothing({}, c, n + m);
        AddBasics(Ev(Mul(s', t), c, n + m), {}, {});
      }
    }
  }

  lemma EvMonomial(e: nat, t: Poly, c: Poly, m: nat)
    requires forall i | i in t :: i < m
    ensures Ev(Mul({e}, t), c, e + 1 + m) == Times(Ev(t, c, m), e)
  {
    hide Mul, Add, MulX;
    MulSingle(e, t);
    EvShift(t, c, m, e);
    EvWiden(Shift(t, e), c, m + e, e + 1 + m);
  }

  lemma MulNone(t: Poly)
    ensures Mul({}, t) == {}
  {
  }

  lemma {:induction false} EvPrefix(s: Poly, s': Poly, c: Poly, n: nat)
    requires forall i: nat | i < n :: i in s <==> i in s'
    ensures Ev(s, c, n) == Ev(s', c, n)
  {
    if n > 0 { EvPrefix(s, s', c, n - 1); }
  }

  lemma MulBelow(s: Poly, t: Poly, n: nat, m: nat)
    requires forall i | i in s :: i < n
    requires forall i | i in t :: i < m
    ensures forall k | k in Mul(s, t) :: k < n + m
  {
  }

  lemma MulSingle(e: nat, t: Poly)
    ensures Mul({e}, t) == Shift(t, e)
  {
    forall k: nat
      ensures k in Mul({e}, t) <==> k in Shift(t, e)
    {
      InMul({e}, t, k);
      assert Meets({e}, t, k) == if k >= e && k - e in t then {e} else {};
    }
  }

  // ---- The field ----

  lemma {:induction false} TimesOne(e: nat)
    requires e < 128
    ensures Times({0}, e) == {e}
  {
    if e > 0 {
      TimesOne(e - 1);
      assert Below(Shift({e - 1}, 1), 128) == {e};
    }
  }

  lemma {:induction false} EvOne(t: Poly, n: nat)
    requires n <= 128
    ensures Ev(t, {0}, n) == Below(t, n)
  {
    hide MulX;
    if n > 0 {
      EvOne(t, n - 1);
      TimesOne(n - 1);
      assert Below(t, n) == if n - 1 in t then Add(Below(t, n - 1), {n - 1}) else Below(t, n - 1);
    }
  }

  lemma BlockBelow(v: Poly)
    requires Block(v)
    ensures Below(v, 128) == v
  {
  }

  /** The loop of section 6.3 computes the action of x on y. */
  lemma {:induction false} StepsIsEv(x: Poly, y: Poly, i: nat)
    requires i <= 128
    ensures Add(Ev(x, y, i), Steps(x, Times(y, i), i)) == Ev(x, y, 128)
    decreases 128 - i
  {
    if i == 128 {
      AddBasics(Ev(x, y, 128), {}, {});
    } else {
      StepsIsEv(x, y, i + 1);
      AddBasics(Ev(x, y, i), Times(y, i), Steps(x, Times(y, i + 1), i + 1));
    }
  }

  lemma GMulIsEv(x: Poly, y: Poly)
    ensures GMul(x, y) == Ev(x, y, 128)
  {
    StepsIsEv(x, y, 0);
    AddBasics(GMul(x, y), {}, {});
  }

  /** The block product is the polynomial product reduced modulo x^128 + x^7 + x^2 + x + 1. */
  lemma GMulIsReduced(x: Poly, y: Poly)
    requires Block(x) && Block(y)
    ensures GMul(x, y) == Ev(Mul(x, y), {0}, 256)
  {
    GMulIsEv(x, y);
    EvOne(y, 128);
    BlockBelow(y);
    EvMul(x, y, {0}, 128, 128);
  }

  lemma GMulComm(x: Poly, y: Poly)
    requires Block(x) && Block(y)
    ensures GMul(x, y) == GMul(y, x)
  {
    GMulIsReduced(x, y); GMulIsReduced(y, x);
    MulComm(x, y);
  }

  lemma GMulAddLeft(x: Poly, x': Poly, y: Poly)
    ensures GMul(Add(x, x'), y) == Add(GMul(x, y), GMul(x', y))
  {
    GMulIsEv(Add(x, x'), y); GMulIsEv(x, y); GMulIsEv(x', y);
    EvAdd(x, x', y, 128);
  }

  lemma GMulNothing(y: Poly)
    ensures GMul({}, y) == {}
  {
    hide GMul;
    assert Add({}, {}) == {};
    GMulAddLeft({}, {}, y);
    assert forall i: nat :: i !in Add(GMul({}, y), GMul({}, y));
  }

  lemma {:induction false} EvBlock(t: Poly, c: Poly, n: nat)
    requires Block(c)
    ensures Block(Ev(t, c, n))
  {
    if n > 0 {
      EvBlock(t, c, n - 1);
      TimesBlock(c, n - 1);
    }
  }

  lemma TimesBlock(c: Poly, e: nat)
    requires Block(c)
    ensures Block(Times(c, e))
  {
    if e > 0 { MulXBlock(Times(c, e - 1)); }
  }

  lemma GMulBlock(x: Poly, y: Poly)
    requires Block(y)
    ensures Block(GMul(x, y))
  {
    GMulIsEv(x, y);
    EvBlock(x, y, 128);
  }

  lemma Times128One()
    ensures Times({0}, 128) == R
  {
    TimesOne(127);
    assert Below(Shift({127}, 1), 128) == {};
    assert MulX({127}) == R;
    hide MulX;
  }

  /** x^128 acts on every block as R does. */
  lemma Times128(c: Poly)
    requires Block(c)
    ensures Times(c, 128) == Ev(R, c, 128)
  {
    Times128One();
    hide MulX, Times, Add, GMul, R;
    EvOne(c, 128); BlockBelow(c);
    EvTimes(c, {0}, 128, 128);
    assert Times(c, 128) == Ev(c, R, 128);
    GMulIsEv(c, R); GMulIsEv(R, c);
    RBlock();
    GMulComm(c, R);
  }

  lemma RBlock()
    ensures Block(R)
  {
  }

  lemma EvMulX(v: Poly, c: Poly)
    requires Block(v) && Block(c)
    ensures Ev(MulX(v), c, 128) == MulX(Ev(v, c, 128))
  {
    var w := Below(Shift(v, 1), 128);
    EvShift(v, c, 128, 1);
    assert Times(Ev(v, c, 128), 1) == MulX(Ev(v, c, 128)) by { assert Times(Ev(v, c, 128), 0) == Ev(v, c, 128); }
    EvPrefix(Shift(v, 1), w, c, 128);
    if 127 in v {
      Times128(c);
      EvAdd(w, R, c, 128);
    }
  }

  lemma {:induction false} EvTimesOne(c: Poly, e: nat)
    requires Block(c)
    ensures Ev(Times({0}, e), c, 128) == Times(c, e)
  {
    if e == 0 {
      EvSingle0(c, 128);
    } else {
      TimesBlock({0}, e - 1);
      EvMulX(Times({0}, e - 1), c);
      EvTimesOne(c, e - 1);
    }
  }

  lemma {:induction false} EvSingle0(c: Poly, n: nat)
    requires n > 0
    ensures Ev({0}, c, n) == c
  {
    if n == 1 {
      assert Ev({0}, c, 0) == {};
      AddBasics(c, {}, {});
    } else {
      EvSingle0(c, n - 1);
    }
  }

  /** Reducing a polynomial does not change how it acts on blocks. */
  lemma {:induction false} EvReduced(t: Poly, c: Poly, n: nat)
    requires Block(c)
    ensures Ev(Ev(t, {0}, n), c, 128) == Ev(t, c, n)
  {
    if n == 0 {
      EvNothing({}, c, 128);
    } else {
      EvReduced(t, c, n - 1);
      EvTimesOne(c, n - 1);
      EvAdd(Ev(t, {0}, n - 1), Times({0}, n - 1), c, 128);
    }
  }

  lemma GMulAssoc(x: Poly, y: Poly, z: Poly)
    requires Block(x) && Block(y) && Block(z)
    ensures GMul(GMul(x, y), z) == GMul(x, GMul(y, z))
  {
    GMulIsReduced(x, y);
    GMulIsEv(GMul(x, y), z); GMulIsEv(y, z); GMulIsEv(x, GMul(y, z));
    EvReduced(Mul(x, y), z, 256);
    EvMul(x, y, z, 128, 128);
  }
}
