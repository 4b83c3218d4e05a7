/** Polynomials over GF(2), as the finite sets of their exponents.

    A machine word is read the same way: it is the set of the positions of its one bits. */
module Gf2Poly {

  type Poly = set<nat>

  /** Addition of polynomials, exclusive or of words. */
  function Add(p: Poly, q: Poly): (r: Poly)
    ensures forall i: nat {:trigger i in r} :: i in r <==> ((i in p) != (i in q))
  {
    (p - q) + (q - p)
  }

  /** Multiplication by x^k. */
  function Shift(p: Poly, k: nat): (r: Poly)
    ensures forall j: nat :: j in r <==> j >= k && j - k in p
  {
    var r := set i | i in p :: i + k;
    assert forall j: nat | j >= k && j - k in p :: j == (j - k) + k && j in r;
    r
  }

  /** The part of p below x^n. */
  function Below(p: Poly, n: nat): (r: Poly)
    ensures r <= p
  {
    set i | i in p && i < n
  }

  /** The part of p from x^n up, divided by x^n. */
  function Above(p: Poly, n: nat): (r: Poly)
    ensures forall j: nat :: j in r <==> j + n in p
  {
    var r := set i | i in p && i >= n :: i - n;
    assert forall j: nat | j + n in p :: j == (j + n) - n && j in r;
    r
  }

  lemma Split(p: Poly, n: nat)
    ensures p == Add(Below(p, n), Shift(Above(p, n), n))
  {
  }

  // ---- Parity of finite sets ----

  predicate Odd<T>(s: set<T>) { |s| % 2 == 1 }

  lemma OddAdd(a: Poly, b: Poly)
    ensures Odd(Add(a, b)) == (Odd(a) != Odd(b))
  {
    assert |a - b| == |a| - |a * b| && |b - a| == |b| - |a * b| by {
      assert a == (a - b) + a * b && b == (b - a) + a * b;
    }
    assert |Add(a, b)| == |a - b| + |b - a|;
  }

  lemma {:induction false} SameSize(a: Poly, b: Poly, f: nat -> nat, g: nat -> nat)
    requires forall i | i in a :: f(i) in b && g(f(i)) == i
    requires forall j | j in b :: g(j) in a && f(g(j)) == j
    ensures |a| == |b|
    decreases |a|
  {
    if a == {} {
      assert b == {} by {
        if j :| j in b { assert g(j) in a; }
      }
    } else {
      var i :| i in a;
      SameSize(a - {i}, b - {f(i)}, f, g);
    }
  }

  // ---- Products ----

  /** The exponents i of p that meet an exponent k - i of q. */
  function Meets(p: Poly, q: Poly, k: nat): set<nat> {
    set i | i in p && i <= k && k - i in q
  }

  /** The coefficient of x^k in the product of p and q. */
  predicate Coeff(p: Poly, q: Poly, k: nat) { Odd(Meets(p, q, k)) }

  function Sums(p: Poly, q: Poly): Poly {
    set i, j | i in p && j in q :: i + j
  }

  function Mul(p: Poly, q: Poly): Poly {
    set k | k in Sums(p, q) && Coeff(p, q, k)
  }

  lemma InMul(p: Poly, q: Poly, k: nat)
    ensures k in Mul(p, q) <==> Coeff(p, q, k)
  {
    if Coeff(p, q, k) {
      var i :| i in Meets(p, q, k);
      assert i in p && k - i in q && k == i + (k - i);
    }
  }

  /** Polynomials with the same coefficients are equal. */
  lemma SameCoefficients(p: Poly, q: Poly)
    requires forall k: nat :: k in p <==> k in q
    ensures p == q
  {
  }

  lemma CoeffAddLeft(p: Poly, p': Poly, q: Poly, k: nat)
    ensures Coeff(Add(p, p'), q, k) == (Coeff(p, q, k) != Coeff(p', q, k))
  {
    assert Meets(Add(p, p'), q, k) == Add(Meets(p, q, k), Meets(p', q, k));
    OddAdd(Meets(p, q, k), Meets(p', q, k));
  }

  lemma InAdd(p: Poly, q: Poly, k: nat)
    ensures k in Add(p, q) <==> ((k in p) != (k in q))
  {
  }

  lemma MulAddLeft(p: Poly, p': Poly, q: Poly)
    ensures Mul(Add(p, p'), q) == Add(Mul(p, q), Mul(p', q))
  {
    forall k: nat
      ensures k in Mul(Add(p, p'), q) <==> k in Add(Mul(p, q), Mul(p', q))
    {
      hide *;
      InMul(Add(p, p'), q, k); InMul(p, q, k); InMul(p', q, k);
      CoeffAddLeft(p, p', q, k);
      InAdd(Mul(p, q), Mul(p', q), k);
    }
    hide *;
    SameCoefficients(Mul(Add(p, p'), q), Add(Mul(p, q), Mul(p', q)));
  }

  lemma CoeffComm(p: Poly, q: Poly, k: nat)
    ensures Coeff(p, q, k) == Coeff(q, p, k)
  {
    var mirror := (i: nat) => if i <= k then k - i else 0;
    SameSize(Meets(p, q, k), Meets(q, p, k), mirror, mirror);
  }

  lemma MulComm(p: Poly, q: Poly)
    ensures Mul(p, q) == Mul(q, p)
  {
    forall k: nat
      ensures k in Mul(p, q) <==> k in Mul(q, p)
    {
      hide *;
      InMul(p, q, k); InMul(q, p, k);
      CoeffComm(p, q, k);
    }
    hide *;
    SameCoefficients(Mul(p, q), Mul(q, p));
  }

  lemma MulAddRight(p: Poly, q: Poly, q': Poly)
    ensures Mul(p, Add(q, q')) == Add(Mul(p, q), Mul(p, q'))
  {
    MulComm(p, Add(q, q')); MulComm(p, q); MulComm(p, q');
    MulAddLeft(q, q', p);
  }

  lemma CoeffShift(p: Poly, q: Poly, n: nat, k: nat)
    ensures Coeff(Shift(p, n), q, k) == (k >= n && Coeff(p, q, k - n))
  {
    if k < n {
      assert Meets(Shift(p, n), q, k) == {};
    } else {
      SameSize(Meets(Shift(p, n), q, k), Meets(p, q, k - n), i => if i >= n then i - n else 0, i => i + n);
    }
  }

  lemma MulShiftLeft(p: Poly, q: Poly, n: nat)
    ensures Mul(Shift(p, n), q) == Shift(Mul(p, q), n)
  {
    forall k: nat
      ensures k in Mul(Shift(p, n), q) <==> k in Shift(Mul(p, q), n)
    {
      hide *;
      InMul(Shift(p, n), q, k);
      CoeffShift(p, q, n, k);
      if k >= n { InMul(p, q, k - n); }
    }
    hide *;
    SameCoefficients(Mul(Shift(p, n), q), Shift(Mul(p, q), n));
  }

  lemma MulShiftRight(p: Poly, q: Poly, n: nat)
    ensures Mul(p, Shift(q, n)) == Shift(Mul(p, q), n)
  {
    MulComm(p, Shift(q, n)); MulComm(p, q);
    MulShiftLeft(q, p, n);
  }
}
