/** Carry-less 32-bit products out of ordinary integer products: the macro s_bmul32. */
module WideMul {
  import opened Gf2Poly
  import Arithmetic

  /** The integer held in the low n bits of a word. */
  function Val(x: Poly, n: nat): nat
    decreases n
  {
    if n == 0 then 0 else (if 0 in x then 1 else 0) + 2 * Val(Above(x, 1), n - 1)
  }

  /** Bit k of an integer. */
  predicate Bit(n: nat, k: nat) { if k == 0 then n % 2 == 1 else Bit(n / 2, k - 1) }

  /** The w-bit word holding n modulo 2^w. */
  function Word(n: nat, w: nat): Poly { set k | 0 <= k < w && Bit(n, k) }

  function Product(m: nat, n: nat): nat { m * n }

  /** Unsigned 64-bit multiplication, modulo 2^64. */
  function MulU64(x: Poly, y: Poly): Poly { Word(Product(Val(x, 64), Val(y, 64)), 64) }

  /** x masked with the word that has bits r, r+4, r+8, ... set: one bit kept in every four. */
  function Lane(x: Poly, r: nat): Poly { set i | i in x && i % 4 == r }

  /** The macro s_bmul32: sixteen products of masked words, masked again and merged. */
  function BMul32(x: Poly, y: Poly): Poly {
    var x0, x1, x2, x3 := Lane(x, 0), Lane(x, 1), Lane(x, 2), Lane(x, 3);
    var y0, y1, y2, y3 := Lane(y, 0), Lane(y, 1), Lane(y, 2), Lane(y, 3);
    var z0 := Lane(Add(Add(Add(MulU64(x0, y0), MulU64(x1, y3)), MulU64(x2, y2)), MulU64(x3, y1)), 0);
    var z1 := Lane(Add(Add(Add(MulU64(x0, y1), MulU64(x1, y0)), MulU64(x2, y3)), MulU64(x3, y2)), 1);
    var z2 := Lane(Add(Add(Add(MulU64(x0, y2), MulU64(x1, y1)), MulU64(x2, y0)), MulU64(x3, y3)), 2);
    var z3 := Lane(Add(Add(Add(MulU64(x0, y3), MulU64(x1, y2)), MulU64(x2, y1)), MulU64(x3, y0)), 3);
    (z2 + (z0 + z1)) + z3
  }

  // ---- Integers whose base-16 digits stay small: adding them never carries ----

  ghost predicate DigitsAtMost(n: nat, m: nat) {
    n == 0 || (n % 16 <= m && DigitsAtMost(n / 16, m))
  }

  lemma {:induction false} DigitsWeaken(n: nat, a: nat, b: nat)
    requires DigitsAtMost(n, a) && a <= b
    ensures DigitsAtMost(n, b)
  {
    if n != 0 { DigitsWeaken(n / 16, a, b); }
  }

  lemma {:induction false} AddDigits(n: nat, m: nat, a: nat, b: nat)
    requires DigitsAtMost(n, a) && DigitsAtMost(m, b) && a + b < 16
    ensures DigitsAtMost(n + m, a + b)
  {
    if n != 0 && m != 0 {
      assert (n + m) / 16 == n / 16 + m / 16 && (n + m) % 16 == n % 16 + m % 16;
      AddDigits(n / 16, m / 16, a, b);
    } else {
      DigitsWeaken(n, a, a + b);
      DigitsWeaken(m, b, a + b);
    }
  }

  lemma Bit4(n: nat, k: nat)
    ensures Bit(n, k + 4) == Bit(n / 16, k)
  {
    assert n / 2 / 2 / 2 / 2 == n / 16;
    assert Bit(n, k + 4) == Bit(n / 2, k + 3) == Bit(n / 2 / 2, k + 2) == Bit(n / 2 / 2 / 2, k + 1);
  }

  lemma BitZero(k: nat)
    ensures !Bit(0, k)
  {
  }

  /** The lowest bit of each digit adds without carry. */
  lemma {:induction false} AddNoCarry(n: nat, m: nat, a: nat, b: nat, k: nat)
    requires DigitsAtMost(n, a) && DigitsAtMost(m, b) && a + b < 16
    requires k % 4 == 0
    ensures Bit(n + m, k) == (Bit(n, k) != Bit(m, k))
  {
    if k == 0 {
      ParitySum(n, m);
    } else {
      Bit4(n + m, k - 4); Bit4(n, k - 4); Bit4(m, k - 4);
      SumQuotient(n, m, a, b);
      AddNoCarry(n / 16, m / 16, a, b, k - 4);
    }
  }

  lemma ParitySum(n: nat, m: nat)
    ensures ((n + m) % 2 == 1) == ((n % 2 == 1) != (m % 2 == 1))
  {
  }

  lemma SumQuotient(n: nat, m: nat, a: nat, b: nat)
    requires DigitsAtMost(n, a) && DigitsAtMost(m, b) && a + b < 16
    ensures (n + m) / 16 == n / 16 + m / 16
    ensures DigitsAtMost(n / 16, a) && DigitsAtMost(m / 16, b)
  {
    assert n % 16 + m % 16 < 16;
  }

  // ---- Words with one bit in every four ----

  ghost predicate Holed(u: Poly) { forall i | i in u :: i % 4 == 0 }

  lemma {:induction false} HoledVal(u: Poly, n: nat)
    requires Holed(u)
    ensures Val(u, n + 4) == (if 0 in u then 1 else 0) + 16 * Val(Above(u, 4), n)
  {
    var u1, u2, u3 := Above(u, 1), Above(Above(u, 1), 1), Above(Above(Above(u, 1), 1), 1);
    assert Above(u3, 1) == Above(u, 4);
    assert 0 !in u1 && 0 !in u2 && 0 !in u3;
    assert Val(u3, n + 1) == 2 * Val(Above(u, 4), n);
    assert Val(u2, n + 2) == 2 * Val(u3, n + 1);
    assert Val(u1, n + 3) == 2 * Val(u2, n + 2);
  }

  /** A holed word, read as an integer, has digits 0 and 1. */
  lemma {:induction false} HoledDigits(u: Poly, d: nat)
    requires Holed(u)
    ensures DigitsAtMost(Val(u, 4 * d), 1)
    decreases d
  {
    if d > 0 {
      HoledVal(u, 4 * (d - 1));
      HoledDigits(Above(u, 4), d - 1);
      PushDigit(Val(Above(u, 4), 4 * (d - 1)), if 0 in u then 1 else 0);
    }
  }

  lemma PushDigit(n: nat, b: nat)
    requires b <= 1
    ensures (b + 16 * n) / 16 == n && (b + 16 * n) % 16 == b && ((b + 16 * n) % 2 == 1) == (b == 1)
    ensures DigitsAtMost(n, 1) ==> DigitsAtMost(b + 16 * n, 1)
  {
    Arithmetic.DivUnique(b + 16 * n, 16, n, b);
    Arithmetic.DivUnique(b + 16 * n, 2, 8 * n, b);
  }

  lemma {:induction false} HoledBits(u: Poly, d: nat, k: nat)
    requires Holed(u) && k % 4 == 0
    requires forall i | i in u :: i < 4 * d
    ensures Bit(Val(u, 4 * d), k) == (k in u)
    decreases d
  {
    if d == 0 {
      BitZero(k);
    } else {
      var rest := Val(Above(u, 4), 4 * (d - 1));
      HoledVal(u, 4 * (d - 1));
      PushDigit(rest, if 0 in u then 1 else 0);
      if k > 0 {
        Bit4(Val(u, 4 * d), k - 4);
        HoledBits(Above(u, 4), d - 1, k - 4);
      }
    }
  }

  lemma MulPeel(u: Poly, v: Poly)
    requires Holed(v)
    ensures Mul(u, v) == Add(if 0 in v then u else {}, Shift(Mul(u, Above(v, 4)), 4))
  {
    var low := if 0 in v then {0} else {};
    assert v == Add(low, Shift(Above(v, 4), 4));
    MulAddRight(u, low, Shift(Above(v, 4), 4));
    MulShiftRight(u, Above(v, 4), 4);
    MulOne(u);
    assert Mul(u, {}) == {};
  }

  lemma InPeel(u: Poly, v: Poly, k: nat)
    requires Holed(v)
    ensures k in Mul(u, v) <==> ((0 in v && k in u) != (k >= 4 && k - 4 in Mul(u, Above(v, 4))))
  {
    hide Mul, Add, Shift, Above, Holed;
    MulPeel(u, v);
    var rest := Mul(u, Above(v, 4));
    assert k in Shift(rest, 4) <==> k >= 4 && k - 4 in rest;
  }

  lemma MulOne(u: Poly)
    ensures Mul(u, {0}) == u
  {
    forall k: nat
      ensures k in Mul(u, {0}) <==> k in u
    {
      InMul(u, {0}, k);
      assert Meets(u, {0}, k) == if k in u then {k} else {};
    }
  }

  lemma Times16(n: nat, a: nat, k: nat)
    requires k % 4 == 0
    ensures Bit(16 * n, k) == (k >= 4 && Bit(n, k - 4))
    ensures DigitsAtMost(n, a) ==> DigitsAtMost(16 * n, a)
  {
    hide DigitsAtMost;
    Quotient16(n);
    if k >= 4 {
      Bit4(16 * n, k - 4);
    } else {
      assert k == 0;
    }
    Times16Digits(n, a);
  }

  lemma Quotient16(n: nat)
    ensures 16 * n / 16 == n && 16 * n % 16 == 0 && 16 * n % 2 == 0
  {
    Arithmetic.DivUnique(16 * n, 16, n, 0);
    Arithmetic.DivUnique(16 * n, 2, 8 * n, 0);
  }

  lemma Times16Digits(n: nat, a: nat)
    ensures DigitsAtMost(n, a) ==> DigitsAtMost(16 * n, a)
  {
    Quotient16(n);
  }

  /** Each digit of the integer product counts the terms that meet there: at most d of them ... */
  lemma {:induction false} HoledProductDigits(u: Poly, v: Poly, d: nat)
    requires Holed(u) && Holed(v) && d <= 8
    ensures DigitsAtMost(Product(Val(u, 32), Val(v, 4 * d)), d)
    decreases d
  {
    hide Val;
    var x := Val(u, 32);
    if d == 0 {
      ValNone(v);
    } else {
      var rest := Product(x, Val(Above(v, 4), 4 * (d - 1)));
      PeelProduct(u, v, d);
      HoledProductDigits(u, Above(v, 4), d - 1);
      Times16(rest, d - 1, 0);
      HoledDigits(u, 8);
      AddDigits(if 0 in v then x else 0, 16 * rest, 1, d - 1);
    }
  }

  lemma ValNone(v: Poly)
    ensures Val(v, 0) == 0
  {
  }

  lemma PeelProduct(u: Poly, v: Poly, d: nat)
    requires Holed(v) && d > 0
    ensures Product(Val(u, 32), Val(v, 4 * d)) ==
      (if 0 in v then Val(u, 32) else 0) + 16 * Product(Val(u, 32), Val(Above(v, 4), 4 * (d - 1)))
  {
    hide Val;
    HoledVal(v, 4 * (d - 1));
    Distribute(Val(u, 32), if 0 in v then 1 else 0, Val(Above(v, 4), 4 * (d - 1)));
  }

  lemma Distribute(x: nat, b: nat, n: nat)
    requires b <= 1
    ensures Product(x, b + 16 * n) == (if b == 1 then x else 0) + 16 * Product(x, n)
  {
  }

  /** ... so nothing carries, and the lowest bit of the digit is their parity. */
  lemma {:induction false} HoledProduct(u: Poly, v: Poly, d: nat, k: nat)
    requires Holed(u) && Holed(v) && d <= 8 && k % 4 == 0
    requires forall i | i in u :: i < 32
    requires forall i | i in v :: i < 4 * d
    ensures Bit(Product(Val(u, 32), Val(v, 4 * d)), k) == (k in Mul(u, v))
    decreases d
  {
    hide Val, DigitsAtMost;
    var x := Val(u, 32);
    if d == 0 {
      assert v == {} && Mul(u, v) == {};
      ValNone(v);
      BitZero(k);
    } else {
      var v' := Above(v, 4);
      var rest := Product(x, Val(v', 4 * (d - 1)));
      if k >= 4 { HoledProduct(u, v', d - 1, k - 4); }
      HoledProductDigits(u, v', d - 1);
      HoledDigits(u, 8);
      HoledBits(u, 8, k);
      BitZero(k);
      PeelProduct(u, v, d);
      Times16(rest, d - 1, k);
      AddNoCarry(if 0 in v then x else 0, 16 * rest, 1, d - 1, k);
      InPeel(u, v, k);
      hide Mul, Bit, Above;
    }
  }

  // ---- Lanes ----

  lemma {:induction false} ValWiden(u: Poly, n: nat, m: nat)
    requires n <= m && forall i | i in u :: i < n
    ensures Val(u, m) == Val(u, n)
    decreases m
  {
    if n > 0 {
      ValWiden(Above(u, 1), n - 1, m - 1);
    } else if m > 0 {
      assert Above(u, 1) == {};
      ValWiden({}, 0, m - 1);
    }
  }

  function Pow2(e: nat): nat { if e == 0 then 1 else 2 * Pow2(e - 1) }

  lemma {:induction false} ValShift(u: Poly, e: nat, n: nat)
    ensures Val(Shift(u, e), n + e) == Pow2(e) * Val(u, n)
  {
    if e == 0 {
      assert Shift(u, 0) == u;
    } else {
      assert Above(Shift(u, e), 1) == Shift(u, e - 1);
      ValShift(u, e - 1, n);
    }
  }

  lemma {:induction false} BitShift(n: nat, e: nat, k: nat)
    ensures Bit(Pow2(e) * n, k) == (k >= e && Bit(n, k - e))
  {
    if e > 0 {
      var m := Pow2(e - 1) * n;
      assert Pow2(e) * n == 2 * m;
      if k > 0 { BitShift(n, e - 1, k - 1); }
    }
  }

  lemma Pow2Plus(a: nat, b: nat)
    ensures Pow2(a) * Pow2(b) == Pow2(a + b)
    decreases a
  {
    if a > 0 { Pow2Plus(a - 1, b); }
  }

  lemma LaneIsShift(x: Poly, r: nat)
    requires r < 4
    ensures Lane(x, r) == Shift(Above(Lane(x, r), r), r)
    ensures Holed(Above(Lane(x, r), r))
  {
    forall i | i in Lane(x, r) ensures i >= r { ModAtMost(i, r); }
    forall i | i in Above(Lane(x, r), r) ensures i % 4 == 0 { assert i + r in Lane(x, r); ModMinus(i, r); }
  }

  lemma ModAtMost(i: nat, r: nat)
    requires i % 4 == r
    ensures i >= r
  {
  }

  lemma ModMinus(i: nat, r: nat)
    requires r < 4 && (i + r) % 4 == r
    ensures i % 4 == 0
  {
  }

  ghost predicate Is32(x: Poly) { forall i | i in x :: i < 32 }

  /** Masked back to its own lane, the 64-bit product of two lanes is their carry-less product. */
  lemma LaneProduct(x: Poly, y: Poly, a: nat, b: nat, k: nat)
    requires Is32(x) && Is32(y) && a < 4 && b < 4 && k % 4 == (a + b) % 4
    ensures k in MulU64(Lane(x, a), Lane(y, b)) <==> k in Mul(Lane(x, a), Lane(y, b))
  {
    hide *;
    var u, v := Above(Lane(x, a), a), Above(Lane(y, b), b);
    LaneIsShift(x, a); LaneIsShift(y, b);
    LaneVal(x, a, u); LaneVal(y, b, v);
    IntegerSide(Lane(x, a), Lane(y, b), u, v, a, b, k);
    MulShiftLeft(u, Shift(v, b), a); MulShiftRight(u, v, b);
    ShiftShift(Mul(u, v), b, a);
    LaneBound(x, a, y, b, k);
    assert k in Shift(Mul(u, v), b + a) <==> k >= b + a && k - (b + a) in Mul(u, v);
  }

  lemma IntegerSide(p: Poly, q: Poly, u: Poly, v: Poly, a: nat, b: nat, k: nat)
    requires Is32(u) && Is32(v) && Holed(u) && Holed(v)
    requires Val(p, 64) == Pow2(a) * Val(u, 32) && Val(q, 64) == Pow2(b) * Val(v, 32)
    requires a < 4 && b < 4 && k % 4 == (a + b) % 4
    ensures k in MulU64(p, q) <==> k < 64 && k >= a + b && k - (a + b) in Mul(u, v)
  {
    hide Val, Mul, Bit, Pow2, Product, Holed;
    Regroup(Pow2(a), Val(u, 32), Pow2(b), Val(v, 32));
    Pow2Plus(a, b);
    BitShift(Product(Val(u, 32), Val(v, 32)), a + b, k);
    if k >= a + b {
      ModDifference(k, a + b);
      HoledProduct(u, v, 8, k - (a + b));
    }
  }

  lemma ModDifference(k: nat, c: nat)
    requires k >= c && k % 4 == c % 4
    ensures (k - c) % 4 == 0
  {
  }

  lemma LaneVal(x: Poly, a: nat, u: Poly)
    requires Is32(x) && a < 4 && Lane(x, a) == Shift(u, a) && Holed(u)
    ensures Val(Lane(x, a), 64) == Pow2(a) * Val(u, 32) && Is32(u)
  {
    forall i | i in u ensures i < 32 { assert i + a in Lane(x, a); }
    ValShift(u, a, 32);
    ValWiden(Lane(x, a), 32 + a, 64);
  }

  lemma Regroup(p: nat, m: nat, q: nat, n: nat)
    ensures Product(p * m, q * n) == (p * q) * Product(m, n)
  {
  }

  lemma ShiftShift(p: Poly, m: nat, n: nat)
    ensures Shift(Shift(p, m), n) == Shift(p, m + n)
  {
  }

  lemma LaneBound(x: Poly, a: nat, y: Poly, b: nat, k: nat)
    requires Is32(x) && Is32(y)
    ensures k in Mul(Lane(x, a), Lane(y, b)) ==> k < 64 && k % 4 == (a + b) % 4
  {
    if k in Mul(Lane(x, a), Lane(y, b)) {
      var i, j :| i in Lane(x, a) && j in Lane(y, b) && k == i + j;
      ModSum(i, j);
    }
  }

  lemma ModSum(i: nat, j: nat)
    ensures (i + j) % 4 == (i % 4 + j % 4) % 4
  {
  }

  function Lanes(x: Poly): Poly { Add(Add(Add(Lane(x, 0), Lane(x, 1)), Lane(x, 2)), Lane(x, 3)) }

  lemma LanesWhole(x: Poly)
    ensures Lanes(x) == x
  {
  }

  /** x times one lane of y, coefficient by coefficient. */
  lemma LaneRow(x: Poly, w: Poly, k: nat)
    ensures k in Mul(x, w) <==>
      (((k in Mul(Lane(x, 0), w)) != (k in Mul(Lane(x, 1), w))) != (k in Mul(Lane(x, 2), w)))
      != (k in Mul(Lane(x, 3), w))
  {
    LanesWhole(x);
    var a, b, c, d := Lane(x, 0), Lane(x, 1), Lane(x, 2), Lane(x, 3);
    MulAddLeft(Add(Add(a, b), c), d, w); MulAddLeft(Add(a, b), c, w); MulAddLeft(a, b, w);
    hide Mul, Lane;
  }

  /** s_bmul32 is the carry-less product of its 32-bit arguments. */
  lemma BMul32IsMul(x: Poly, y: Poly)
    requires Is32(x) && Is32(y)
    ensures BMul32(x, y) == Mul(x, y)
  {
    forall k: nat
      ensures k in BMul32(x, y) <==> k in Mul(x, y)
    {
      BMul32Bit(x, y, k);
    }
  }

  lemma BMul32Bit(x: Poly, y: Poly, k: nat)
    requires Is32(x) && Is32(y)
    ensures k in BMul32(x, y) <==> k in Mul(x, y)
  {
    hide Mul, MulU64;
    LanesWhole(y);
    MulComm(x, y);
    LaneRow(y, x, k);
    LaneColumn(x, y, 0, k); LaneColumn(x, y, 1, k); LaneColumn(x, y, 2, k); LaneColumn(x, y, 3, k);
  }

  lemma LaneColumn(x: Poly, y: Poly, b: nat, k: nat)
    requires Is32(x) && Is32(y) && b < 4
    ensures k in Mul(Lane(y, b), x) <==> k in MulU64(Lane(x, (k + 4 - b) % 4), Lane(y, b))
  {
    hide Mul, MulU64, Lane;
    var a := (k + 4 - b) % 4;
    MulComm(Lane(y, b), x);
    LaneRow(x, Lane(y, b), k);
    LaneBound(x, 0, y, b, k); LaneBound(x, 1, y, b, k); LaneBound(x, 2, y, b, k); LaneBound(x, 3, y, b, k);
    LaneProduct(x, y, a, b, k);
  }
}
