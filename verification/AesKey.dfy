/** A keyed AES-256 instance: key expansion and the decryption schedule. */
module AesKey {
  import opened Blocks
  import opened Gf2Poly
  import opened AesTables
  import opened AesCipher

  // ---- Key expansion, section 5.2 of FIPS 197 ----

  function RotWord(w: Word): Word { Word(w.b, w.c, w.d, w.a) }

  /** The first byte of Rcon[i]. */
  function Rcon(i: nat): bv8 { if i <= 1 then 1 else X(Rcon(i - 1)) }

  /** Word i of the expanded key. */
  function Expanded(s: SBox, key: Bytes, i: nat): Word
    requires |key| == 32
  {
    if i < 8 then LoadWord(key, 4 * i)
    else
      var temp := Expanded(s, key, i - 1);
      XorW(Expanded(s, key, i - 8),
           if i % 8 == 0 then XorW(SubWord(s, RotWord(temp)), Word(Rcon(i / 8), 0, 0, 0))
           else if i % 8 == 4 then SubWord(s, temp)
           else temp)
  }

  function KeySchedule(s: SBox, key: Bytes): (w: seq<Word>)
    requires |key| == 32
    ensures |w| == 60
  {
    seq(60, i requires 0 <= i < 60 => Expanded(s, key, i))
  }

  /** The entries of rcon that p_initSW uses. */
  const RCON: seq<bv8> := [0x01, 0x02, 0x04, 0x08, 0x10, 0x20, 0x40]

  lemma RconTable(i: nat)
    requires i < 7
    ensures i < |RCON| && RCON[i] == Rcon(i + 1)
  {
    assert Rcon(1) == 1;
    assert Rcon(2) == 2;
    assert Rcon(3) == 4;
    assert Rcon(4) == 8;
    assert Rcon(5) == 16;
    assert Rcon(6) == 32;
    assert Rcon(7) == 64;
  }

  /** The table lookups of p_initSW for the first word of a group ... */
  function TeRotSub(s: SBox, t: Word): Word {
    XorW(XorW(XorW(KeepA(Ror16(Te0(s, t.b))), KeepB(Ror24(Te0(s, t.c)))), KeepC(Te0(s, t.d))), KeepD(Ror8(Te0(s, t.a))))
  }

  lemma TeRotSubIsSubWord(s: SBox, t: Word)
    ensures TeRotSub(s, t) == SubWord(s, RotWord(t))
  {
    hide SubWord, XorW, KeepA, KeepB, KeepC, KeepD, Te0;
    TeSubIsSubWord(s, t.b, t.c, t.d, t.a);
  }

  /** A word of the decryption schedule: Td0 of Te4 of each byte. */
  function TdOfTe(s: SBox, w: Word): Word {
    XorW(XorW(XorW(Td0(s, s.S(w.a)), Ror8(Td0(s, s.S(w.b)))), Ror16(Td0(s, s.S(w.c)))), Ror24(Td0(s, s.S(w.d))))
  }

  lemma TdOfTeIsInvMix(s: SBox, w: Word)
    ensures TdOfTe(s, w) == InvMixColumn(w)
  {
    hide InvMixColumn, XorW, Ror8, Ror16, Ror24, Td;
    InvMixColumnIsTables(w);
    assert Inverses(s);
  }

  class Aes {
    const s: SBox
    var ek: seq<Word>
    var dk: seq<Word>
    var hh: Poly
    var hl: Poly
    ghost var key: Bytes

    ghost predicate Valid()
      reads this
    {
      && |key| == 32
      && ek == KeySchedule(s, key)
      && IsDecryptionSchedule(ek, dk)
      && var h := EncryptSW(s, ek, Zero16());
         hh == Load64(h[..8]) && hl == Load64(h[8..])
    }

    function Encrypt(block: Bytes): (out: Bytes)
      requires Valid() && IsBlock(block)
      reads this
      ensures IsBlock(out)
    {
      EncryptSW(s, ek, block)
    }

    function Decrypt(block: Bytes): (out: Bytes)
      requires Valid() && IsBlock(block)
      reads this
      ensures IsBlock(out)
    {
      DecryptSW(s, dk, block)
    }

    constructor (s: SBox, key: Bytes)
      requires |key| == 32
      ensures Valid() && this.s == s && this.key == key
    {
      this.s := s;
      this.ek, this.dk, this.hh, this.hl, this.key := [], [], {}, {}, [];
      new;
      InitSW(key);
    }

    /** p_initSW. */
    method InitSW(key: Bytes)
      requires |key| == 32
      modifies this
      ensures Valid() && this.key == key
      ensures forall z | IsBlock(z) && Bits(z) == {} ::
        hh == Load64(EncryptSW(s, ek, z)[..8]) && hl == Load64(EncryptSW(s, ek, z)[8..])
    {
      hide KeySchedule, EncryptSW, RoundKey, InvMixColumns, IsDecryptionSchedule, Load64, Bits;
      OneWithoutBits();
      var rk := new Word[60](i => Word(0, 0, 0, 0));
      ExpandKey(s, key, rk);
      ek := rk[..];
      this.key := key;

      var h := EncryptSW(s, ek, Zero16());
      hh, hl := Load64(h[..8]), Load64(h[8..]);

      ReverseGroups(rk);
      ghost var reversed := rk[..];
      InvMixInner(s, rk);
      dk := rk[..];
      ReversedAndMixed(ek, reversed, dk);
    }
  }

  lemma ReversedAndMixed(ek: seq<Word>, reversed: seq<Word>, dk: seq<Word>)
    requires |ek| == |reversed| == |dk| == 60
    requires forall g: nat | g <= 14 :: RoundKey(reversed, g) == RoundKey(ek, 14 - g)
    requires forall g: nat | g <= 14 ::
      RoundKey(dk, g) == if 0 < g < 14 then InvMixColumns(RoundKey(reversed, g)) else RoundKey(reversed, g)
    ensures IsDecryptionSchedule(ek, dk)
  {
    hide RoundKey, InvMixColumns;
  }

  function Zero16(): (z: Bytes) ensures IsBlock(z) { seq(16, i => 0) }

  lemma NoBits()
    ensures Bits(Zero16()) == {}
  {
    hide Mask;
    forall e: nat | e < 128
      ensures !AtBit(Zero16(), e)
    {
      NoneOf(Mask(7 - e % 8));
    }
  }

  lemma NoneOf(m: bv8)
    ensures 0 & m == 0
  {
  }

  /** It is the only block without a bit. */
  lemma OneWithoutBits()
    ensures forall z | IsBlock(z) :: Bits(z) == {} <==> z == Zero16()
  {
    NoBits();
    hide Bits, Zero16;
    forall z | IsBlock(z) && Bits(z) == {}
      ensures z == Zero16()
    {
      SameBits(z, Zero16());
    }
  }

  lemma XorWAssoc(u: Word, v: Word, w: Word)
    ensures XorW(XorW(u, v), w) == XorW(u, XorW(v, w))
  {
    hide Plus;
    PlusBasics(u.a, v.a, w.a); PlusBasics(u.b, v.b, w.b); PlusBasics(u.c, v.c, w.c); PlusBasics(u.d, v.d, w.d);
  }

  /** Words o+8..o+15 of the expanded key, for o = 8i. */
  lemma ExpandedTurn(s: SBox, key: Bytes, i: nat)
    requires |key| == 32
    ensures var o := 8 * i;
      && Expanded(s, key, o + 8) ==
         XorW(XorW(Expanded(s, key, o), SubWord(s, RotWord(Expanded(s, key, o + 7)))), Word(Rcon(i + 1), 0, 0, 0))
      && Expanded(s, key, o + 12) == XorW(Expanded(s, key, o + 4), SubWord(s, Expanded(s, key, o + 11)))
  {
    var o := 8 * i;
    hide XorW, SubWord, RotWord, Rcon;
    Remainder(i, 0); Remainder(i, 4);
    XorWAssoc(Expanded(s, key, o), SubWord(s, RotWord(Expanded(s, key, o + 7))), Word(Rcon(i + 1), 0, 0, 0));
  }

  lemma ExpandedPlain(s: SBox, key: Bytes, i: nat, r: nat)
    requires |key| == 32 && r < 8 && r != 0 && r != 4
    ensures Expanded(s, key, 8 * i + 8 + r) == XorW(Expanded(s, key, 8 * i + r), Expanded(s, key, 8 * i + 7 + r))
  {
    hide XorW, SubWord, RotWord, Rcon;
    Remainder(i, r);
  }

  lemma Remainder(i: nat, r: nat)
    requires r < 8
    ensures (8 * i + 8 + r) % 8 == r && (8 * i + 8 + r) / 8 == i + 1
  {
    Locate(i + 1, r);
  }

  /** The first eight words are expanded, the next n - 8 also. */
  ghost predicate ExpandedTo(s: SBox, key: Bytes, w: seq<Word>, n: nat)
    requires |key| == 32
  {
    n <= |w| && forall j | 0 <= j < n :: w[j] == Expanded(s, key, j)
  }

  /** Writes the next expanded word. */
  method Put(s: SBox, key: Bytes, rk: array<Word>, j: nat, w: Word)
    requires |key| == 32 && rk.Length == 60 && j < 60 && ExpandedTo(s, key, rk[..], j) && w == Expanded(s, key, j)
    modifies rk
    ensures ExpandedTo(s, key, rk[..], j + 1)
  {
    rk[j] := w;
  }

  lemma At(s: SBox, key: Bytes, w: seq<Word>, n: nat, j: nat)
    requires |key| == 32 && ExpandedTo(s, key, w, n) && j < n
    ensures w[j] == Expanded(s, key, j)
  {
  }

  /** One turn of the expansion loop up to its break test. */
  method FirstHalfTurn(s: SBox, key: Bytes, rk: array<Word>, i: nat)
    requires |key| == 32 && rk.Length == 60 && i < 7 && ExpandedTo(s, key, rk[..], 8 * i + 8)
    modifies rk
    ensures ExpandedTo(s, key, rk[..], 8 * i + 12)
  {
    hide XorW, SubWord, RotWord, Rcon, TeRotSub, RCON, Expanded, ExpandedTo;
    var o := 8 * i;
    ExpandedTurn(s, key, i); RconTable(i); TeRotSubIsSubWord(s, rk[o + 7]);
    ExpandedPlain(s, key, i, 1); ExpandedPlain(s, key, i, 2); ExpandedPlain(s, key, i, 3);
    At(s, key, rk[..], o + 8, o); At(s, key, rk[..], o + 8, o + 7);
    Put(s, key, rk, o + 8, XorW(XorW(rk[o], TeRotSub(s, rk[o + 7])), Word(RCON[i], 0, 0, 0)));
    At(s, key, rk[..], o + 9, o + 1); At(s, key, rk[..], o + 9, o + 8);
    Put(s, key, rk, o + 9, XorW(rk[o + 1], rk[o + 8]));
    At(s, key, rk[..], o + 10, o + 2); At(s, key, rk[..], o + 10, o + 9);
    Put(s, key, rk, o + 10, XorW(rk[o + 2], rk[o + 9]));
    At(s, key, rk[..], o + 11, o + 3); At(s, key, rk[..], o + 11, o + 10);
    Put(s, key, rk, o + 11, XorW(rk[o + 3], rk[o + 10]));
  }

  /** The rest of the turn. */
  method SecondHalfTurn(s: SBox, key: Bytes, rk: array<Word>, i: nat)
    requires |key| == 32 && rk.Length == 60 && i < 6 && ExpandedTo(s, key, rk[..], 8 * i + 12)
    modifies rk
    ensures ExpandedTo(s, key, rk[..], 8 * i + 16)
  {
    hide XorW, SubWord, RotWord, Rcon, TeSub, Expanded, ExpandedTo;
    var o := 8 * i;
    var temp := rk[o + 11];
    ExpandedTurn(s, key, i); TeSubIsSubWord(s, temp.a, temp.b, temp.c, temp.d);
    ExpandedPlain(s, key, i, 5); ExpandedPlain(s, key, i, 6); ExpandedPlain(s, key, i, 7);
    At(s, key, rk[..], o + 12, o + 4); At(s, key, rk[..], o + 12, o + 11);
    Put(s, key, rk, o + 12, XorW(rk[o + 4], TeSub(s, temp.a, temp.b, temp.c, temp.d)));
    At(s, key, rk[..], o + 13, o + 5); At(s, key, rk[..], o + 13, o + 12);
    Put(s, key, rk, o + 13, XorW(rk[o + 5], rk[o + 12]));
    At(s, key, rk[..], o + 14, o + 6); At(s, key, rk[..], o + 14, o + 13);
    Put(s, key, rk, o + 14, XorW(rk[o + 6], rk[o + 13]));
    At(s, key, rk[..], o + 15, o + 7); At(s, key, rk[..], o + 15, o + 14);
    Put(s, key, rk, o + 15, XorW(rk[o + 7], rk[o + 14]));
  }

  /** The expansion loop of p_initSW: eight words a turn, the last turn stopping after four. */
  method ExpandKey(s: SBox, key: Bytes, rk: array<Word>)
    requires |key| == 32 && rk.Length == 60
    modifies rk
    ensures rk[..] == KeySchedule(s, key)
  {
    rk[0], rk[1], rk[2], rk[3] := LoadWord(key, 0), LoadWord(key, 4), LoadWord(key, 8), LoadWord(key, 12);
    rk[4], rk[5], rk[6], rk[7] := LoadWord(key, 16), LoadWord(key, 20), LoadWord(key, 24), LoadWord(key, 28);
    assert ExpandedTo(s, key, rk[..], 8);
    hide Expanded;
    var i := 0;
    while true
      invariant 0 <= i < 7 && ExpandedTo(s, key, rk[..], 8 * i + 8)
      decreases 7 - i
    {
      FirstHalfTurn(s, key, rk, i);
      i := i + 1;
      if i == 7 { break; }
      SecondHalfTurn(s, key, rk, i - 1);
    }
  }

  /** Swaps the round keys p and q. */
  method SwapGroups(rk: array<Word>, p: nat, q: nat)
    requires rk.Length == 60 && p < q <= 14
    modifies rk
    ensures forall g: nat | g <= 14 ::
      RoundKey(rk[..], g) == RoundKey(old(rk[..]), if g == p then q else if g == q then p else g)
  {
    var i, j := 4 * p, 4 * q;
    rk[i], rk[j] := rk[j], rk[i];
    rk[i + 1], rk[j + 1] := rk[j + 1], rk[i + 1];
    rk[i + 2], rk[j + 2] := rk[j + 2], rk[i + 2];
    rk[i + 3], rk[j + 3] := rk[j + 3], rk[i + 3];
  }

  /** The p outermost pairs of round keys are swapped. */
  ghost predicate Swapped(start: seq<Word>, now: seq<Word>, p: nat) {
    && |start| == |now| == 60
    && forall g: nat | g <= 14 :: RoundKey(now, g) == RoundKey(start, if g < p || g > 14 - p then 14 - g else g)
  }

  lemma SwapExtends(start: seq<Word>, before: seq<Word>, after: seq<Word>, p: nat)
    requires p < 7 && Swapped(start, before, p) && |after| == 60
    requires forall g: nat | g <= 14 ::
      RoundKey(after, g) == RoundKey(before, if g == p then 14 - p else if g == 14 - p then p else g)
    ensures Swapped(start, after, p + 1)
  {
    hide RoundKey;
  }

  lemma NothingSwapped(start: seq<Word>)
    requires |start| == 60
    ensures Swapped(start, start, 0)
  {
  }

  lemma AllSwapped(start: seq<Word>, now: seq<Word>)
    requires Swapped(start, now, 7)
    ensures forall g: nat | g <= 14 :: RoundKey(now, g) == RoundKey(start, 14 - g)
  {
    hide RoundKey;
  }

  /** The loop of p_initSW that reverses the order of the round keys. */
  method ReverseGroups(rk: array<Word>)
    requires rk.Length == 60
    modifies rk
    ensures forall g: nat | g <= 14 :: RoundKey(rk[..], g) == RoundKey(old(rk[..]), 14 - g)
  {
    hide RoundKey, Swapped;
    var p, q := 0, 14;
    ghost var start := rk[..];
    NothingSwapped(start);
    while p < q
      invariant 0 <= p <= 7 && p + q == 14 && Swapped(start, rk[..], p)
      decreases q - p
    {
      ghost var before := rk[..];
      SwapGroups(rk, p, q);
      SwapExtends(start, before, rk[..], p);
      p, q := p + 1, q - 1;
    }
    AllSwapped(start, rk[..]);
  }

  method InvMixGroup(s: SBox, rk: array<Word>, r: nat)
    requires rk.Length == 60 && r <= 14
    modifies rk
    ensures forall g: nat | g <= 14 ::
      RoundKey(rk[..], g) == if g == r then InvMixColumns(RoundKey(old(rk[..]), g)) else RoundKey(old(rk[..]), g)
  {
    hide InvMixColumn, TdOfTe;
    var o := 4 * r;
    TdOfTeIsInvMix(s, rk[o]); TdOfTeIsInvMix(s, rk[o + 1]); TdOfTeIsInvMix(s, rk[o + 2]); TdOfTeIsInvMix(s, rk[o + 3]);
    rk[o] := TdOfTe(s, rk[o]);
    rk[o + 1] := TdOfTe(s, rk[o + 1]);
    rk[o + 2] := TdOfTe(s, rk[o + 2]);
    rk[o + 3] := TdOfTe(s, rk[o + 3]);
  }

  /** The last loop of p_initSW: the inner thirteen round keys through the inverse tables. */
  method InvMixInner(s: SBox, rk: array<Word>)
    requires rk.Length == 60
    modifies rk
    ensures forall g: nat | g <= 14 ::
      RoundKey(rk[..], g) == if 0 < g < 14 then InvMixColumns(RoundKey(old(rk[..]), g)) else RoundKey(old(rk[..]), g)
  {
    hide RoundKey, InvMixColumns;
    for i := 1 to 14
      invariant forall g: nat | g <= 14 ::
        RoundKey(rk[..], g) == if 0 < g < i then InvMixColumns(RoundKey(old(rk[..]), g)) else RoundKey(old(rk[..]), g)
    {
      InvMixGroup(s, rk, i);
    }
  }
}
