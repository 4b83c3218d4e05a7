/** AES-256: the table-driven rounds and key expansion of the software cipher, proved against FIPS 197. */
module AesCipher {
  import opened Blocks
  import opened AesTables

  // ---- Lookup tables ----

  /** Entry x of Te0. */
  function Te0(s: SBox, x: bv8): Word { Te(s.S(x)) }

  /** Entry x of Td0. */
  function Td0(s: SBox, x: bv8): Word {
    Td(s.Inv(x))
  }

  /** One word of an encryption round: four table lookups and a round key word. */
  function TeRow(s: SBox, p: bv8, q: bv8, r: bv8, t: bv8, k: Word): Word {
    XorW(XorW(XorW(XorW(Te0(s, p), Ror8(Te0(s, q))), Ror16(Te0(s, r))), Ror24(Te0(s, t))), k)
  }

  function TdRow(s: SBox, p: bv8, q: bv8, r: bv8, t: bv8, k: Word): Word {
    XorW(XorW(XorW(XorW(Td0(s, p), Ror8(Td0(s, q))), Ror16(Td0(s, r))), Ror24(Td0(s, t))), k)
  }

  // The masks m8_24, m8_16, m8_8 and m8.
  function KeepA(w: Word): Word { Word(w.a, 0, 0, 0) }
  function KeepB(w: Word): Word { Word(0, w.b, 0, 0) }
  function KeepC(w: Word): Word { Word(0, 0, w.c, 0) }
  function KeepD(w: Word): Word { Word(0, 0, 0, w.d) }

  /** Four bytes substituted with masked entries of rotated Te0. */
  function TeSub(s: SBox, p: bv8, q: bv8, r: bv8, t: bv8): Word {
    XorW(XorW(XorW(KeepA(Ror16(Te0(s, p))), KeepB(Ror24(Te0(s, q)))), KeepC(Te0(s, r))), KeepD(Ror8(Te0(s, t))))
  }

  function TdLast(s: SBox, p: bv8, q: bv8, r: bv8, t: bv8, k: Word): Word {
    XorW(Word(s.Inv(p), s.Inv(q), s.Inv(r), s.Inv(t)), k)
  }

  // ---- Rounds as the code computes them ----

  function RoundKey(w: seq<Word>, r: nat): State
    requires |w| == 60 && r <= 14
  {
    State(w[4 * r], w[4 * r + 1], w[4 * r + 2], w[4 * r + 3])
  }

  function TeRound(s: SBox, t: State, k: State): State {
    State(TeRow(s, t.w0.a, t.w1.b, t.w2.c, t.w3.d, k.w0), TeRow(s, t.w1.a, t.w2.b, t.w3.c, t.w0.d, k.w1),
          TeRow(s, t.w2.a, t.w3.b, t.w0.c, t.w1.d, k.w2), TeRow(s, t.w3.a, t.w0.b, t.w1.c, t.w2.d, k.w3))
  }

  function TeLastRound(s: SBox, t: State, k: State): State {
    State(XorW(TeSub(s, t.w0.a, t.w1.b, t.w2.c, t.w3.d), k.w0), XorW(TeSub(s, t.w1.a, t.w2.b, t.w3.c, t.w0.d), k.w1),
          XorW(TeSub(s, t.w2.a, t.w3.b, t.w0.c, t.w1.d), k.w2), XorW(TeSub(s, t.w3.a, t.w0.b, t.w1.c, t.w2.d), k.w3))
  }

  function TdRound(s: SBox, t: State, k: State): State {
    State(TdRow(s, t.w0.a, t.w3.b, t.w2.c, t.w1.d, k.w0), TdRow(s, t.w1.a, t.w0.b, t.w3.c, t.w2.d, k.w1),
          TdRow(s, t.w2.a, t.w1.b, t.w0.c, t.w3.d, k.w2), TdRow(s, t.w3.a, t.w2.b, t.w1.c, t.w0.d, k.w3))
  }

  function TdLastRound(s: SBox, t: State, k: State): State {
    State(TdLast(s, t.w0.a, t.w3.b, t.w2.c, t.w1.d, k.w0), TdLast(s, t.w1.a, t.w0.b, t.w3.c, t.w2.d, k.w1),
          TdLast(s, t.w2.a, t.w1.b, t.w0.c, t.w3.d, k.w2), TdLast(s, t.w3.a, t.w2.b, t.w1.c, t.w0.d, k.w3))
  }

  /** The state after r table rounds from the whitened block t: p_encryptSW unrolls them. */
  function TeRounds(s: SBox, ek: seq<Word>, t: State, r: nat): State
    requires |ek| == 60 && r <= 13
  {
    if r == 0 then t else TeRound(s, TeRounds(s, ek, t, r - 1), RoundKey(ek, r))
  }

  function TdRounds(s: SBox, dk: seq<Word>, t: State, r: nat): State
    requires |dk| == 60 && r <= 13
  {
    if r == 0 then XorS(t, RoundKey(dk, 0)) else TdRound(s, TdRounds(s, dk, t, r - 1), RoundKey(dk, r))
  }

  function LoadWord(b: Bytes, i: nat): Word
    requires i + 4 <= |b|
  {
    Word(b[i], b[i + 1], b[i + 2], b[i + 3])
  }

  function LoadState(b: Bytes): State
    requires IsBlock(b)
  {
    State(LoadWord(b, 0), LoadWord(b, 4), LoadWord(b, 8), LoadWord(b, 12))
  }

  function StoreWord(w: Word): Bytes { [w.a, w.b, w.c, w.d] }

  function StoreState(t: State): (b: Bytes)
    ensures IsBlock(b) && LoadState(b) == t
  {
    StoreWord(t.w0) + StoreWord(t.w1) + StoreWord(t.w2) + StoreWord(t.w3)
  }

  lemma StoreLoad(b: Bytes)
    requires IsBlock(b)
    ensures StoreState(LoadState(b)) == b
  {
  }

  /** The fourteen rounds, from a block to which the first round key is already added. */
  function EncryptWhitened(s: SBox, ek: seq<Word>, t: State): State
    requires |ek| == 60
  {
    TeLastRound(s, TeRounds(s, ek, t, 13), RoundKey(ek, 14))
  }

  /** p_encryptSW. */
  function EncryptSW(s: SBox, ek: seq<Word>, block: Bytes): (out: Bytes)
    requires |ek| == 60 && IsBlock(block)
    ensures IsBlock(out)
  {
    StoreState(EncryptWhitened(s, ek, XorS(LoadState(block), RoundKey(ek, 0))))
  }

  /** p_decryptSW. */
  function DecryptSW(s: SBox, dk: seq<Word>, block: Bytes): (out: Bytes)
    requires |dk| == 60 && IsBlock(block)
    ensures IsBlock(out)
  {
    StoreState(TdLastRound(s, TdRounds(s, dk, LoadState(block), 13), RoundKey(dk, 14)))
  }

  // ---- FIPS 197 ----

  /** The state after round r of Cipher, section 5.1 of FIPS 197. */
  function CipherRounds(s: SBox, w: seq<Word>, t: State, r: nat): State
    requires |w| == 60 && r <= 13
  {
    if r == 0 then XorS(t, RoundKey(w, 0))
    else XorS(MixColumns(ShiftRows(SubBytes(s, CipherRounds(s, w, t, r - 1)))), RoundKey(w, r))
  }

  function Cipher(s: SBox, w: seq<Word>, t: State): State
    requires |w| == 60
  {
    XorS(ShiftRows(SubBytes(s, CipherRounds(s, w, t, 13))), RoundKey(w, 14))
  }

  /** The state after r rounds of InvCipher, section 5.3 of FIPS 197, which uses the round keys backwards. */
  function InvCipherRounds(s: SBox, w: seq<Word>, t: State, r: nat): State
    requires |w| == 60 && r <= 13
  {
    if r == 0 then XorS(t, RoundKey(w, 14))
    else InvMixColumns(XorS(InvSubBytes(s, InvShiftRows(InvCipherRounds(s, w, t, r - 1))), RoundKey(w, 14 - r)))
  }

  function InvCipher(s: SBox, w: seq<Word>, t: State): State
    requires |w| == 60
  {
    XorS(InvSubBytes(s, InvShiftRows(InvCipherRounds(s, w, t, 13))), RoundKey(w, 0))
  }

  /** The decryption schedule: round keys backwards, the inner thirteen through InvMixColumns (section 5.3.5). */
  ghost predicate IsDecryptionSchedule(ek: seq<Word>, dk: seq<Word>) {
    && |ek| == 60 && |dk| == 60
    && RoundKey(dk, 0) == RoundKey(ek, 14) && RoundKey(dk, 14) == RoundKey(ek, 0)
    && forall r: nat | 0 < r < 14 :: MixedAt(ek, dk, r)
  }

  ghost predicate MixedAt(ek: seq<Word>, dk: seq<Word>, r: nat)
    requires |ek| == |dk| == 60 && r <= 14
  {
    RoundKey(dk, r) == InvMixColumns(RoundKey(ek, 14 - r))
  }

  // ---- Tables compute the reference transformations ----

  lemma TeRowIsMix(s: SBox, p: bv8, q: bv8, r: bv8, t: bv8, k: Word)
    ensures TeRow(s, p, q, r, t, k) == XorW(MixColumn(SubWord(s, Word(p, q, r, t))), k)
  {
    hide MixColumn, Te, XorW, Ror8, Ror16, Ror24;
    MixColumnIsTables(SubWord(s, Word(p, q, r, t)));
  }

  lemma TeRoundIsRound(s: SBox, t: State, k: State)
    ensures TeRound(s, t, k) == XorS(MixColumns(ShiftRows(SubBytes(s, t))), k)
  {
    hide MixColumn, TeRow, XorW;
    TeRowIsMix(s, t.w0.a, t.w1.b, t.w2.c, t.w3.d, k.w0); TeRowIsMix(s, t.w1.a, t.w2.b, t.w3.c, t.w0.d, k.w1);
    TeRowIsMix(s, t.w2.a, t.w3.b, t.w0.c, t.w1.d, k.w2); TeRowIsMix(s, t.w3.a, t.w0.b, t.w1.c, t.w2.d, k.w3);
  }

  lemma TeSubIsSubWord(s: SBox, p: bv8, q: bv8, r: bv8, t: bv8)
    ensures TeSub(s, p, q, r, t) == SubWord(s, Word(p, q, r, t))
  {
    hide X, Plus, By2, By3;
    PlusZero(s.S(p)); PlusZero(s.S(q)); PlusZero(s.S(r)); PlusZero(s.S(t)); PlusZero(0);
  }

  lemma TeLastRoundIsRound(s: SBox, t: State, k: State)
    ensures TeLastRound(s, t, k) == XorS(ShiftRows(SubBytes(s, t)), k)
  {
    hide TeSub, XorW;
    TeSubIsSubWord(s, t.w0.a, t.w1.b, t.w2.c, t.w3.d); TeSubIsSubWord(s, t.w1.a, t.w2.b, t.w3.c, t.w0.d);
    TeSubIsSubWord(s, t.w2.a, t.w3.b, t.w0.c, t.w1.d); TeSubIsSubWord(s, t.w3.a, t.w0.b, t.w1.c, t.w2.d);
  }

  lemma {:induction false} TeRoundsAreCipher(s: SBox, ek: seq<Word>, t: State, r: nat)
    requires |ek| == 60 && r <= 13
    ensures TeRounds(s, ek, XorS(t, RoundKey(ek, 0)), r) == CipherRounds(s, ek, t, r)
  {
    hide TeRound, XorS, MixColumns, ShiftRows, SubBytes;
    if r > 0 {
      TeRoundsAreCipher(s, ek, t, r - 1);
      TeRoundIsRound(s, CipherRounds(s, ek, t, r - 1), RoundKey(ek, r));
    }
  }

  /** The table-driven encryption is Cipher of section 5.1 of FIPS 197. */
  lemma EncryptIsCipher(s: SBox, ek: seq<Word>, block: Bytes)
    requires |ek| == 60 && IsBlock(block)
    ensures EncryptSW(s, ek, block) == StoreState(Cipher(s, ek, LoadState(block)))
  {
    hide TeLastRound, XorS, MixColumns, ShiftRows, SubBytes, TeRounds, CipherRounds, StoreState;
    TeRoundsAreCipher(s, ek, LoadState(block), 13);
    TeLastRoundIsRound(s, CipherRounds(s, ek, LoadState(block), 13), RoundKey(ek, 14));
  }

  lemma TdRowIsMix(s: SBox, p: bv8, q: bv8, r: bv8, t: bv8, k: Word)
    ensures TdRow(s, p, q, r, t, k) == XorW(InvMixColumn(InvSubWord(s, Word(p, q, r, t))), k)
  {
    hide InvMixColumn, XorW, Ror8, Ror16, Ror24, Td;
    InvMixColumnIsTables(InvSubWord(s, Word(p, q, r, t)));
  }

  lemma TdRoundIsRound(s: SBox, t: State, k: State)
    ensures TdRound(s, t, k) == XorS(InvMixColumns(InvSubBytes(s, InvShiftRows(t))), k)
  {
    hide InvMixColumn, TdRow, XorW;
    TdRowIsMix(s, t.w0.a, t.w3.b, t.w2.c, t.w1.d, k.w0); TdRowIsMix(s, t.w1.a, t.w0.b, t.w3.c, t.w2.d, k.w1);
    TdRowIsMix(s, t.w2.a, t.w1.b, t.w0.c, t.w3.d, k.w2); TdRowIsMix(s, t.w3.a, t.w2.b, t.w1.c, t.w0.d, k.w3);
  }

  lemma InvMixColumnsLinear(t: State, u: State)
    ensures InvMixColumns(XorS(t, u)) == XorS(InvMixColumns(t), InvMixColumns(u))
  {
    hide InvMixColumn, XorW;
    InvMixColumnLinear(t.w0, u.w0); InvMixColumnLinear(t.w1, u.w1); InvMixColumnLinear(t.w2, u.w2);
    InvMixColumnLinear(t.w3, u.w3);
  }

  lemma {:induction false} TdRoundsAreInvCipher(s: SBox, ek: seq<Word>, dk: seq<Word>, t: State, r: nat)
    requires IsDecryptionSchedule(ek, dk) && r <= 13
    ensures TdRounds(s, dk, t, r) == InvCipherRounds(s, ek, t, r)
  {
    hide TdRound, XorS, InvMixColumns, InvShiftRows, InvSubBytes, RoundKey;
    if r > 0 {
      TdRoundsAreInvCipher(s, ek, dk, t, r - 1);
      assert MixedAt(ek, dk, r);
      var u := InvCipherRounds(s, ek, t, r - 1);
      TdRoundIsRound(s, u, RoundKey(dk, r));
      InvMixColumnsLinear(InvSubBytes(s, InvShiftRows(u)), RoundKey(ek, 14 - r));
    }
  }

  /** The table-driven decryption is InvCipher of section 5.3 of FIPS 197. */
  lemma DecryptIsInvCipher(s: SBox, ek: seq<Word>, dk: seq<Word>, block: Bytes)
    requires IsDecryptionSchedule(ek, dk) && IsBlock(block)
    ensures DecryptSW(s, dk, block) == StoreState(InvCipher(s, ek, LoadState(block)))
  {
    TdRoundsAreInvCipher(s, ek, dk, LoadState(block), 13);
    hide XorW, InvCipherRounds, TdRounds, StoreState;
  }

  // ---- Decryption undoes encryption ----

  lemma XorSCancels(t: State, k: State)
    ensures XorS(XorS(t, k), k) == t
  {
    PlusCancels(t.w0, k.w0); PlusCancels(t.w1, k.w1); PlusCancels(t.w2, k.w2); PlusCancels(t.w3, k.w3);
    hide XorW;
  }

  lemma PlusCancels(v: Word, w: Word)
    ensures XorW(XorW(v, w), w) == v
  {
  }

  lemma SubBytesUndone(s: SBox, t: State)
    ensures InvSubBytes(s, InvShiftRows(ShiftRows(SubBytes(s, t)))) == t
    ensures ShiftRows(SubBytes(s, InvSubBytes(s, InvShiftRows(t)))) == t
  {
    SubWordUndone(s, t.w0); SubWordUndone(s, t.w1); SubWordUndone(s, t.w2); SubWordUndone(s, t.w3);
    var u := InvShiftRows(t);
    SubWordUndone(s, u.w0); SubWordUndone(s, u.w1); SubWordUndone(s, u.w2); SubWordUndone(s, u.w3);
    assert ShiftRows(u) == t;
    hide SubWord, InvSubWord;
  }

  lemma SubWordUndone(s: SBox, w: Word)
    ensures InvSubWord(s, SubWord(s, w)) == w && SubWord(s, InvSubWord(s, w)) == w
  {
  }

  lemma MixColumnsUndone(t: State)
    ensures InvMixColumns(MixColumns(t)) == t && MixColumns(InvMixColumns(t)) == t
  {
    hide MixColumn, InvMixColumn;
    MixColumnUndoes(t.w0); MixColumnUndoes(t.w1); MixColumnUndoes(t.w2); MixColumnUndoes(t.w3);
    InvMixColumnUndoes(t.w0); InvMixColumnUndoes(t.w1); InvMixColumnUndoes(t.w2); InvMixColumnUndoes(t.w3);
  }

  lemma {:induction false} InvCipherRetraces(s: SBox, w: seq<Word>, t: State, r: nat)
    requires |w| == 60 && r <= 13
    ensures InvCipherRounds(s, w, Cipher(s, w, t), r) == ShiftRows(SubBytes(s, CipherRounds(s, w, t, 13 - r)))
  {
    hide XorS, InvMixColumns, MixColumns, InvShiftRows, ShiftRows, InvSubBytes, SubBytes, RoundKey;
    if r == 0 {
      XorSCancels(ShiftRows(SubBytes(s, CipherRounds(s, w, t, 13))), RoundKey(w, 14));
    } else {
      InvCipherRetraces(s, w, t, r - 1);
      var before, after := CipherRounds(s, w, t, 13 - r), CipherRounds(s, w, t, 14 - r);
      SubBytesUndone(s, after);
      XorSCancels(MixColumns(ShiftRows(SubBytes(s, before))), RoundKey(w, 14 - r));
      MixColumnsUndone(ShiftRows(SubBytes(s, before)));
    }
  }

  lemma InvCipherUndoesCipher(s: SBox, w: seq<Word>, t: State)
    requires |w| == 60
    ensures InvCipher(s, w, Cipher(s, w, t)) == t
  {
    hide XorS, InvShiftRows, ShiftRows, InvSubBytes, SubBytes, RoundKey, Cipher, InvCipherRounds;
    InvCipherRetraces(s, w, t, 13);
    SubBytesUndone(s, CipherRounds(s, w, t, 0));
    XorSCancels(t, RoundKey(w, 0));
  }

  /** For every key and block, p_decryptSW undoes p_encryptSW. */
  lemma DecryptUndoesEncrypt(s: SBox, ek: seq<Word>, dk: seq<Word>, block: Bytes)
    requires IsDecryptionSchedule(ek, dk) && IsBlock(block)
    ensures DecryptSW(s, dk, EncryptSW(s, ek, block)) == block
  {
    hide Cipher, InvCipher, EncryptSW, DecryptSW, StoreState;
    EncryptIsCipher(s, ek, block);
    var c := Cipher(s, ek, LoadState(block));
    DecryptIsInvCipher(s, ek, dk, StoreState(c));
    InvCipherUndoesCipher(s, ek, LoadState(block));
    StoreLoad(block);
  }

  // ---- Encryption undoes decryption ----

  lemma {:induction false} CipherRetraces(s: SBox, w: seq<Word>, t: State, r: nat)
    requires |w| == 60 && r <= 13
    ensures ShiftRows(SubBytes(s, CipherRounds(s, w, InvCipher(s, w, t), r))) == InvCipherRounds(s, w, t, 13 - r)
  {
    hide XorS, InvMixColumns, MixColumns, InvShiftRows, ShiftRows, InvSubBytes, SubBytes, RoundKey;
    var before := InvCipherRounds(s, w, t, 13 - r);
    SubBytesUndone(s, before);
    if r == 0 {
      XorSCancels(InvSubBytes(s, InvShiftRows(before)), RoundKey(w, 0));
    } else {
      CipherRetraces(s, w, t, r - 1);
      var u := XorS(InvSubBytes(s, InvShiftRows(before)), RoundKey(w, r));
      assert InvCipherRounds(s, w, t, 14 - r) == InvMixColumns(u);
      MixColumnsUndone(u);
      XorSCancels(InvSubBytes(s, InvShiftRows(before)), RoundKey(w, r));
    }
  }

  lemma CipherUndoesInvCipher(s: SBox, w: seq<Word>, t: State)
    requires |w| == 60
    ensures Cipher(s, w, InvCipher(s, w, t)) == t
  {
    hide XorS, InvShiftRows, ShiftRows, InvSubBytes, SubBytes, RoundKey, InvCipher, CipherRounds;
    CipherRetraces(s, w, t, 13);
    XorSCancels(t, RoundKey(w, 14));
  }

  /** For every key and block, p_encryptSW undoes p_decryptSW. */
  lemma EncryptUndoesDecrypt(s: SBox, ek: seq<Word>, dk: seq<Word>, block: Bytes)
    requires IsDecryptionSchedule(ek, dk) && IsBlock(block)
    ensures EncryptSW(s, ek, DecryptSW(s, dk, block)) == block
  {
    hide Cipher, InvCipher, EncryptSW, DecryptSW, StoreState;
    DecryptIsInvCipher(s, ek, dk, block);
    var p := InvCipher(s, ek, LoadState(block));
    EncryptIsCipher(s, ek, StoreState(p));
    CipherUndoesInvCipher(s, ek, LoadState(block));
    StoreLoad(block);
  }
}
