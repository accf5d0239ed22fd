/** The formulas of FIPS 197, byte by byte, as the reference the table-driven cipher is held against. */
module Fips197 {
  import opened Galois
  import opened Columns
  import opened Rijndael
  import opened Cipher

  // ---- Bytes ----

  predicate BitAt(b: bv8, i: nat) {
    Has(b, Bit(i))
  }

  predicate Odd(a: bool, b: bool, c: bool, d: bool, e: bool, f: bool) {
    (((((a != b) != c) != d) != e) != f)
  }

  /** The affine map, bit by bit: bit `i` is the parity of five bits of the inverse and of bit `i` of 0x63
      (section 5.1.1). */
  lemma SubBits(b: bv8, i: nat)
    requires i < 8
    ensures var q := Inverse(b);
            BitAt(Sub(b), i) ==
            Odd(BitAt(q, i), BitAt(q, (i + 4) % 8), BitAt(q, (i + 5) % 8), BitAt(q, (i + 6) % 8),
                BitAt(q, (i + 7) % 8), BitAt(0x63, i))
  {
    AffineBits(Inverse(b), i);
  }

  lemma AffineBits(q: bv8, i: nat)
    requires i < 8
    ensures BitAt(Affine(q), i) ==
            Odd(BitAt(q, i), BitAt(q, (i + 4) % 8), BitAt(q, (i + 5) % 8), BitAt(q, (i + 6) % 8),
                BitAt(q, (i + 7) % 8), BitAt(0x63, i))
  {
    hide Affine, Odd, Has, Bit;
    Bits();
    if i < 4 {
      LowBits(q);
      assert i == 0 || i == 1 || i == 2 || i == 3;
    } else {
      HighBits(q);
      assert i == 4 || i == 5 || i == 6 || i == 7;
    }
  }

  lemma Bits()
    ensures Bit(0) == 0x01 && Bit(1) == 0x02 && Bit(2) == 0x04 && Bit(3) == 0x08
    ensures Bit(4) == 0x10 && Bit(5) == 0x20 && Bit(6) == 0x40 && Bit(7) == 0x80
  {
  }

  predicate Has(b: bv8, mask: bv8) {
    b & mask != 0
  }

  lemma LowBits(q: bv8)
    ensures Has(Affine(q), 0x01) ==
            Odd(Has(q, 0x01), Has(q, 0x10), Has(q, 0x20), Has(q, 0x40), Has(q, 0x80), Has(0x63, 0x01))
    ensures Has(Affine(q), 0x02) ==
            Odd(Has(q, 0x02), Has(q, 0x20), Has(q, 0x40), Has(q, 0x80), Has(q, 0x01), Has(0x63, 0x02))
    ensures Has(Affine(q), 0x04) ==
            Odd(Has(q, 0x04), Has(q, 0x40), Has(q, 0x80), Has(q, 0x01), Has(q, 0x02), Has(0x63, 0x04))
    ensures Has(Affine(q), 0x08) ==
            Odd(Has(q, 0x08), Has(q, 0x80), Has(q, 0x01), Has(q, 0x02), Has(q, 0x04), Has(0x63, 0x08))
  {
  }

  lemma HighBits(q: bv8)
    ensures Has(Affine(q), 0x10) ==
            Odd(Has(q, 0x10), Has(q, 0x01), Has(q, 0x02), Has(q, 0x04), Has(q, 0x08), Has(0x63, 0x10))
    ensures Has(Affine(q), 0x20) ==
            Odd(Has(q, 0x20), Has(q, 0x02), Has(q, 0x04), Has(q, 0x08), Has(q, 0x10), Has(0x63, 0x20))
    ensures Has(Affine(q), 0x40) ==
            Odd(Has(q, 0x40), Has(q, 0x04), Has(q, 0x08), Has(q, 0x10), Has(q, 0x20), Has(0x63, 0x40))
    ensures Has(Affine(q), 0x80) ==
            Odd(Has(q, 0x80), Has(q, 0x08), Has(q, 0x10), Has(q, 0x20), Has(q, 0x40), Has(0x63, 0x80))
  {
  }

  /** Products are products of polynomials modulo x^8 + x^4 + x^3 + x + 1: additive in one factor, indifferent to the
      order, with 1 as unit, and x times x^7 is x^4 + x^3 + x + 1 (section 4.2). With these no product is left open. */
  lemma ProductsArePolynomial(a: bv8, b: bv8, c: bv8)
    ensures Mul(a ^ b, c) == Mul(a, c) ^ Mul(b, c) && Mul(a, b) == Mul(b, a) && Mul(1, a) == a
    ensures forall i :: 0 <= i < 7 ==> Mul(Bit(i), 2) == Bit(i + 1)
    ensures Mul(Bit(7), 2) == 0x1B
  {
    hide Mul, Plus, Bit;
    SumsDistribute(a, b, c);
    MulOne(a);
    FactorsSwap(a, b);
    forall i | 0 <= i < 7 ensures Mul(Bit(i), 2) == Bit(i + 1) {
      BitsDouble(i);
    }
    TopBitWraps();
  }

  lemma SumsDistribute(a: bv8, b: bv8, c: bv8)
    ensures Mul(a ^ b, c) == Mul(a, c) ^ Mul(b, c)
  {
    hide Mul;
    MulIsLinear(a, b, c);
  }

  lemma FactorsSwap(a: bv8, b: bv8)
    ensures Mul(a, b) == Mul(b, a)
  {
    hide Mul;
    if a == 0 || b == 0 {
      MulByZero(a);
      MulByZero(b);
    } else {
      MulCommutes(a, b);
    }
  }

  lemma BitsDouble(i: nat)
    requires i < 7
    ensures Mul(Bit(i), 2) == Bit(i + 1)
  {
    hide Mul, Xtime, Plus, Bit, Half, Drop, High, Term;
    MulBySmall(Bit(i));
    NextBit(0, i);
  }

  lemma TopBitWraps()
    ensures Mul(Bit(7), 2) == 0x1B
  {
    hide Mul;
    MulBySmall(Bit(7));
  }

  lemma MulByZero(a: bv8)
    ensures Mul(0, a) == 0 && Mul(a, 0) == 0
  {
    MulIsLinear(0, 0, a);
    assert Plus(0, 0) == 0;
    assert Plus(Mul(0, a), Mul(0, a)) == 0;
  }

  /** The worked example of section 4.2. */
  lemma FiftySevenTimesEightyThree()
    ensures Mul(0x57, 0x83) == 0xC1
  {
  }

  // ---- Rows and columns ----

  /** Byte (r, c) of the state: the state is held column by column (section 3.4). */
  function At(s: Block, r: nat, c: nat): bv8
    requires r < 4 && c < 4
  {
    s[r + 4 * c]
  }

  /** Row `r` moves left by `r` (section 5.1.2), and back. */
  lemma RowsTurn(s: Block, r: nat, c: nat)
    requires r < 4 && c < 4
    ensures At(ShiftRows(s), r, c) == At(s, r, (c + r) % 4)
    ensures At(UnshiftRows(s), r, (c + r) % 4) == At(s, r, c)
  {
    var places := (c == 0 || c == 1 || c == 2 || c == 3) && (r == 0 || r == 1 || r == 2 || r == 3);
    assert places;
  }

  /** Words turn left by one byte (section 5.2). */
  lemma WordsTurn(w: Word, j: nat)
    requires j < 4
    ensures RotWord(w)[j] == w[(j + 1) % 4]
  {
  }

  /** The coefficient of row `j` in row `r` of a mixed column (section 5.1.3). */
  function Coefficient(r: nat, j: nat): bv8 {
    if j == r then 2 else if j == (r + 1) % 4 then 3 else 1
  }

  function MixedByte(a: bv8, b: bv8, c: bv8, d: bv8, r: nat): bv8 {
    Sum4(Mul(a, Coefficient(r, 0)), Mul(b, Coefficient(r, 1)), Mul(c, Coefficient(r, 2)), Mul(d, Coefficient(r, 3)))
  }

  lemma ColumnsMix(s: Block, r: nat, c: nat)
    requires r < 4 && c < 4
    ensures At(MixColumns(s), r, c) == MixedByte(At(s, 0, c), At(s, 1, c), At(s, 2, c), At(s, 3, c), r)
  {
    hide Mix, MixedByte;
    MixByte(At(s, 0, c), At(s, 1, c), At(s, 2, c), At(s, 3, c), r);
    match c
    case 0 => case 1 => case 2 => case _ =>
  }

  lemma MixByte(a: bv8, b: bv8, c: bv8, d: bv8, r: nat)
    requires r < 4
    ensures Mix(a, b, c, d)[r] == MixedByte(a, b, c, d, r)
  {
    hide Mul, Sum4, Xtime, Plus;
    MulBySmall(a);
    MulBySmall(b);
    MulBySmall(c);
    MulBySmall(d);
    match r
    case 0 => case 1 => case 2 => case _ =>
  }

  lemma KeysAdd(s: Block, k: Block, r: nat, c: nat)
    requires r < 4 && c < 4
    ensures At(AddRoundKey(s, k), r, c) == Plus(At(s, r, c), At(k, r, c))
  {
  }

  lemma BytesAreSubstituted(s: Block, r: nat, c: nat)
    requires r < 4 && c < 4
    ensures |SubBytes(s)| == 16 && At(SubBytes(s), r, c) == Sub(At(s, r, c))
  {
    hide Sub;
  }

  // ---- The cipher ----

  /** Byte (r, c) of the state after round `n` of ten: each byte of a round from the four, or the one, before it. */
  ghost function StateByte(keys: seq<Block>, block: Block, n: nat, r: nat, c: nat): bv8
    requires |keys| == 11 && n <= 10 && r < 4 && c < 4
    decreases n
  {
    if n == 0 then Plus(At(block, r, c), At(keys[0], r, c))
    else if n == 10 then Plus(Sub(StateByte(keys, block, 9, r, (c + r) % 4)), At(keys[10], r, c))
    else
      Plus(MixedByte(Sub(StateByte(keys, block, n - 1, 0, c)), Sub(StateByte(keys, block, n - 1, 1, (c + 1) % 4)),
                     Sub(StateByte(keys, block, n - 1, 2, (c + 2) % 4)),
                     Sub(StateByte(keys, block, n - 1, 3, (c + 3) % 4)), r),
           At(keys[n], r, c))
  }

  lemma {:induction false} RoundsAreStandard(keys: seq<Block>, block: Block, n: nat, r: nat, c: nat)
    requires |keys| == 11 && n <= 9 && r < 4 && c < 4
    ensures At(Rounds(keys, block, n), r, c) == StateByte(keys, block, n, r, c)
    decreases n, 0
  {
    hide Sub, MixedByte, ShiftRows, MixColumns, AddRoundKey, SubBytes, At, Plus, Rounds, StateByte;
    if n == 0 {
      FirstUnfolds(keys, block, r, c);
      KeysAdd(block, keys[0], r, c);
    } else {
      RoundUnfolds(keys, block, n);
      StateUnfolds(keys, block, n, r, c);
      var s := Rounds(keys, block, n - 1);
      Diagonal(keys, block, n - 1, 0, c);
      Diagonal(keys, block, n - 1, 1, c);
      Diagonal(keys, block, n - 1, 2, c);
      Diagonal(keys, block, n - 1, 3, c);
      ColumnsMix(ShiftRows(SubBytes(s)), r, c);
      KeysAdd(MixColumns(ShiftRows(SubBytes(s))), keys[n], r, c);
    }
  }

  lemma FirstUnfolds(keys: seq<Block>, block: Block, r: nat, c: nat)
    requires |keys| == 11 && r < 4 && c < 4
    ensures Rounds(keys, block, 0) == AddRoundKey(block, keys[0])
    ensures StateByte(keys, block, 0, r, c) == Plus(At(block, r, c), At(keys[0], r, c))
  {
    hide AddRoundKey, At, Plus;
  }

  lemma RoundUnfolds(keys: seq<Block>, block: Block, n: nat)
    requires |keys| == 11 && 1 <= n <= 9
    ensures Rounds(keys, block, n) ==
            AddRoundKey(MixColumns(ShiftRows(SubBytes(Rounds(keys, block, n - 1)))), keys[n])
  {
    hide AddRoundKey, MixColumns, ShiftRows, SubBytes;
  }

  lemma StateUnfolds(keys: seq<Block>, block: Block, n: nat, r: nat, c: nat)
    requires |keys| == 11 && 1 <= n <= 9 && r < 4 && c < 4
    ensures StateByte(keys, block, n, r, c) ==
            Plus(MixedByte(Sub(StateByte(keys, block, n - 1, 0, c)), Sub(StateByte(keys, block, n - 1, 1, (c + 1) % 4)),
                           Sub(StateByte(keys, block, n - 1, 2, (c + 2) % 4)),
                           Sub(StateByte(keys, block, n - 1, 3, (c + 3) % 4)), r),
                 At(keys[n], r, c))
  {
    hide Plus, MixedByte, Sub, At;
  }

  /** Row `r` of a column comes, substituted, from `r` columns on. */
  lemma {:induction false} Diagonal(keys: seq<Block>, block: Block, n: nat, r: nat, c: nat)
    requires |keys| == 11 && n <= 9 && r < 4 && c < 4
    ensures At(ShiftRows(SubBytes(Rounds(keys, block, n))), r, c) == Sub(StateByte(keys, block, n, r, (c + r) % 4))
    decreases n, 1
  {
    hide Sub, ShiftRows, SubBytes, At, Rounds, StateByte;
    var s := Rounds(keys, block, n);
    RoundsAreStandard(keys, block, n, r, (c + r) % 4);
    RowsTurn(SubBytes(s), r, c);
    BytesAreSubstituted(s, r, (c + r) % 4);
  }

  /** Every byte of a ciphertext is the standard's. */
  lemma EncryptionIsStandard(keys: seq<Block>, block: Block, r: nat, c: nat)
    requires |keys| == 11 && r < 4 && c < 4
    ensures At(Encrypted(keys, block), r, c) == StateByte(keys, block, 10, r, c)
  {
    hide Sub, ShiftRows, SubBytes, Rounds, AddRoundKey, At, Plus, Encrypted, StateByte;
    LastUnfolds(keys, block, r, c);
    Diagonal(keys, block, 9, r, c);
    KeysAdd(ShiftRows(SubBytes(Rounds(keys, block, 9))), keys[10], r, c);
  }

  lemma LastUnfolds(keys: seq<Block>, block: Block, r: nat, c: nat)
    requires |keys| == 11 && r < 4 && c < 4
    ensures Encrypted(keys, block) == AddRoundKey(ShiftRows(SubBytes(Rounds(keys, block, 9))), keys[10])
    ensures StateByte(keys, block, 10, r, c) == Plus(Sub(StateByte(keys, block, 9, r, (c + r) % 4)), At(keys[10], r, c))
  {
    hide Plus, MixedByte, Sub, At, AddRoundKey, ShiftRows, SubBytes, Rounds;
  }

  // ---- The key schedule ----

  /** x to the power `n` (section 5.2). */
  function PowerOfX(n: nat): bv8 {
    if n == 0 then 1 else Mul(PowerOfX(n - 1), 2)
  }

  /** Byte `j` of word `i` of the key schedule. */
  ghost function ScheduleByte(key: Block, i: nat, j: nat): bv8
    requires i < 44 && j < 4
    decreases i
  {
    if i < 4 then key[4 * i + j]
    else
      Plus(ScheduleByte(key, i - 4, j),
           if i % 4 != 0 then ScheduleByte(key, i - 1, j)
           else if j != 0 then Sub(ScheduleByte(key, i - 1, (j + 1) % 4))
           else Plus(Sub(ScheduleByte(key, i - 1, 1)), PowerOfX(i / 4 - 1)))
  }

  lemma {:induction false} ConstantsArePowers(n: nat)
    requires n < 10
    ensures RCON[n] == PowerOfX(n)
  {
    hide Mul, Xtime, Plus;
    if n == 0 {
      RoundConstantsDouble(0);
    } else {
      ConstantsArePowers(n - 1);
      RoundConstantsDouble(n - 1);
      MulBySmall(RCON[n - 1]);
    }
  }

  lemma {:induction false} ScheduleIsStandard(key: Block, i: nat, j: nat)
    requires i < 44 && j < 4
    ensures KeyWord(key, i)[j] == ScheduleByte(key, i, j)
    decreases i
  {
    hide Sub, RotWord, PowerOfX, NextWord, Plus;
    if i >= 4 {
      ScheduleIsStandard(key, i - 4, j);
      ScheduleIsStandard(key, i - 1, if i % 4 == 0 then (j + 1) % 4 else j);
      ConstantsArePowers(i / 4 - 1);
      ScheduledByte(i, KeyWord(key, i - 1), KeyWord(key, i - 4), j);
    }
  }

  lemma ScheduledByte(i: nat, before: Word, fourBack: Word, j: nat)
    requires 4 <= i < 44 && j < 4
    ensures NextWord(i, before, fourBack)[j] ==
            Plus(fourBack[j],
                 if i % 4 != 0 then before[j]
                 else if j != 0 then Sub(before[(j + 1) % 4])
                 else Plus(Sub(before[1]), RCON[i / 4 - 1]))
  {
    hide Sub, XorWord, XorFirst, SubWord, RotWord, Plus;
    var turned := RotWord(before);
    WordsTurn(before, j);
    SubstitutedWord(turned, j);
    FirstIsSummed(SubWord(turned), RCON[i / 4 - 1], j);
    WordsAreSummed(fourBack, if i % 4 == 0 then XorFirst(SubWord(turned), RCON[i / 4 - 1]) else before, j);
  }

  lemma SubstitutedWord(w: Word, j: nat)
    requires j < 4
    ensures SubWord(w)[j] == Sub(w[j])
  {
    hide Sub;
  }

  lemma FirstIsSummed(w: Word, x: bv8, j: nat)
    requires j < 4
    ensures XorFirst(w, x)[j] == if j == 0 then Plus(w[0], x) else w[j]
  {
  }

  lemma WordsAreSummed(v: Word, w: Word, j: nat)
    requires j < 4
    ensures XorWord(v, w)[j] == Plus(v[j], w[j])
  {
    match j
    case 0 => case 1 => case 2 => case _ =>
  }

  /** Every byte of every round key is the standard's. */
  lemma RoundKeysAreStandard(key: Block, n: nat, r: nat, c: nat)
    requires n < 11 && r < 4 && c < 4
    ensures At(RoundKeys(key)[n], r, c) == ScheduleByte(key, 4 * n + c, r)
  {
    hide KeyWord, ScheduleByte;
    ScheduleIsStandard(key, 4 * n + c, r);
    match c
    case 0 => case 1 => case 2 => case _ =>
  }
}
