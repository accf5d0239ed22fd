/** The AES-128 cipher and its inverse (sections 5.1 to 5.3 of FIPS 197). */
module Cipher {
  import opened Galois
  import opened Columns
  import opened Rijndael

  const RCON: Bytes := [0x01, 0x02, 0x04, 0x08, 0x10, 0x20, 0x40, 0x80, 0x1B, 0x36]

  type Word = w: Bytes | |w| == 4 witness [0, 0, 0, 0]

  /** Four columns, or four words, in a row. */
  function Join(a: Bytes, b: Bytes, c: Bytes, d: Bytes): Block
    requires |a| == |b| == |c| == |d| == 4
  {
    a + b + c + d
  }

  // ---- The transformations of a round ----

  function AddRoundKey(s: Block, k: Block): Block {
    seq(16, i requires 0 <= i < 16 => s[i] ^ k[i])
  }

  /** The state is column-major: byte i is row i % 4, column i / 4. */
  function ShiftRows(s: Block): Block {
    [s[0], s[5], s[10], s[15],
     s[4], s[9], s[14], s[3],
     s[8], s[13], s[2], s[7],
     s[12], s[1], s[6], s[11]]
  }

  function UnshiftRows(s: Block): Block {
    [s[0], s[13], s[10], s[7],
     s[4], s[1], s[14], s[11],
     s[8], s[5], s[2], s[15],
     s[12], s[9], s[6], s[3]]
  }

  function MixColumns(s: Block): Block {
    Join(Mix(s[0], s[1], s[2], s[3]), Mix(s[4], s[5], s[6], s[7]),
         Mix(s[8], s[9], s[10], s[11]), Mix(s[12], s[13], s[14], s[15]))
  }

  function UnmixColumns(s: Block): Block {
    Join(Unmix(s[0], s[1], s[2], s[3]), Unmix(s[4], s[5], s[6], s[7]),
         Unmix(s[8], s[9], s[10], s[11]), Unmix(s[12], s[13], s[14], s[15]))
  }

  ghost function SubBytes(s: Bytes): (r: Bytes)
    ensures |r| == |s|
  {
    seq(|s|, i requires 0 <= i < |s| => Sub(s[i]))
  }

  ghost function UnsubBytes(s: Bytes): (r: Bytes)
    ensures |r| == |s|
  {
    seq(|s|, i requires 0 <= i < |s| => Unsub(s[i]))
  }

  lemma KeyIsUndone(s: Block, k: Block)
    ensures AddRoundKey(AddRoundKey(s, k), k) == s
  {
    forall i | 0 <= i < 16 ensures AddRoundKey(AddRoundKey(s, k), k)[i] == s[i] {
      assert (s[i] ^ k[i]) ^ k[i] == s[i];
    }
  }

  lemma ShiftIsUndone(s: Block)
    ensures UnshiftRows(ShiftRows(s)) == s
  {
  }

  lemma SubIsUndone(s: Block)
    ensures UnsubBytes(SubBytes(s)) == s
  {
    hide Sub, Unsub;
    forall i | 0 <= i < 16 ensures UnsubBytes(SubBytes(s))[i] == s[i] {
      SubRoundTrip(s[i]);
    }
  }

  lemma MixingIsUndone(s: Block)
    ensures UnmixColumns(MixColumns(s)) == s
  {
    hide Mix, Unmix;
    MixIsUndone(s[0], s[1], s[2], s[3]);
    MixIsUndone(s[4], s[5], s[6], s[7]);
    MixIsUndone(s[8], s[9], s[10], s[11]);
    MixIsUndone(s[12], s[13], s[14], s[15]);
  }

  // ---- Whole blocks under eleven round keys ----

  /** The state entering round `n + 1`. */
  ghost function Rounds(keys: seq<Block>, block: Block, n: nat): Block
    requires |keys| == 11 && n <= 9
  {
    if n == 0 then AddRoundKey(block, keys[0])
    else AddRoundKey(MixColumns(ShiftRows(SubBytes(Rounds(keys, block, n - 1)))), keys[n])
  }

  ghost function Encrypted(keys: seq<Block>, block: Block): Block
    requires |keys| == 11
  {
    AddRoundKey(ShiftRows(SubBytes(Rounds(keys, block, 9))), keys[10])
  }

  /** The state once the inverse rounds 9 down to `n` are done. */
  ghost function Unrounds(keys: seq<Block>, block: Block, n: nat): Block
    requires |keys| == 11 && 1 <= n <= 10
    decreases 10 - n
  {
    if n == 10 then AddRoundKey(block, keys[10])
    else UnmixColumns(AddRoundKey(UnsubBytes(UnshiftRows(Unrounds(keys, block, n + 1))), keys[n]))
  }

  ghost function Decrypted(keys: seq<Block>, block: Block): Block
    requires |keys| == 11
  {
    AddRoundKey(UnsubBytes(UnshiftRows(Unrounds(keys, block, 1))), keys[0])
  }

  /** Inverse round by inverse round, decryption meets the states encryption went through. */
  lemma {:induction false} RoundsMeet(keys: seq<Block>, block: Block, n: nat)
    requires |keys| == 11 && 1 <= n <= 10
    ensures Unrounds(keys, Encrypted(keys, block), n) == ShiftRows(SubBytes(Rounds(keys, block, n - 1)))
    decreases 10 - n
  {
    hide AddRoundKey, ShiftRows, UnshiftRows, SubBytes, UnsubBytes, MixColumns, UnmixColumns;
    if n == 10 {
      KeyIsUndone(ShiftRows(SubBytes(Rounds(keys, block, 9))), keys[10]);
    } else {
      RoundsMeet(keys, block, n + 1);
      var s := Rounds(keys, block, n);
      ShiftIsUndone(SubBytes(s));
      SubIsUndone(s);
      var t := ShiftRows(SubBytes(Rounds(keys, block, n - 1)));
      KeyIsUndone(MixColumns(t), keys[n]);
      MixingIsUndone(t);
    }
  }

  /** Decryption undoes encryption, for every block and whatever the eleven round keys. */
  lemma DecryptionUndoesEncryption(keys: seq<Block>, block: Block)
    requires |keys| == 11
    ensures Decrypted(keys, Encrypted(keys, block)) == block
  {
    hide AddRoundKey, ShiftRows, UnshiftRows, SubBytes, UnsubBytes;
    RoundsMeet(keys, block, 1);
    ShiftIsUndone(SubBytes(Rounds(keys, block, 0)));
    SubIsUndone(Rounds(keys, block, 0));
    KeyIsUndone(block, keys[0]);
  }

  // ---- The key schedule ----

  ghost function SubWord(w: Word): Word {
    SubBytes(w)
  }

  function RotWord(w: Word): Word {
    w[1..] + w[..1]
  }

  function XorFirst(w: Word, c: bv8): Word {
    [w[0] ^ c, w[1], w[2], w[3]]
  }

  function XorWord(v: Word, w: Word): Word {
    [v[0] ^ w[0], v[1] ^ w[1], v[2] ^ w[2], v[3] ^ w[3]]
  }

  ghost function NextWord(i: nat, before: Word, fourBack: Word): Word
    requires 4 <= i < 44
  {
    var temp := if i % 4 == 0 then XorFirst(SubWord(RotWord(before)), RCON[i / 4 - 1]) else before;
    XorWord(fourBack, temp)
  }

  /** Word `i` of the schedule: the key itself, then each word from its neighbours (section 5.2 of FIPS 197). */
  ghost function KeyWord(key: Block, i: nat): Word
    requires i < 44
  {
    if i < 4 then key[4 * i..4 * i + 4] else NextWord(i, KeyWord(key, i - 1), KeyWord(key, i - 4))
  }

  ghost function RoundKeys(key: Block): (keys: seq<Block>)
    ensures |keys| == 11
  {
    seq(11, r requires 0 <= r < 11 =>
      Join(KeyWord(key, 4 * r), KeyWord(key, 4 * r + 1), KeyWord(key, 4 * r + 2), KeyWord(key, 4 * r + 3)))
  }

  /** The round constants are the powers of 2 in the field. */
  lemma RoundConstantsDouble(i: nat)
    requires i < 9
    ensures RCON[0] == 1 && RCON[i + 1] == Xtime(RCON[i])
  {
  }

  // ---- The cipher object ----

  class Aes128 {
    const sbox: Bytes
    const inv: Bytes
    const roundKeys: seq<Block>
    ghost const key: Block

    ghost predicate Valid() {
      AreTables(sbox, inv) && roundKeys == RoundKeys(key)
    }

    constructor (key: Block)
      ensures Valid() && this.key == key
    {
      hide AreTables, RoundKeys;
      var s, t := BuildTables();
      var keys := ExpandKey(key, s[..], t[..]);
      sbox, inv := s[..], t[..];
      roundKeys := keys;
      this.key := key;
    }

    /** Rotates a word and substitutes its bytes. */
    static method RotateAndSubstitute(w: Word, sbox: Bytes, ghost inv: Bytes) returns (r: Word)
      requires AreTables(sbox, inv)
      ensures r == SubWord(RotWord(w))
    {
      hide Sub, Unsub, Index;
      var temp := w[1..] + w[..1];
      r := [sbox[Index(temp[0])], sbox[Index(temp[1])], sbox[Index(temp[2])], sbox[Index(temp[3])]];
    }

    static method MakeWord(i: nat, before: Word, fourBack: Word, sbox: Bytes, ghost inv: Bytes) returns (r: Word)
      requires AreTables(sbox, inv) && 4 <= i < 44
      ensures r == NextWord(i, before, fourBack)
    {
      hide AreTables, SubWord, RotWord, XorFirst, XorWord;
      var temp := before;
      if i % 4 == 0 {
        temp := RotateAndSubstitute(temp, sbox, inv);
        temp := XorFirst(temp, RCON[i / 4 - 1]);
      }
      r := XorWord(fourBack, temp);
    }

    /** Derives the eleven round keys, word by word. */
    static method ExpandKey(key: Block, sbox: Bytes, ghost inv: Bytes) returns (keys: seq<Block>)
      requires AreTables(sbox, inv)
      ensures keys == RoundKeys(key)
    {
      hide AreTables, NextWord, Join;
      var words: seq<Word> := [key[0..4], key[4..8], key[8..12], key[12..16]];
      for i := 4 to 44
        invariant |words| == i
        invariant forall k :: 0 <= k < i ==> words[k] == KeyWord(key, k)
      {
        var next := MakeWord(i, words[i - 1], words[i - 4], sbox, inv);
        assert next == KeyWord(key, i);
        words := words + [next];
      }
      keys := seq(11, r requires 0 <= r < 11 =>
        Join(words[4 * r], words[4 * r + 1], words[4 * r + 2], words[4 * r + 3]));
    }

    method Substitute(state: Block) returns (r: Block)
      requires Valid()
      ensures r == SubBytes(state)
    {
      hide RoundKeys, Sub, Unsub, Index;
      r := seq(16, i requires 0 <= i < 16 => sbox[Index(state[i])]);
    }

    method Unsubstitute(state: Block) returns (r: Block)
      requires Valid()
      ensures r == UnsubBytes(state)
    {
      hide RoundKeys, Sub, Unsub, Index;
      r := seq(16, i requires 0 <= i < 16 => inv[Index(state[i])]);
    }

    method EncryptBlock(block: Block) returns (r: Block)
      requires Valid()
      ensures r == Encrypted(RoundKeys(key), block)
    {
      hide AddRoundKey, ShiftRows, SubBytes, MixColumns, RoundKeys, AreTables;
      r := AddRoundKey(block, roundKeys[0]);
      for round := 1 to 10
        invariant r == Rounds(RoundKeys(key), block, round - 1)
      {
        r := Substitute(r);
        r := ShiftRows(r);
        r := MixColumns(r);
        r := AddRoundKey(r, roundKeys[round]);
      }
      r := Substitute(r);
      r := ShiftRows(r);
      r := AddRoundKey(r, roundKeys[10]);
    }

    method DecryptBlock(block: Block) returns (r: Block)
      requires Valid()
      ensures r == Decrypted(RoundKeys(key), block)
    {
      hide AddRoundKey, UnshiftRows, UnsubBytes, UnmixColumns, RoundKeys, AreTables;
      r := AddRoundKey(block, roundKeys[10]);
      for round := 10 downto 1
        invariant r == Unrounds(RoundKeys(key), block, round)
      {
        r := UnshiftRows(r);
        r := Unsubstitute(r);
        r := AddRoundKey(r, roundKeys[round]);
        r := UnmixColumns(r);
      }
      r := UnshiftRows(r);
      r := Unsubstitute(r);
      r := AddRoundKey(r, roundKeys[0]);
    }
  }
}
