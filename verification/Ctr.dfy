/** AES-128 in counter mode (section 6.5 of NIST SP 800-38A): one call both encrypts and decrypts. */
module Ctr {
  import opened Wrappers
  import opened Rijndael
  import opened Cipher

  const MAX_BLOCKS: int := 0x1_0000_0000_0000_0000

  type Nonce = n: Bytes | |n| == 8 witness [0, 0, 0, 0, 0, 0, 0, 0]

  datatype ValueError = KeyLength | NonceLength

  /** The low `width` bytes of `n`, most significant first: Python's `to_bytes(width, "big")`. */
  function BigEndian(n: nat, width: nat): (r: Bytes)
    ensures |r| == width
  {
    if width == 0 then [] else BigEndian(n / 256, width - 1) + [(n % 256) as bv8]
  }

  function CounterBlock(nonce: Nonce, n: nat): Block {
    nonce + BigEndian(n, 8)
  }

  ghost function Stream(key: Block, nonce: Nonce, n: nat): Block {
    Encrypted(RoundKeys(key), CounterBlock(nonce, n))
  }

  /** Every byte of the data combined with its own byte of the key stream. */
  ghost function Crypt(key: Block, nonce: Nonce, data: Bytes): (r: Bytes)
    ensures |r| == |data|
  {
    seq(|data|, i requires 0 <= i < |data| => data[i] ^ Stream(key, nonce, i / 16)[i % 16])
  }

  /** `aes_ctr`: fills the output block by block, under a counter that starts at 0. */
  method AesCtr(key: Bytes, nonce: Bytes, data: Bytes) returns (r: Result<Bytes, ValueError>)
    requires |data| <= 16 * MAX_BLOCKS
    ensures r == if |key| != 16 then Failure(KeyLength)
                 else if |nonce| != 8 then Failure(NonceLength)
                 else Success(Crypt(key, nonce, data))
  {
    if |key| != 16 {
      return Failure(KeyLength);
    }
    if |nonce| != 8 {
      return Failure(NonceLength);
    }
    var out := RunCounter(key, nonce, data);
    return Success(out);
  }

  method RunCounter(key: Block, nonce: Nonce, data: Bytes) returns (r: Bytes)
    requires |data| <= 16 * MAX_BLOCKS
    ensures r == Crypt(key, nonce, data)
  {
    hide Stream, Crypt, Encrypted, RoundKeys, CounterBlock, AreTables;
    var aes := new Aes128(key);
    var out := new bv8[|data|](_ => 0);
    var counter, offset: nat := 0, 0;
    while offset < |data|
      invariant offset == 16 * counter
      invariant forall i :: 0 <= i < offset && i < |data| ==> out[i] == Crypt(key, nonce, data)[i]
    {
      var stream := aes.EncryptBlock(CounterBlock(nonce, counter));
      XorChunk(out, data, stream, offset);
      StreamIs(key, nonce, counter);
      CryptChunk(key, nonce, data, counter);
      counter := counter + 1;
      offset := offset + 16;
    }
    return out[..];
  }

  lemma CryptChunk(key: Block, nonce: Nonce, data: Bytes, counter: nat)
    ensures forall i :: 16 * counter <= i < 16 * counter + 16 && i < |data| ==>
              Crypt(key, nonce, data)[i] == data[i] ^ Stream(key, nonce, counter)[i - 16 * counter]
  {
    hide Stream, Crypt;
    forall i | 16 * counter <= i < 16 * counter + 16 && i < |data|
      ensures Crypt(key, nonce, data)[i] == data[i] ^ Stream(key, nonce, counter)[i - 16 * counter]
    {
      CryptAt(key, nonce, data, counter, i - 16 * counter);
    }
  }

  lemma StreamIs(key: Block, nonce: Nonce, n: nat)
    ensures Stream(key, nonce, n) == Encrypted(RoundKeys(key), CounterBlock(nonce, n))
  {
  }

  lemma CryptAt(key: Block, nonce: Nonce, data: Bytes, counter: nat, i: nat)
    requires i < 16 && 16 * counter + i < |data|
    ensures Crypt(key, nonce, data)[16 * counter + i] == data[16 * counter + i] ^ Stream(key, nonce, counter)[i]
  {
    hide Stream;
    InBlock(counter, i);
  }

  /** Combines one chunk of data, at most a block, with the key stream. */
  method XorChunk(out: array<bv8>, data: Bytes, stream: Block, offset: nat)
    requires out.Length == |data| && offset < |data|
    modifies out
    ensures forall i :: 0 <= i < |data| ==>
              out[i] == if offset <= i < offset + 16 then data[i] ^ stream[i - offset] else old(out[i])
  {
    var chunk := Min(16, |data| - offset);
    for i := 0 to chunk
      invariant forall k :: 0 <= k < |data| ==>
                  out[k] == if offset <= k < offset + i then data[k] ^ stream[k - offset] else old(out[k])
    {
      out[offset + i] := data[offset + i] ^ stream[i];
    }
  }

  lemma InBlock(counter: nat, i: nat)
    requires i < 16
    ensures (16 * counter + i) / 16 == counter && (16 * counter + i) % 16 == i
  {
  }

  lemma XorTwice(a: bv8, b: bv8)
    ensures (a ^ b) ^ b == a
  {
  }

  /** Crypting twice under the same key and nonce gives the data back. */
  lemma CryptIsItsOwnInverse(key: Block, nonce: Nonce, data: Bytes)
    ensures Crypt(key, nonce, Crypt(key, nonce, data)) == data
  {
    hide Stream;
    forall i | 0 <= i < |data| ensures Crypt(key, nonce, Crypt(key, nonce, data))[i] == data[i] {
      XorTwice(data[i], Stream(key, nonce, i / 16)[i % 16]);
    }
  }

  lemma ByteOf(a: nat, b: nat)
    requires a < 256 && b < 256 && a as bv8 == b as bv8
    ensures a == b
  {
    ByteBack(a);
    ByteBack(b);
  }

  lemma Successor(b: bv8)
    requires b != 0xFF
    ensures (b + 1) as nat == b as nat + 1
  {
  }

  lemma TopByte(b: bv8)
    requires b as nat < 255
    ensures b != 0xFF
  {
  }

  /** Counting up from 0 reaches every byte value. */
  lemma {:induction false} NthByte(n: nat) returns (b: bv8)
    requires n < 256
    ensures b as nat == n
  {
    if n == 0 {
      b := 0;
    } else {
      b := NthByte(n - 1);
      TopByte(b);
      Successor(b);
      b := b + 1;
    }
  }

  lemma ByteFromNumber(b: bv8)
    ensures (b as nat) as bv8 == b
  {
  }

  lemma ByteBack(a: nat)
    requires a < 256
    ensures (a as bv8) as nat == a
  {
    var b := NthByte(a);
    ByteFromNumber(b);
  }

  function Pow256(n: nat): nat {
    if n == 0 then 1 else 256 * Pow256(n - 1)
  }

  lemma {:induction false} BigEndianIsInjective(m: nat, n: nat, width: nat)
    requires m < Pow256(width) && n < Pow256(width) && BigEndian(m, width) == BigEndian(n, width)
    ensures m == n
  {
    if width > 0 {
      var a, b := BigEndian(m, width), BigEndian(n, width);
      assert a[..width - 1] == BigEndian(m / 256, width - 1) && b[..width - 1] == BigEndian(n / 256, width - 1);
      assert a[width - 1] == (m % 256) as bv8 && b[width - 1] == (n % 256) as bv8;
      ByteOf(m % 256, n % 256);
      BigEndianIsInjective(m / 256, n / 256, width - 1);
    }
  }

  /** The number bytes stand for, most significant first: Python's `from_bytes(s, "big")`. */
  function FromBigEndian(s: Bytes): nat {
    if s == [] then 0 else 256 * FromBigEndian(s[..|s| - 1]) + s[|s| - 1] as nat
  }

  lemma {:induction false} BigEndianIsRead(n: nat, width: nat)
    requires n < Pow256(width)
    ensures FromBigEndian(BigEndian(n, width)) == n
  {
    if width > 0 {
      BigEndianIsRead(n / 256, width - 1);
      ByteBack(n % 256);
      assert BigEndian(n, width)[..width - 1] == BigEndian(n / 256, width - 1);
    }
  }

  /** Byte `i` of the output is byte `i` of the data under the encryption of one block: the nonce, then the number of
      the byte's block, counted from 0 and written most significant byte first. */
  lemma CryptedByte(key: Block, nonce: Nonce, data: Bytes, i: nat) returns (block: Block)
    requires i < |data| && i < 16 * MAX_BLOCKS
    ensures block[..8] == nonce && FromBigEndian(block[8..]) == i / 16
    ensures Crypt(key, nonce, data)[i] == data[i] ^ Encrypted(RoundKeys(key), block)[i % 16]
  {
    hide Encrypted, RoundKeys, FromBigEndian, BigEndian;
    block := CounterBlock(nonce, i / 16);
    EightBytes();
    BigEndianIsRead(i / 16, 8);
    assert block[8..] == BigEndian(i / 16, 8);
  }

  /** Within one message no key stream block repeats: the counters differ, and the cipher can be undone. */
  lemma StreamNeverRepeats(key: Block, nonce: Nonce, m: nat, n: nat)
    requires m < n < MAX_BLOCKS
    ensures Stream(key, nonce, m) != Stream(key, nonce, n)
  {
    hide Encrypted, Decrypted, RoundKeys;
    DecryptionUndoesEncryption(RoundKeys(key), CounterBlock(nonce, m));
    DecryptionUndoesEncryption(RoundKeys(key), CounterBlock(nonce, n));
    CountersDiffer(nonce, m, n);
  }

  lemma CountersDiffer(nonce: Nonce, m: nat, n: nat)
    requires m < n < MAX_BLOCKS
    ensures CounterBlock(nonce, m) != CounterBlock(nonce, n)
  {
    assert CounterBlock(nonce, m)[8..] == BigEndian(m, 8) && CounterBlock(nonce, n)[8..] == BigEndian(n, 8);
    EightBytes();
    if BigEndian(m, 8) == BigEndian(n, 8) {
      BigEndianIsInjective(m, n, 8);
      assert false;
    }
  }

  lemma EightBytes()
    ensures Pow256(8) == MAX_BLOCKS
  {
  }
}
