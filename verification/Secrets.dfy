/** Password-derived masks, wrapped keys and encrypted bodies. SHA-256 is any function to 32 bytes. */
module Secrets {
  import opened Wrappers
  import opened Utf8
  import opened Rijndael
  import opened Ctr

  const KDF_ROUNDS: nat := 20_000
  const COULD_NOT_DECRYPT := "[could not decrypt]"

  type Hash = Bytes -> Bytes

  ghost predicate IsHash(sha: Hash) {
    forall x :: |sha(x)| == 32
  }

  // ---- Text ----

  function Scalars(text: string): seq<Scalar> {
    seq(|text|, i requires 0 <= i < |text| => text[i] as int)
  }

  function Chars(scalars: seq<Scalar>): string {
    seq(|scalars|, i requires 0 <= i < |scalars| => scalars[i] as char)
  }

  /** `str.encode("utf-8")`. */
  function EncodeText(text: string): Bytes {
    var s := EncodeAll(Scalars(text));
    seq(|s|, i requires 0 <= i < |s| => s[i] as bv8)
  }

  /** `bytes.decode("utf-8")`, None where it raises. */
  function DecodeText(bytes: Bytes): Option<string> {
    var s: seq<Frames.Byte> := seq(|bytes|, i requires 0 <= i < |bytes| => bytes[i] as int);
    match DecodeAll(s)
    case None => None
    case Some(scalars) => Some(Chars(scalars))
  }

  lemma TextRoundTrip(text: string)
    ensures DecodeText(EncodeText(text)) == Some(text)
  {
    var s, bytes := EncodeAll(Scalars(text)), EncodeText(text);
    var back: seq<Frames.Byte> := seq(|bytes|, i requires 0 <= i < |bytes| => bytes[i] as int);
    forall i | 0 <= i < |s| ensures back[i] == s[i] {
      ByteBack(s[i]);
    }
    assert back == s;
    EncodedIsRead(Scalars(text));
    assert Chars(Scalars(text)) == text;
  }

  // ---- Masks and verifiers ----

  function Chain(sha: Hash, salt: Bytes, h: Bytes, rounds: nat): Bytes {
    if rounds == 0 then h else sha(Chain(sha, salt, h, rounds - 1) + salt)
  }

  /** The 16-byte mask of a password: an iterated, salted hash. */
  function Derive(sha: Hash, password: string, salt: Bytes): Block
    requires IsHash(sha)
  {
    ChainLength(sha, salt, sha(salt + EncodeText(password)), KDF_ROUNDS);
    Chain(sha, salt, sha(salt + EncodeText(password)), KDF_ROUNDS)[..16]
  }

  lemma ChainLength(sha: Hash, salt: Bytes, h: Bytes, rounds: nat)
    requires IsHash(sha) && |h| == 32
    ensures |Chain(sha, salt, h, rounds)| == 32
  {
  }

  method DeriveMask(sha: Hash, password: string, salt: Bytes) returns (mask: Block)
    requires IsHash(sha)
    ensures mask == Derive(sha, password, salt)
  {
    var h := sha(salt + EncodeText(password));
    ghost var h0 := h;
    for i := 0 to KDF_ROUNDS
      invariant h == Chain(sha, salt, h0, i)
    {
      h := sha(h + salt);
    }
    ChainLength(sha, salt, h0, KDF_ROUNDS);
    mask := h[..16];
  }

  /** The mask is the first 16 bytes of the last of 20,000 salted rehashes: of any list of digests that starts from the
      salted password and in which each is the hash of the one before and the salt. */
  lemma DerivedByRehashing(sha: Hash, password: string, salt: Bytes, digests: seq<Bytes>)
    requires IsHash(sha) && |digests| == 20_001
    requires digests[0] == sha(salt + EncodeText(password))
    requires forall k :: 0 < k < |digests| ==> digests[k] == sha(digests[k - 1] + salt)
    ensures |digests[20_000]| == 32 && Derive(sha, password, salt) == digests[20_000][..16]
  {
    hide EncodeText;
    ChainIsList(sha, salt, digests, 20_000);
  }

  lemma {:induction false} ChainIsList(sha: Hash, salt: Bytes, digests: seq<Bytes>, k: nat)
    requires k < |digests| && forall k :: 0 < k < |digests| ==> digests[k] == sha(digests[k - 1] + salt)
    ensures Chain(sha, salt, digests[0], k) == digests[k]
  {
    if k > 0 {
      ChainIsList(sha, salt, digests, k - 1);
    }
  }

  function HexChar(n: bv8): char {
    if n < 10 then '0' + (n as int) as char else 'a' + (n as int - 10) as char
  }

  function ToHex(data: Bytes): string {
    if data == [] then "" else [HexChar(data[0] >> 4), HexChar(data[0] & 0x0F)] + ToHex(data[1..])
  }

  const HEX := "0123456789abcdef"

  lemma HexCharIs(n: bv8)
    requires n < 16
    ensures HexChar(n) == HEX[n as nat]
  {
    TenIs(n);
  }

  lemma TenIs(n: bv8)
    requires n < 16
    ensures n < 10 <==> n as int < 10
    ensures n as int < 16
  {
  }

  lemma Nibbles(b: bv8)
    ensures b >> 4 < 16 && b & 0x0F < 16 && (b >> 4) as nat == b as nat / 16 && (b & 0x0F) as nat == b as nat % 16
  {
  }

  /** Hexadecimal text: two digits a byte, the high one first. */
  lemma {:induction false} HexSpells(data: Bytes, i: nat)
    requires i < |data|
    ensures |ToHex(data)| == 2 * |data|
    ensures ToHex(data)[2 * i] == HEX[data[i] as nat / 16] && ToHex(data)[2 * i + 1] == HEX[data[i] as nat % 16]
  {
    hide HexChar;
    Nibbles(data[0]);
    HexCharIs(data[0] >> 4);
    HexCharIs(data[0] & 0x0F);
    if |data| > 1 {
      HexSpells(data[1..], if i > 0 then i - 1 else 0);
    }
  }

  /** What is stored to check a login: a hash of the mask, apart from the mask itself. */
  function Verifier(sha: Hash, mask: Block): string {
    ToHex(sha(EncodeText("verify") + mask))
  }

  function Wrap(secret: Block, mask: Block): Block {
    seq(16, i requires 0 <= i < 16 => secret[i] ^ mask[i])
  }

  lemma UnwrapUndoesWrap(secret: Block, mask: Block)
    ensures Wrap(Wrap(secret, mask), mask) == secret
  {
    forall i | 0 <= i < 16 ensures Wrap(Wrap(secret, mask), mask)[i] == secret[i] {
      XorTwice(secret[i], mask[i]);
    }
  }

  // ---- Bodies ----

  ghost function EncryptBody(text: string, key: Block, nonce: Nonce): Bytes {
    Crypt(key, nonce, EncodeText(text))
  }

  ghost function DecryptBody(ciphertext: Bytes, key: Block, nonce: Nonce): string {
    match DecodeText(Crypt(key, nonce, ciphertext))
    case Some(text) => text
    case None => COULD_NOT_DECRYPT
  }

  /** A body decrypts, under its own key and nonce, to the text that was encrypted. */
  lemma BodyRoundTrip(text: string, key: Block, nonce: Nonce)
    ensures DecryptBody(EncryptBody(text, key, nonce), key, nonce) == text
  {
    CryptIsItsOwnInverse(key, nonce, EncodeText(text));
    TextRoundTrip(text);
  }

  // ---- Accounts ----

  datatype User = User(name: string, display: string, handle: string, salt: Bytes, pwHash: string, userKey: Block,
                       wrappedKey: Block)

  function NewUser(sha: Hash, name: string, password: string, display: string, handle: string, salt: Bytes,
                   userKey: Block): User
    requires IsHash(sha)
  {
    var mask := Derive(sha, password, salt);
    User(name, display, handle, salt, Verifier(sha, mask), userKey, Wrap(userKey, mask))
  }

  /** Verifies a password and recovers the user key, from one derivation. */
  function UnwrapKey(sha: Hash, user: User, password: string): Option<Block>
    requires IsHash(sha)
  {
    var mask := Derive(sha, password, user.salt);
    if Verifier(sha, mask) != user.pwHash then None else Some(Wrap(user.wrappedKey, mask))
  }

  /** A password opens an account exactly if its verifier is the one on file; any other is refused. */
  lemma OthersAreRefused(sha: Hash, name: string, password: string, display: string, handle: string, salt: Bytes,
                         userKey: Block, attempt: string)
    requires IsHash(sha)
    ensures UnwrapKey(sha, NewUser(sha, name, password, display, handle, salt, userKey), attempt).Some? <==>
            Verifier(sha, Derive(sha, attempt, salt)) == Verifier(sha, Derive(sha, password, salt))
  {
    hide Derive, Verifier, Wrap;
  }

  /** The password an account was made with recovers its user key. */
  lemma RightPasswordUnwraps(sha: Hash, name: string, password: string, display: string, handle: string, salt: Bytes,
                             userKey: Block)
    requires IsHash(sha)
    ensures UnwrapKey(sha, NewUser(sha, name, password, display, handle, salt, userKey), password) == Some(userKey)
  {
    UnwrapUndoesWrap(userKey, Derive(sha, password, salt));
  }
}
