/** AES-128 on one block: substitution tables built by walking the field, the key schedule, and both ciphers. */
module Rijndael {
  import opened Galois

  type Bytes = seq<bv8>

  type Block = b: Bytes | |b| == 16 witness seq(16, _ => 0)

  // ---- Substitution ----

  /** Each byte plus four of its rotations, plus a constant. */
  function Affine(q: bv8): bv8 {
    q ^ ((q << 1) | (q >> 7)) ^ ((q << 2) | (q >> 6)) ^ ((q << 3) | (q >> 5)) ^ ((q << 4) | (q >> 4)) ^ 0x63
  }

  /** The inverse affine map: section 5.3.2 of FIPS 197 applies it before inverting. */
  function Unaffine(x: bv8): bv8 {
    ((x << 1) | (x >> 7)) ^ ((x << 3) | (x >> 5)) ^ ((x << 6) | (x >> 2)) ^ 0x05
  }

  lemma AffineRoundTrip(q: bv8)
    ensures Unaffine(Affine(q)) == q && Affine(Unaffine(q)) == q
  {
  }

  /** SubBytes: the affine image of the inverse. */
  ghost function Sub(b: bv8): bv8 {
    Affine(Inverse(b))
  }

  ghost function Unsub(x: bv8): bv8 {
    Inverse(Unaffine(x))
  }

  lemma SubRoundTrip(b: bv8)
    ensures Unsub(Sub(b)) == b && Sub(Unsub(b)) == b
  {
    hide Affine, Unaffine, Inverse;
    AffineRoundTrip(Inverse(b));
    InverseIsInvolutive(b);
    InverseIsInvolutive(Unaffine(b));
    AffineRoundTrip(b);
  }

  /** The tables hold substitution and its inverse for every byte. */
  ghost predicate AreTables(sbox: Bytes, inv: Bytes) {
    && |sbox| == 256 && |inv| == 256
    && forall b: bv8 :: sbox[Index(b)] == Sub(b) && inv[Index(b)] == Unsub(b)
  }

  /** The tables are filled in for the first `n` powers of 3. */
  ghost predicate FilledTo(sbox: Bytes, inv: Bytes, n: nat) {
    && |sbox| == 256 && |inv| == 256
    && forall k: nat :: 1 <= k <= n ==>
         sbox[Index(Times(1, k))] == Affine(Root(k)) && inv[Index(Affine(Root(k)))] == Times(1, k)
  }

  lemma RootsAreDistinct(i: nat, k: nat)
    requires i < k && k - i < 255
    ensures Root(i) != Root(k)
  {
    hide Triple, Third;
    if Root(i) == Root(k) {
      RootUndone(i);
      RootUndone(k);
      TimesAdd(Root(k), i, k - i);
      NoShortPeriod(k - i);
      assert false;
    }
  }

  lemma RootIsNonzero(k: nat)
    ensures Root(k) != 0
  {
    RootUndone(k);
    TimesOfZero(k);
  }

  lemma RootIsInverse(k: nat)
    requires 1 <= k <= 255
    ensures Times(1, k) != 0 && Inverse(Times(1, k)) == Root(k)
  {
    hide Times, Root, Mul;
    PowersAreNonzero(k);
    MulIsTimes(k, Root(k));
    RootUndone(k);
    InverseIsUnique(Times(1, k), Inverse(Times(1, k)), Root(k));
  }

  /** Writing the next power's entries disturbs none of the earlier ones. */
  lemma FillNext(sbox: Bytes, inv: Bytes, n: nat)
    requires FilledTo(sbox, inv, n) && n < 255
    ensures var p, x := Times(1, n + 1), Affine(Root(n + 1));
            FilledTo(sbox[Index(p) := x], inv[Index(x) := p], n + 1)
  {
    hide Times, Root, Affine, Index;
    var p, x := Times(1, n + 1), Affine(Root(n + 1));
    forall k: nat | 1 <= k <= n ensures Index(Times(1, k)) != Index(p) && Index(Affine(Root(k))) != Index(x) {
      PowersAreDistinct(k, n + 1);
      RootsAreDistinct(k, n + 1);
      Distinguished(Times(1, k), p);
      AffineRoundTrip(Root(k));
      AffineRoundTrip(Root(n + 1));
      Distinguished(Affine(Root(k)), x);
    }
  }

  lemma Distinguished(a: bv8, b: bv8)
    requires a != b
    ensures Index(a) != Index(b)
  {
    if Index(a) == Index(b) {
      IndexIsInjective(a, b);
      assert false;
    }
  }

  lemma ZeroIsFree(k: nat)
    requires 1 <= k <= 255
    ensures Index(Times(1, k)) != Index(0) && Index(Affine(Root(k))) != Index(0x63)
  {
    PowersAreNonzero(k);
    RootIsNonzero(k);
    AffineRoundTrip(Root(k));
    assert Affine(0) == 0x63 && Unaffine(0x63) == 0;
    hide Times, Root, Affine, Index;
    Distinguished(Times(1, k), 0);
    Distinguished(Affine(Root(k)), 0x63);
  }

  /** All 255 powers and the entry for 0 are all the tables there are. */
  lemma FilledIsDone(sbox: Bytes, inv: Bytes)
    requires FilledTo(sbox, inv, 255)
    ensures AreTables(sbox[Index(0) := 0x63], inv[Index(0x63) := 0])
  {
    var s, t := sbox[Index(0) := 0x63], inv[Index(0x63) := 0];
    forall b: bv8 ensures s[Index(b)] == Sub(b) && t[Index(Sub(b))] == b {
      EntriesAreRight(sbox, inv, b);
    }
    forall x: bv8 ensures t[Index(x)] == Unsub(x) {
      SubRoundTrip(x);
      assert t[Index(Sub(Unsub(x)))] == Unsub(x);
    }
  }

  lemma EntriesAreRight(sbox: Bytes, inv: Bytes, b: bv8)
    requires FilledTo(sbox, inv, 255)
    ensures sbox[Index(0) := 0x63][Index(b)] == Sub(b) && inv[Index(0x63) := 0][Index(Sub(b))] == b
  {
    if b == 0 {
      assert Affine(0) == 0x63;
    } else {
      hide Times, Root, Affine, Index, Inverse;
      var k := EveryElementIsAPower(b);
      RootIsInverse(k);
      ZeroIsFree(k);
    }
  }

  /** One turn of the walk: the next power of 3 and its inverse. */
  method Advance(p: bv8, q: bv8) returns (p': bv8, q': bv8)
    ensures p' == Triple(p) && q' == Third(q)
  {
    p' := p ^ (p << 1) ^ (if p & 0x80 != 0 then 0x1B else 0);
    q' := q ^ (q << 1);
    q' := q' ^ (q' << 2);
    q' := q' ^ (q' << 4);
    if q' & 0x80 != 0 {
      q' := q' ^ 0x09;
    }
  }

  method MixBits(q: bv8) returns (x: bv8)
    ensures x == Affine(q)
  {
    x := q ^ ((q << 1) | (q >> 7));
    x := x ^ ((q << 2) | (q >> 6));
    x := x ^ ((q << 3) | (q >> 5));
    x := x ^ ((q << 4) | (q >> 4));
    x := x ^ 0x63;
  }

  /** The walk through the field ends, and leaves every entry of both tables right. */
  method BuildTables() returns (sbox: array<bv8>, inv: array<bv8>)
    ensures fresh(sbox) && fresh(inv) && AreTables(sbox[..], inv[..])
  {
    hide Triple, Third, Affine, Times, Index, Root, AreTables, FilledTo;
    sbox := new bv8[256](_ => 0);
    inv := new bv8[256](_ => 0);
    var p: bv8, q: bv8 := 1, 1;
    ghost var n: nat := 0;
    StartOfWalk(sbox[..], inv[..]);
    while true
      invariant n < 255 && p == Times(1, n) && q == Root(n)
      invariant FilledTo(sbox[..], inv[..], n)
      decreases 255 - n
    {
      ghost var s, t := sbox[..], inv[..];
      NextOnWalk(n);
      FillNext(s, t, n);
      p, q := Advance(p, q);
      var x := MixBits(q);
      sbox[Index(p)] := x;
      inv[Index(x)] := p;
      assert sbox[..] == s[Index(p) := x] && inv[..] == t[Index(x) := p];
      n := n + 1;
      if p == 1 {
        break;
      }
    }
    FilledIsDone(sbox[..], inv[..]);
    ghost var s, t := sbox[..], inv[..];
    sbox[Index(0)] := 0x63;
    inv[Index(0x63)] := 0;
    assert sbox[..] == s[Index(0) := 0x63] && inv[..] == t[Index(0x63) := 0];
  }

  lemma StartOfWalk(sbox: Bytes, inv: Bytes)
    requires |sbox| == 256 && |inv| == 256
    ensures Times(1, 0) == 1 && Root(0) == 1 && FilledTo(sbox, inv, 0)
  {
  }

  /** The walk is back at 1 after 255 turns, and never before. */
  lemma NextOnWalk(n: nat)
    requires n < 255
    ensures Times(1, n + 1) == Triple(Times(1, n)) && Root(n + 1) == Third(Root(n))
    ensures Times(1, n + 1) == 1 <==> n + 1 == 255
  {
    Milestones();
    if n + 1 < 255 {
      NoShortPeriod(n + 1);
    }
  }
}
