/** The field of 256 elements behind AES: doubling, products, and the powers of 3 that visit every element. */
module Galois {

  // ---- Products ----

  /** Addition in the field. */
  function Plus(a: bv8, b: bv8): bv8 {
    a ^ b
  }

  /** What doubling adds back when the top bit falls off. */
  function Carry(a: bv8): bv8 {
    if a & 0x80 != 0 then 0x1B else 0
  }

  function Xtime(a: bv8): bv8 {
    (a << 1) ^ Carry(a)
  }

  function Term(a: bv8, b: bv8): bv8 {
    if b & 1 != 0 then a else 0
  }

  /** The product: `a` times each bit of `b`. */
  function Mul(a: bv8, b: bv8): bv8
    decreases b
  {
    if b == 0 then 0 else Plus(Term(a, b), Mul(Xtime(a), Half(b)))
  }

  /** The shift-and-add loop computes the product. */
  method Multiply(a: bv8, b: bv8) returns (result: bv8)
    ensures result == Mul(a, b)
  {
    result := 0;
    var x, rest := a, b;
    while rest != 0
      invariant result ^ Mul(x, rest) == Mul(a, b)
      decreases rest
    {
      MulUnfold(x, rest);
      if rest & 1 != 0 {
        result := result ^ x;
      }
      x := Xtime(x);
      rest := Half(rest);
    }
  }

  function Half(b: bv8): (h: bv8)
    ensures b != 0 ==> h < b
  {
    b >> 1
  }

  lemma MulUnfold(a: bv8, b: bv8)
    ensures Mul(a, b) == Plus(Term(a, b), Mul(Xtime(a), Half(b)))
  {
  }

  lemma PlusCommutes(a: bv8, b: bv8)
    ensures Plus(a, b) == Plus(b, a)
  {
  }

  lemma PlusAssociates(a: bv8, b: bv8, c: bv8)
    ensures Plus(Plus(a, b), c) == Plus(a, Plus(b, c))
  {
  }

  lemma Regroup(a: bv8, b: bv8, c: bv8, d: bv8)
    ensures Plus(Plus(a, b), Plus(c, d)) == Plus(Plus(a, c), Plus(b, d))
  {
    hide Plus;
    PlusAssociates(a, b, Plus(c, d));
    PlusAssociates(b, c, d);
    PlusCommutes(b, c);
    PlusAssociates(c, b, d);
    PlusAssociates(a, c, Plus(b, d));
  }

  lemma CarryIsLinear(a: bv8, b: bv8)
    ensures Carry(a ^ b) == Carry(a) ^ Carry(b)
  {
    if a & 0x80 != 0 && b & 0x80 != 0 {
      assert (a ^ b) & 0x80 == 0;
    }
  }

  lemma ShiftIsLinear(a: bv8, b: bv8)
    ensures (a ^ b) << 1 == (a << 1) ^ (b << 1)
  {
  }

  lemma XtimeIsLinear(a: bv8, b: bv8)
    ensures Xtime(Plus(a, b)) == Plus(Xtime(a), Xtime(b))
  {
    hide Carry;
    CarryIsLinear(a, b);
    ShiftIsLinear(a, b);
    Regroup(a << 1, b << 1, Carry(a), Carry(b));
  }

  lemma TermIsLinear(a: bv8, b: bv8, c: bv8)
    ensures Term(Plus(a, b), c) == Plus(Term(a, c), Term(b, c))
  {
  }

  /** Products distribute over sums. */
  lemma {:induction false} MulIsLinear(a: bv8, b: bv8, c: bv8)
    ensures Mul(Plus(a, b), c) == Plus(Mul(a, c), Mul(b, c))
    decreases c
  {
    if c == 0 {
    } else {
      hide Xtime, Term, Mul, Half, Plus;
      var h := Half(c);
      MulIsLinear(Xtime(a), Xtime(b), h);
      MulUnfold(a, c);
      MulUnfold(b, c);
      MulUnfold(Plus(a, b), c);
      XtimeIsLinear(a, b);
      TermIsLinear(a, b, c);
      Regroup(Term(a, c), Term(b, c), Mul(Xtime(a), h), Mul(Xtime(b), h));
    }
  }

  // ---- Tripling and its inverse ----

  function Triple(p: bv8): bv8 {
    p ^ (p << 1) ^ Carry(p)
  }

  /** Division by 3, as prefix sums of bits. */
  function Third(q: bv8): bv8 {
    var once := q ^ (q << 1);
    var twice := once ^ (once << 2);
    var thrice := twice ^ (twice << 4);
    if thrice & 0x80 != 0 then thrice ^ 0x09 else thrice
  }

  lemma TripleThird(q: bv8)
    ensures Triple(Third(q)) == q && Third(Triple(q)) == q
  {
  }

  lemma TripleIsSum(a: bv8)
    ensures Triple(a) == Plus(a, Xtime(a))
  {
  }

  lemma TripleIsLinear(a: bv8, b: bv8)
    ensures Triple(Plus(a, b)) == Plus(Triple(a), Triple(b))
  {
    hide Xtime, Triple, Plus;
    TripleIsSum(a);
    TripleIsSum(b);
    TripleIsSum(Plus(a, b));
    XtimeIsLinear(a, b);
    Regroup(a, b, Xtime(a), Xtime(b));
  }

  lemma TripleOfXtime(a: bv8)
    ensures Xtime(Triple(a)) == Triple(Xtime(a))
  {
  }

  lemma TripleOfTerm(a: bv8, c: bv8)
    ensures Term(Triple(a), c) == Triple(Term(a, c))
  {
  }

  lemma {:induction false} MulTriple(p: bv8, q: bv8)
    ensures Mul(Triple(p), q) == Triple(Mul(p, q))
    decreases q
  {
    if q == 0 {
      assert Triple(0) == 0;
    } else {
      hide Xtime, Term, Triple, Mul, Half, Plus;
      MulTriple(Xtime(p), Half(q));
      MulUnfold(p, q);
      MulUnfold(Triple(p), q);
      TripleOfXtime(p);
      TripleOfTerm(p, q);
      TripleIsLinear(Term(p, q), Mul(Xtime(p), Half(q)));
    }
  }

  function Bit(i: nat): bv8 {
    match i
    case 0 => 0x01 case 1 => 0x02 case 2 => 0x04 case 3 => 0x08
    case 4 => 0x10 case 5 => 0x20 case 6 => 0x40 case _ => 0x80
  }

  function Drop(q: bv8, i: nat): bv8 {
    match i
    case 0 => q case 1 => q >> 1 case 2 => q >> 2 case 3 => q >> 3
    case 4 => q >> 4 case 5 => q >> 5 case 6 => q >> 6 case _ => q >> 7
  }

  function High(q: bv8, i: nat): bv8 {
    match i
    case 0 => q case 1 => q & 0xFE case 2 => q & 0xFC case 3 => q & 0xF8
    case 4 => q & 0xF0 case 5 => q & 0xE0 case 6 => q & 0xC0 case _ => q & 0x80
  }

  lemma NextBit(q: bv8, i: nat)
    requires i < 7
    ensures Xtime(Bit(i)) == Bit(i + 1) && Half(Drop(q, i)) == Drop(q, i + 1)
    ensures Term(Bit(i), Drop(q, i)) ^ High(q, i + 1) == High(q, i)
  {
  }

  lemma TopBit(q: bv8)
    ensures Mul(0x80, q >> 7) == q & 0x80
  {
    MulUnfold(0x80, q >> 7);
    assert Half(q >> 7) == 0;
  }

  /** A power of two times the remaining bits puts them back in place. */
  lemma {:induction false} MulBit(q: bv8, i: nat)
    requires i < 8
    ensures Mul(Bit(i), Drop(q, i)) == High(q, i)
    decreases 8 - i
  {
    if i == 7 {
      TopBit(q);
    } else {
      hide Mul, Bit, Drop, High, Xtime, Term, Half;
      MulBit(q, i + 1);
      NextBit(q, i);
      MulUnfold(Bit(i), Drop(q, i));
    }
  }

  lemma MulOne(q: bv8)
    ensures Mul(1, q) == q
  {
    MulBit(q, 0);
  }

  // ---- The orbit of 1 under tripling ----

  /** `q` tripled `k` times. */
  function Times(q: bv8, k: nat): bv8 {
    if k == 0 then q else Triple(Times(q, k - 1))
  }

  /** 1 divided by 3 `k` times. */
  function Root(k: nat): bv8 {
    if k == 0 then 1 else Third(Root(k - 1))
  }

  lemma {:induction false} TimesAdd(q: bv8, a: nat, b: nat)
    ensures Times(q, a + b) == Times(Times(q, a), b)
  {
    hide Triple;
    if b != 0 {
      TimesAdd(q, a, b - 1);
    }
  }

  lemma {:induction false} TimesIsInjective(q: bv8, r: bv8, k: nat)
    requires Times(q, k) == Times(r, k)
    ensures q == r
  {
    hide Triple, Third;
    if k != 0 {
      TripleThird(Times(q, k - 1));
      TripleThird(Times(r, k - 1));
      TimesIsInjective(q, r, k - 1);
    }
  }

  /** Multiplying by a power of 3 is tripling that often. */
  lemma {:induction false} MulIsTimes(k: nat, q: bv8)
    ensures Mul(Times(1, k), q) == Times(q, k)
  {
    hide Triple, Mul;
    if k == 0 {
      MulOne(q);
    } else {
      MulIsTimes(k - 1, q);
      MulTriple(Times(1, k - 1), q);
    }
  }

  lemma {:induction false} RootUndone(k: nat)
    ensures Times(Root(k), k) == 1
  {
    hide Triple, Third;
    if k != 0 {
      RootUndone(k - 1);
      TripleThird(Root(k - 1));
      TimesAdd(Root(k), 1, k - 1);
      assert Times(Root(k), 1) == Triple(Times(Root(k), 0));
    }
  }

  function Four(p: bv8): bv8 {
    Triple(Triple(Triple(Triple(p))))
  }

  function Seventeen(p: bv8): bv8 {
    Triple(Four(Four(Four(Four(p)))))
  }

  lemma FourIs(q: bv8)
    ensures Times(q, 4) == Four(q)
  {
    hide Triple;
    assert Times(q, 2) == Triple(Times(q, 1));
  }

  lemma SeventeenIs(q: bv8, n: nat, k: nat)
    requires Times(1, n) == q && k == n + 17
    ensures Times(1, k) == Seventeen(q)
  {
    hide Triple, Four;
    FourIs(q);
    FourIs(Four(q));
    FourIs(Four(Four(q)));
    FourIs(Four(Four(Four(q))));
    TimesAdd(q, 4, 4);
    TimesAdd(q, 8, 4);
    TimesAdd(q, 12, 4);
    TimesAdd(1, n, 17);
  }

  lemma SeventeenAtATime()
    ensures Seventeen(0x01) == 0xE1 && Seventeen(0xE1) == 0x5C && Seventeen(0x5C) == 0x0C
    ensures Seventeen(0x0C) == 0xE0 && Seventeen(0xE0) == 0xBD && Seventeen(0xBD) == 0x50
    ensures Seventeen(0x50) == 0xEC && Seventeen(0xEC) == 0x5D && Seventeen(0x5D) == 0xED
    ensures Seventeen(0xED) == 0xBC && Seventeen(0xBC) == 0xB1 && Seventeen(0xB1) == 0xB0
    ensures Seventeen(0xB0) == 0x51 && Seventeen(0x51) == 0x0D && Seventeen(0x0D) == 0x01
  {
  }

  /** Tripling returns to 1 after 255 steps, and not after any of the three largest divisors of 255. */
  lemma Milestones()
    ensures Times(1, 255) == 1
    ensures Times(1, 85) != 1 && Times(1, 51) != 1 && Times(1, 15) != 1
  {
    SeventeenAtATime();
    FifteenIsNotOne();
    hide Seventeen, Times;
    TimesZero();
    SeventeenIs(0x01, 0, 17);
    SeventeenIs(0xE1, 17, 34);
    SeventeenIs(0x5C, 34, 51);
    SeventeenIs(0x0C, 51, 68);
    SeventeenIs(0xE0, 68, 85);
    SeventeenIs(0xBD, 85, 102);
    SeventeenIs(0x50, 102, 119);
    SeventeenIs(0xEC, 119, 136);
    SeventeenIs(0x5D, 136, 153);
    SeventeenIs(0xED, 153, 170);
    SeventeenIs(0xBC, 170, 187);
    SeventeenIs(0xB1, 187, 204);
    SeventeenIs(0xB0, 204, 221);
    SeventeenIs(0x51, 221, 238);
    SeventeenIs(0x0D, 238, 255);
  }

  lemma TimesZero()
    ensures Times(1, 0) == 1
  {
  }

  lemma FifteenIsNotOne()
    ensures Times(1, 15) != 1
  {
    FourIs(1);
    FourIs(Four(1));
    FourIs(Four(Four(1)));
    TimesAdd(1, 4, 4);
    TimesAdd(1, 8, 4);
    assert Times(1, 15) == Triple(Triple(Triple(Times(1, 12))));
  }

  lemma Wrap(m: nat, n: nat)
    requires 0 < m <= n
    ensures n % m == (n - m) % m
  {
    var q, r := (n - m) / m, (n - m) % m;
    assert n == (q + 1) * m + r;
    Remainder(n, m, q + 1, r);
  }

  lemma Remainder(n: nat, m: nat, q: nat, r: nat)
    requires m > 0 && n == q * m + r && r < m
    ensures n % m == r
  {
    var q', r' := n / m, n % m;
    assert n == q' * m + r';
    if q < q' {
      MulLe(q + 1, q', m);
    } else if q > q' {
      MulLe(q' + 1, q, m);
    }
  }

  lemma MulLe(a: nat, b: nat, m: nat)
    requires a <= b
    ensures a * m <= b * m
  {
  }

  lemma {:induction false} PeriodWraps(m: nat, n: nat)
    requires m > 0 && Times(1, m) == 1
    ensures Times(1, n) == Times(1, n % m)
    decreases n
  {
    hide Times;
    if n >= m {
      TimesAdd(1, m, n - m);
      PeriodWraps(m, n - m);
      Wrap(m, n);
    }
  }

  lemma DivisorsOf255(n: nat)
    requires 0 < n < 255 && 255 % n == 0
    ensures 85 % n == 0 || 51 % n == 0 || 15 % n == 0
  {
    var q := 255 / n;
    assert q * n == 255;
    if n <= 15 {
      assert n == 1 || n == 2 || n == 3 || n == 4 || n == 5 || n == 6 || n == 7 || n == 8 || n == 9 || n == 10
             || n == 11
             || n == 12 || n == 13 || n == 14 || n == 15;
    } else {
      assert q <= 15;
      assert q == 2 || q == 3 || q == 4 || q == 5 || q == 6 || q == 7 || q == 8 || q == 9 || q == 10 || q == 11
             || q == 12 || q == 13 || q == 14 || q == 15;
    }
  }

  /** The orbit has no shorter period. */
  lemma {:induction false} NoShortPeriod(n: nat)
    requires 0 < n < 255
    ensures Times(1, n) != 1
  {
    if Times(1, n) == 1 {
      Milestones();
      PeriodWraps(n, 255);
      if 255 % n == 0 {
        DivisorsOf255(n);
        PeriodWraps(n, 85);
        PeriodWraps(n, 51);
        PeriodWraps(n, 15);
        assert false;
      } else {
        NoShortPeriod(255 % n);
        assert false;
      }
    }
  }

  lemma PowersAreDistinct(i: nat, k: nat)
    requires i < k && k - i < 255
    ensures Times(1, i) != Times(1, k)
  {
    if Times(1, i) == Times(1, k) {
      TimesAdd(1, k - i, i);
      TimesIsInjective(1, Times(1, k - i), i);
      NoShortPeriod(k - i);
      assert false;
    }
  }

  lemma {:induction false} PowersAreNonzero(k: nat)
    ensures Times(1, k) != 0
  {
    if k != 0 {
      PowersAreNonzero(k - 1);
      assert Triple(0) == 0;
      if Times(1, k) == 0 {
        TripleThird(Times(1, k - 1));
        TripleThird(0);
        assert false;
      }
    }
  }

  // ---- Every nonzero element is a power of 3 ----

  function Index(b: bv8): (i: nat)
    ensures i < 256
  {
    b as nat
  }

  lemma IndexIsInjective(a: bv8, b: bv8)
    requires Index(a) == Index(b)
    ensures a == b
  {
  }

  /** `i` is one of the first `n` powers of 3. */
  ghost predicate Reached(i: nat, n: nat) {
    exists k: nat :: 1 <= k <= n && Index(Times(1, k)) == i
  }

  ghost function Visited(n: nat): set<nat> {
    if n == 0 then {} else Visited(n - 1) + {Index(Times(1, n))}
  }

  lemma {:induction false} VisitedAre(n: nat)
    requires n <= 255
    ensures forall i: nat :: i in Visited(n) <==> Reached(i, n)
    ensures |Visited(n)| == n
    ensures forall i :: i in Visited(n) ==> 0 < i < 256
  {
    hide Times, Index, Reached;
    if n == 0 {
      forall i: nat ensures !Reached(i, 0) {
        NothingReached(i);
      }
    } else {
      VisitedAre(n - 1);
      NewlyVisited(n);
      forall i: nat ensures Reached(i, n) <==> Reached(i, n - 1) || i == Index(Times(1, n)) {
        ReachedNext(i, n);
      }
    }
  }

  lemma NothingReached(i: nat)
    ensures !Reached(i, 0)
  {
  }

  lemma ReachedNext(i: nat, n: nat)
    requires n >= 1
    ensures Reached(i, n) <==> Reached(i, n - 1) || i == Index(Times(1, n))
  {
    hide Times, Index;
  }

  lemma NewlyVisited(n: nat)
    requires 1 <= n <= 255
    ensures 0 < Index(Times(1, n)) < 256
    ensures !Reached(Index(Times(1, n)), n - 1)
  {
    hide Times;
    PowersAreNonzero(n);
    if Index(Times(1, n)) == 0 {
      IndexIsInjective(Times(1, n), 0);
      assert false;
    }
    forall k: nat | 1 <= k < n ensures Index(Times(1, k)) != Index(Times(1, n)) {
      PowersAreDistinct(k, n);
      if Index(Times(1, k)) == Index(Times(1, n)) {
        IndexIsInjective(Times(1, k), Times(1, n));
        assert false;
      }
    }
  }

  ghost function Upto(n: nat): set<nat> {
    if n == 0 then {} else Upto(n - 1) + {n}
  }

  lemma {:induction false} UptoHas(n: nat)
    ensures |Upto(n)| == n
    ensures forall i: nat :: i in Upto(n) <==> 1 <= i <= n
  {
    if n != 0 {
      UptoHas(n - 1);
    }
  }

  lemma {:induction false} FullSubset(a: set<nat>, b: set<nat>)
    requires a <= b && |a| == |b|
    ensures a == b
  {
    if a != {} {
      var x :| x in a;
      FullSubset(a - {x}, b - {x});
    }
  }

  /** Pigeonhole: 255 distinct nonzero elements are all of them. */
  lemma EveryElementIsAPower(b: bv8) returns (k: nat)
    requires b != 0
    ensures 1 <= k <= 255 && Times(1, k) == b
  {
    hide Times, Index;
    VisitedAre(255);
    UptoHas(255);
    FullSubset(Visited(255), Upto(255));
    if Index(b) == 0 {
      assert Index(0) == 0 by { IndexOfZero(); }
      IndexIsInjective(b, 0);
      assert false;
    }
    assert Index(b) in Visited(255) && Reached(Index(b), 255);
    k :| 1 <= k <= 255 && Index(Times(1, k)) == Index(b);
    IndexIsInjective(Times(1, k), b);
  }

  lemma IndexOfZero()
    ensures Index(0) == 0
  {
  }

  // ---- Inverses ----

  lemma InverseIsUnique(b: bv8, q: bv8, r: bv8)
    requires b != 0 && Mul(b, q) == Mul(b, r)
    ensures q == r
  {
    var k := EveryElementIsAPower(b);
    MulIsTimes(k, q);
    MulIsTimes(k, r);
    TimesIsInjective(q, r, k);
  }

  lemma InverseExists(b: bv8) returns (q: bv8)
    requires b != 0
    ensures Mul(b, q) == 1
  {
    var k := EveryElementIsAPower(b);
    q := Root(k);
    MulIsTimes(k, q);
    RootUndone(k);
  }

  /** The multiplicative inverse, with 0 for 0. */
  ghost function Inverse(b: bv8): (q: bv8)
    ensures b != 0 ==> Mul(b, q) == 1
    ensures b == 0 ==> q == 0
  {
    if b == 0 then 0
    else
      assert exists q :: Mul(b, q) == 1 by { var q := InverseExists(b); }
      var q :| Mul(b, q) == 1;
      q
  }

  /** Products of powers of 3 are powers of 3, so the order of factors does not matter. */
  lemma MulCommutes(a: bv8, b: bv8)
    requires a != 0 && b != 0
    ensures Mul(a, b) == Mul(b, a)
  {
    var i := EveryElementIsAPower(a);
    var k := EveryElementIsAPower(b);
    MulIsTimes(i, b);
    MulIsTimes(k, a);
    TimesAdd(1, i, k);
    TimesAdd(1, k, i);
    assert i + k == k + i;
  }

  lemma {:induction false} TimesOfZero(k: nat)
    ensures Times(0, k) == 0
  {
    if k != 0 {
      TimesOfZero(k - 1);
      assert Triple(0) == 0;
    }
  }

  /** Inverting twice gives the element back. */
  lemma InverseIsInvolutive(b: bv8)
    ensures Inverse(Inverse(b)) == b
  {
    if b != 0 {
      var q := Inverse(b);
      var k := EveryElementIsAPower(b);
      MulIsTimes(k, q);
      TimesOfZero(k);
      assert q != 0;
      MulCommutes(b, q);
      InverseIsUnique(q, b, Inverse(q));
    }
  }
}
