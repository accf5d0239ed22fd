/** MixColumns and its inverse: two circulant matrices over the field whose product is the identity. */
module Columns {
  import opened Galois

  function Sum4(p: bv8, q: bv8, r: bv8, s: bv8): bv8 {
    p ^ q ^ r ^ s
  }

  /** One mixed column. */
  function Mix(a: bv8, b: bv8, c: bv8, d: bv8): (r: seq<bv8>)
    ensures |r| == 4
  {
    [Sum4(Mul(a, 2), Mul(b, 3), c, d),
     Sum4(a, Mul(b, 2), Mul(c, 3), d),
     Sum4(a, b, Mul(c, 2), Mul(d, 3)),
     Sum4(Mul(a, 3), b, c, Mul(d, 2))]
  }

  function Unmix(a: bv8, b: bv8, c: bv8, d: bv8): (r: seq<bv8>)
    ensures |r| == 4
  {
    [Sum4(Mul(a, 14), Mul(b, 11), Mul(c, 13), Mul(d, 9)),
     Sum4(Mul(a, 9), Mul(b, 14), Mul(c, 11), Mul(d, 13)),
     Sum4(Mul(a, 13), Mul(b, 9), Mul(c, 14), Mul(d, 11)),
     Sum4(Mul(a, 11), Mul(b, 13), Mul(c, 9), Mul(d, 14))]
  }

  // ---- Products with the six constants, by repeated doubling ----

  function Sum3(p: bv8, q: bv8, r: bv8): bv8 {
    p ^ q ^ r
  }

  lemma PlusZero(a: bv8)
    ensures Plus(0, a) == a && Plus(a, 0) == a
  {
  }

  lemma SumOfThree(p: bv8, q: bv8, r: bv8)
    ensures Sum3(p, q, r) == Plus(p, Plus(q, r))
  {
  }

  lemma MulEven(a: bv8, k: bv8)
    requires k & 1 == 0
    ensures Mul(a, k) == Mul(Xtime(a), Half(k))
  {
    hide Mul, Xtime, Plus, Half;
    MulUnfold(a, k);
    PlusZero(Mul(Xtime(a), Half(k)));
  }

  lemma MulOdd(a: bv8, k: bv8)
    requires k & 1 != 0
    ensures Mul(a, k) == Plus(a, Mul(Xtime(a), Half(k)))
  {
    hide Mul, Xtime, Plus, Half;
    MulUnfold(a, k);
  }

  lemma Halves()
    ensures Half(1) == 0 && Half(2) == 1 && Half(3) == 1 && Half(4) == 2 && Half(5) == 2 && Half(6) == 3 && Half(7) == 3
    ensures Half(9) == 4 && Half(11) == 5 && Half(13) == 6 && Half(14) == 7
  {
  }

  lemma MulByNone(a: bv8)
    ensures Mul(a, 0) == 0
  {
  }

  lemma MulBySmall(a: bv8)
    ensures Mul(a, 1) == a && Mul(a, 2) == Xtime(a) && Mul(a, 3) == Plus(a, Xtime(a))
  {
    hide Mul, Xtime, Plus, Half;
    Halves();
    MulByNone(Xtime(a));
    MulByNone(Xtime(Xtime(a)));
    MulOdd(a, 1);
    MulOdd(Xtime(a), 1);
    MulEven(a, 2);
    MulOdd(a, 3);
    PlusZero(a);
    PlusZero(Xtime(a));
  }

  lemma MulByLarge(a: bv8)
    ensures var x := Xtime(a);
            var y := Xtime(x);
            var z := Xtime(y);
            Mul(a, 9) == Plus(a, z) && Mul(a, 11) == Sum3(a, x, z)
            && Mul(a, 13) == Sum3(a, y, z) && Mul(a, 14) == Sum3(x, y, z)
  {
    hide Mul, Xtime, Plus, Half, Sum3;
    var x := Xtime(a);
    var y := Xtime(x);
    var z := Xtime(y);
    Halves();
    MulBySmall(y);
    MulEven(x, 4);
    MulOdd(x, 5);
    MulEven(x, 6);
    MulOdd(x, 7);
    MulOdd(a, 9);
    MulOdd(a, 11);
    MulOdd(a, 13);
    MulEven(a, 14);
    SumOfThree(a, x, z);
    SumOfThree(a, y, z);
    SumOfThree(x, y, z);
  }

  /** Three times is once plus twice. */
  lemma MulOfThrice(a: bv8, k: bv8)
    ensures Mul(Mul(a, 3), k) == Plus(Mul(a, k), Mul(Mul(a, 2), k))
  {
    hide Mul, Xtime, Plus;
    MulBySmall(a);
    MulIsLinear(a, Xtime(a), k);
  }

  // ---- The product of the two matrices ----

  function Entry(p: bv8, q: bv8, r: bv8, s: bv8): bv8 {
    Sum4(Mul(p, 14), Mul(q, 11), Mul(r, 13), Mul(s, 9))
  }

  lemma CancelFirst(a: bv8, x: bv8, y: bv8, z: bv8, w: bv8)
    ensures Sum4(Sum3(y, z, w), Sum3(a, x, z), Sum3(a, y, z), Plus(Plus(a, z), Plus(x, w))) == a
  {
  }

  lemma CancelSecond(a: bv8, x: bv8, y: bv8, z: bv8, w: bv8)
    ensures Sum4(Plus(Sum3(x, y, z), Sum3(y, z, w)), Sum3(x, y, w), Sum3(a, y, z), Plus(a, z)) == 0
  {
  }

  lemma CancelThird(a: bv8, x: bv8, y: bv8, z: bv8, w: bv8)
    ensures Sum4(Sum3(x, y, z), Plus(Sum3(a, x, z), Sum3(x, y, w)), Sum3(x, z, w), Plus(a, z)) == 0
  {
  }

  lemma CancelFourth(a: bv8, x: bv8, y: bv8, z: bv8, w: bv8)
    ensures Sum4(Sum3(x, y, z), Sum3(a, x, z), Plus(Sum3(a, y, z), Sum3(x, z, w)), Plus(x, w)) == 0
  {
  }

  /** 1 on the diagonal, 0 off it: nothing of the field is needed but its doublings. */
  lemma Entries(a: bv8)
    ensures Entry(Mul(a, 2), a, a, Mul(a, 3)) == a
    ensures Entry(Mul(a, 3), Mul(a, 2), a, a) == 0
    ensures Entry(a, Mul(a, 3), Mul(a, 2), a) == 0
    ensures Entry(a, a, Mul(a, 3), Mul(a, 2)) == 0
  {
    hide Mul, Xtime, Plus, Sum3, Sum4;
    var x := Xtime(a);
    var y := Xtime(x);
    var z := Xtime(y);
    var w := Xtime(z);
    MulBySmall(a);
    MulByLarge(a);
    MulByLarge(x);
    MulOfThrice(a, 9);
    MulOfThrice(a, 11);
    MulOfThrice(a, 13);
    MulOfThrice(a, 14);
    CancelFirst(a, x, y, z, w);
    CancelSecond(a, x, y, z, w);
    CancelThird(a, x, y, z, w);
    CancelFourth(a, x, y, z, w);
  }

  lemma MulOfSum(p: bv8, q: bv8, r: bv8, s: bv8, k: bv8)
    ensures Mul(Sum4(p, q, r, s), k) == Sum4(Mul(p, k), Mul(q, k), Mul(r, k), Mul(s, k))
  {
    SumIsPlus(p, q, r, s);
    SumIsPlus(Mul(p, k), Mul(q, k), Mul(r, k), Mul(s, k));
    hide Plus, Sum4, Mul;
    MulIsLinear(Plus(Plus(p, q), r), s, k);
    MulIsLinear(Plus(p, q), r, k);
    MulIsLinear(p, q, k);
  }

  lemma SumIsPlus(p: bv8, q: bv8, r: bv8, s: bv8)
    ensures Sum4(p, q, r, s) == Plus(Plus(Plus(p, q), r), s)
  {
  }

  lemma SumsAdd(p: bv8, q: bv8, r: bv8, s: bv8, p': bv8, q': bv8, r': bv8, s': bv8)
    ensures Plus(Sum4(p, q, r, s), Sum4(p', q', r', s')) == Sum4(Plus(p, p'), Plus(q, q'), Plus(r, r'), Plus(s, s'))
  {
    SumIsPlus(p, q, r, s);
    SumIsPlus(p', q', r', s');
    SumIsPlus(Plus(p, p'), Plus(q, q'), Plus(r, r'), Plus(s, s'));
    hide Plus, Sum4;
    Regroup(Plus(Plus(p, q), r), s, Plus(Plus(p', q'), r'), s');
    Regroup(Plus(p, q), r, Plus(p', q'), r');
    Regroup(p, q, p', q');
  }

  /** A square of sixteen bytes sums to the same by rows and by columns. */
  lemma Transpose(a0: bv8, a1: bv8, a2: bv8, a3: bv8, b0: bv8, b1: bv8, b2: bv8, b3: bv8,
                  c0: bv8, c1: bv8, c2: bv8, c3: bv8, d0: bv8, d1: bv8, d2: bv8, d3: bv8)
    ensures Sum4(Sum4(a0, a1, a2, a3), Sum4(b0, b1, b2, b3), Sum4(c0, c1, c2, c3), Sum4(d0, d1, d2, d3))
            == Sum4(Sum4(a0, b0, c0, d0), Sum4(a1, b1, c1, d1), Sum4(a2, b2, c2, d2), Sum4(a3, b3, c3, d3))
  {
    SumIsPlus(Sum4(a0, a1, a2, a3), Sum4(b0, b1, b2, b3), Sum4(c0, c1, c2, c3), Sum4(d0, d1, d2, d3));
    SumIsPlus(a0, b0, c0, d0);
    SumIsPlus(a1, b1, c1, d1);
    SumIsPlus(a2, b2, c2, d2);
    SumIsPlus(a3, b3, c3, d3);
    hide Plus, Sum4;
    SumsAdd(a0, a1, a2, a3, b0, b1, b2, b3);
    SumsAdd(Plus(a0, b0), Plus(a1, b1), Plus(a2, b2), Plus(a3, b3), c0, c1, c2, c3);
    SumsAdd(Plus(Plus(a0, b0), c0), Plus(Plus(a1, b1), c1), Plus(Plus(a2, b2), c2), Plus(Plus(a3, b3), c3),
            d0, d1, d2, d3);
  }

  lemma SumZeros(a: bv8)
    ensures Sum4(a, 0, 0, 0) == a
  {
  }

  lemma Rotate(p: bv8, q: bv8, r: bv8, s: bv8)
    ensures Sum4(p, q, r, s) == Sum4(q, r, s, p)
  {
  }

  /** The first byte of a mixed column comes back. */
  lemma FirstByte(a: bv8, b: bv8, c: bv8, d: bv8)
    ensures Entry(Sum4(Mul(a, 2), Mul(b, 3), c, d), Sum4(a, Mul(b, 2), Mul(c, 3), d),
                  Sum4(a, b, Mul(c, 2), Mul(d, 3)), Sum4(Mul(a, 3), b, c, Mul(d, 2))) == a
  {
    hide Mul, Sum4;
    MulOfSum(Mul(a, 2), Mul(b, 3), c, d, 14);
    MulOfSum(a, Mul(b, 2), Mul(c, 3), d, 11);
    MulOfSum(a, b, Mul(c, 2), Mul(d, 3), 13);
    MulOfSum(Mul(a, 3), b, c, Mul(d, 2), 9);
    Transpose(Mul(Mul(a, 2), 14), Mul(Mul(b, 3), 14), Mul(c, 14), Mul(d, 14),
              Mul(a, 11), Mul(Mul(b, 2), 11), Mul(Mul(c, 3), 11), Mul(d, 11),
              Mul(a, 13), Mul(b, 13), Mul(Mul(c, 2), 13), Mul(Mul(d, 3), 13),
              Mul(Mul(a, 3), 9), Mul(b, 9), Mul(c, 9), Mul(Mul(d, 2), 9));
    Entries(a);
    Entries(b);
    Entries(c);
    Entries(d);
    SumZeros(a);
  }

  lemma RotateMix(a: bv8, b: bv8, c: bv8, d: bv8)
    ensures Mix(b, c, d, a) == Mix(a, b, c, d)[1..] + Mix(a, b, c, d)[..1]
    ensures Unmix(b, c, d, a) == Unmix(a, b, c, d)[1..] + Unmix(a, b, c, d)[..1]
  {
    hide Sum4, Mul;
    Rotate(Mul(a, 2), Mul(b, 3), c, d);
    Rotate(a, Mul(b, 2), Mul(c, 3), d);
    Rotate(a, b, Mul(c, 2), Mul(d, 3));
    Rotate(Mul(a, 3), b, c, Mul(d, 2));
    Rotate(Mul(a, 14), Mul(b, 11), Mul(c, 13), Mul(d, 9));
    Rotate(Mul(a, 9), Mul(b, 14), Mul(c, 11), Mul(d, 13));
    Rotate(Mul(a, 13), Mul(b, 9), Mul(c, 14), Mul(d, 11));
    Rotate(Mul(a, 11), Mul(b, 13), Mul(c, 9), Mul(d, 14));
  }

  lemma FirstOfUnmix(a: bv8, b: bv8, c: bv8, d: bv8)
    ensures var m := Mix(a, b, c, d); Unmix(m[0], m[1], m[2], m[3])[0] == a
  {
    hide Mul, Sum4;
    FirstByte(a, b, c, d);
  }

  /** Unmixing a mixed column gives the column back. */
  lemma MixIsUndone(a: bv8, b: bv8, c: bv8, d: bv8)
    ensures var m := Mix(a, b, c, d); Unmix(m[0], m[1], m[2], m[3]) == [a, b, c, d]
  {
    var m := Mix(a, b, c, d);
    hide Mix, Unmix;
    FirstOfUnmix(a, b, c, d);
    FirstOfUnmix(b, c, d, a);
    FirstOfUnmix(c, d, a, b);
    FirstOfUnmix(d, a, b, c);
    RotateMix(a, b, c, d);
    RotateMix(b, c, d, a);
    RotateMix(c, d, a, b);
    RotateMix(m[0], m[1], m[2], m[3]);
    RotateMix(m[1], m[2], m[3], m[0]);
    RotateMix(m[2], m[3], m[0], m[1]);
  }
}
