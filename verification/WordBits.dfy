// 32-bit words as bit vectors: the operations of SHA-1 on numbers are those of
// the machine, so that concrete digests can be worked out.

module WordBits {
  import opened Bits
  import opened Bytes
  import opened BitLaws
  import opened Sha1Spec

  // ----- bit vectors from the low end -----

  function Half(b: bv32): bv32 { b >> 1 }
  predicate Odd(b: bv32) { b & 1 == 1 }

  function AndV(a: bv32, b: bv32): bv32 { a & b }
  function OrV(a: bv32, b: bv32): bv32 { a | b }
  function XorV(a: bv32, b: bv32): bv32 { a ^ b }
  function NotV(a: bv32): bv32 { !a }
  function Sum(a: bv32, b: bv32): bv32 { a + b }
  function SumAndOne(a: bv32, b: bv32): bv32 { a + b + 1 }
  function Low31(a: bv32): bv32 { a & 0x7FFF_FFFF }

  lemma AndHalf(a: bv32, b: bv32)
    ensures Half(AndV(a, b)) == AndV(Half(a), Half(b)) && (Odd(AndV(a, b)) <==> Odd(a) && Odd(b))
  {
  }

  lemma OrHalf(a: bv32, b: bv32)
    ensures Half(OrV(a, b)) == OrV(Half(a), Half(b)) && (Odd(OrV(a, b)) <==> Odd(a) || Odd(b))
  {
  }

  lemma XorHalf(a: bv32, b: bv32)
    ensures Half(XorV(a, b)) == XorV(Half(a), Half(b)) && (Odd(XorV(a, b)) <==> Odd(a) != Odd(b))
  {
  }

  lemma NotHalf(a: bv32)
    ensures Low31(Half(NotV(a))) == Low31(NotV(Half(a)))
  {
    calc {
      Low31(Half(NotV(a)));
      { assert NotV(a) == !a; }
      Low31(Half(!a));
      Low31((!a) >> 1);
      Low31(!(a >> 1));
      { assert NotV(a >> 1) == !(a >> 1); }
      Low31(NotV(a >> 1));
      Low31(NotV(Half(a)));
    }
  }

  lemma NotOdd(a: bv32)
    ensures Odd(NotV(a)) <==> !Odd(a)
  {
  }

  lemma Parts(a: bv32)
    ensures a == if Odd(a) then 2 * Half(a) + 1 else 2 * Half(a)
  {
  }

  function Twice(h: bv32): bv32 { 2 * h }
  function TwiceAndOne(h: bv32): bv32 { 2 * h + 1 }

  lemma TwiceHalf(h: bv32)
    ensures Low31(Half(Twice(h))) == Low31(h)
  {
    calc {
      Low31(Half(Twice(h)));
      Low31(Half(2 * h));
      Low31((2 * h) >> 1);
      ((2 * h) >> 1) & 0x7FFF_FFFF;
      h & 0x7FFF_FFFF;
    }
  }

  lemma TwiceAndOneHalf(h: bv32)
    ensures Low31(Half(TwiceAndOne(h))) == Low31(h)
  {
    calc {
      Low31(Half(TwiceAndOne(h)));
      Low31(Half(2 * h + 1));
      Low31((2 * h + 1) >> 1);
      ((2 * h + 1) >> 1) & 0x7FFF_FFFF;
      h & 0x7FFF_FFFF;
    }
  }

  lemma SumIsOdd(a: bv32, b: bv32)
    ensures Odd(Sum(a, b)) <==> Odd(a) != Odd(b)
  {
  }

  lemma SumAndOneIsOdd(a: bv32, b: bv32)
    ensures Odd(SumAndOne(a, b)) <==> Odd(a) == Odd(b)
  {
  }

  // How two low bits and a carry add up.

  lemma SumEvenEven(p: bv32, q: bv32)
    ensures Sum(Twice(p), Twice(q)) == Twice(Sum(p, q))
  {
    calc {
      Sum(Twice(p), Twice(q));
      { assert Twice(p) == 2 * p && Twice(q) == 2 * q; }
      Sum(2 * p, 2 * q);
      Twice(p + q);
      { assert Sum(p, q) == p + q; }
      Twice(Sum(p, q));
    }
  }

  lemma SumEvenOdd(p: bv32, q: bv32)
    ensures Sum(Twice(p), TwiceAndOne(q)) == TwiceAndOne(Sum(p, q))
  {
    calc {
      Sum(Twice(p), TwiceAndOne(q));
      { assert Twice(p) == 2 * p && TwiceAndOne(q) == 2 * q + 1; }
      Sum(2 * p, 2 * q + 1);
      TwiceAndOne(p + q);
      { assert Sum(p, q) == p + q; }
      TwiceAndOne(Sum(p, q));
    }
  }

  lemma SumOddEven(p: bv32, q: bv32)
    ensures Sum(TwiceAndOne(p), Twice(q)) == TwiceAndOne(Sum(p, q))
  {
    calc {
      Sum(TwiceAndOne(p), Twice(q));
      { assert TwiceAndOne(p) == 2 * p + 1 && Twice(q) == 2 * q; }
      Sum(2 * p + 1, 2 * q);
      TwiceAndOne(p + q);
      { assert Sum(p, q) == p + q; }
      TwiceAndOne(Sum(p, q));
    }
  }

  lemma SumOddOdd(p: bv32, q: bv32)
    ensures Sum(TwiceAndOne(p), TwiceAndOne(q)) == Twice(SumAndOne(p, q))
  {
    calc {
      Sum(TwiceAndOne(p), TwiceAndOne(q));
      { assert TwiceAndOne(p) == 2 * p + 1 && TwiceAndOne(q) == 2 * q + 1; }
      Sum(2 * p + 1, 2 * q + 1);
      Twice(p + q + 1);
      { assert SumAndOne(p, q) == p + q + 1; }
      Twice(SumAndOne(p, q));
    }
  }

  lemma SumAndOneEvenEven(p: bv32, q: bv32)
    ensures SumAndOne(Twice(p), Twice(q)) == TwiceAndOne(Sum(p, q))
  {
    calc {
      SumAndOne(Twice(p), Twice(q));
      { assert Twice(p) == 2 * p && Twice(q) == 2 * q; }
      SumAndOne(2 * p, 2 * q);
      TwiceAndOne(p + q);
      { assert Sum(p, q) == p + q; }
      TwiceAndOne(Sum(p, q));
    }
  }

  lemma SumAndOneEvenOdd(p: bv32, q: bv32)
    ensures SumAndOne(Twice(p), TwiceAndOne(q)) == Twice(SumAndOne(p, q))
  {
    calc {
      SumAndOne(Twice(p), TwiceAndOne(q));
      { assert Twice(p) == 2 * p && TwiceAndOne(q) == 2 * q + 1; }
      SumAndOne(2 * p, 2 * q + 1);
      Twice(p + q + 1);
      { assert SumAndOne(p, q) == p + q + 1; }
      Twice(SumAndOne(p, q));
    }
  }

  lemma SumAndOneOddEven(p: bv32, q: bv32)
    ensures SumAndOne(TwiceAndOne(p), Twice(q)) == Twice(SumAndOne(p, q))
  {
    calc {
      SumAndOne(TwiceAndOne(p), Twice(q));
      { assert TwiceAndOne(p) == 2 * p + 1 && Twice(q) == 2 * q; }
      SumAndOne(2 * p + 1, 2 * q);
      Twice(p + q + 1);
      { assert SumAndOne(p, q) == p + q + 1; }
      Twice(SumAndOne(p, q));
    }
  }

  lemma SumAndOneOddOdd(p: bv32, q: bv32)
    ensures SumAndOne(TwiceAndOne(p), TwiceAndOne(q)) == TwiceAndOne(SumAndOne(p, q))
  {
    calc {
      SumAndOne(TwiceAndOne(p), TwiceAndOne(q));
      { assert TwiceAndOne(p) == 2 * p + 1 && TwiceAndOne(q) == 2 * q + 1; }
      SumAndOne(2 * p + 1, 2 * q + 1);
      TwiceAndOne(p + q + 1);
      { assert SumAndOne(p, q) == p + q + 1; }
      TwiceAndOne(SumAndOne(p, q));
    }
  }

  lemma PartsOf(a: bv32)
    ensures a == if Odd(a) then TwiceAndOne(Half(a)) else Twice(Half(a))
  {
    Parts(a);
    hide Odd, Half;
  }

  /** Addition of the low bits leaves a carry for the rest. */
  lemma SumHalf(a: bv32, b: bv32)
    ensures Low31(Half(Sum(a, b))) == Low31(if Odd(a) && Odd(b) then SumAndOne(Half(a), Half(b)) else Sum(Half(a), Half(b)))
  {
    hide Half, Odd, Sum, SumAndOne, Twice, TwiceAndOne, Low31;
    var p, q := Half(a), Half(b);
    PartsOf(a);
    PartsOf(b);
    TwiceHalf(Sum(p, q));
    TwiceAndOneHalf(Sum(p, q));
    TwiceHalf(SumAndOne(p, q));
    SumEvenEven(p, q);
    SumEvenOdd(p, q);
    SumOddEven(p, q);
    SumOddOdd(p, q);
  }

  lemma SumAndOneHalf(a: bv32, b: bv32)
    ensures Low31(Half(SumAndOne(a, b)))
         == Low31(if Odd(a) || Odd(b) then SumAndOne(Half(a), Half(b)) else Sum(Half(a), Half(b)))
  {
    hide Half, Odd, Sum, SumAndOne, Twice, TwiceAndOne, Low31;
    var p, q := Half(a), Half(b);
    PartsOf(a);
    PartsOf(b);
    TwiceAndOneHalf(Sum(p, q));
    TwiceHalf(SumAndOne(p, q));
    TwiceAndOneHalf(SumAndOne(p, q));
    SumAndOneEvenEven(p, q);
    SumAndOneEvenOdd(p, q);
    SumAndOneOddEven(p, q);
    SumAndOneOddOdd(p, q);
  }

  // ----- the numbers they stand for -----

  /** The number that the low `n` bits of `b` stand for. */
  function Num(b: bv32, n: nat): nat
    decreases n
  {
    if n == 0 then 0 else LowBit(b) + 2 * Num(Half(b), n - 1)
  }

  function LowBit(b: bv32): nat {
    if Odd(b) then 1 else 0
  }

  lemma NumStep(b: bv32, n: nat)
    requires n > 0
    ensures Num(b, n) == LowBit(b) + 2 * Num(Half(b), n - 1)
  {
    hide Half, Odd;
  }

  lemma NumParts(b: bv32, n: nat)
    requires n > 0
    ensures Num(b, n) / 2 == Num(Half(b), n - 1) && (Num(b, n) % 2 == 1 <==> Odd(b))
    ensures Num(b, n) == (if Odd(b) then 1 else 0) + 2 * Num(Half(b), n - 1)
  {
    hide Half, Odd, Num;
    NumStep(b, n);
  }

  lemma {:induction false} NumBound(b: bv32, n: nat)
    ensures Num(b, n) < Pow2(n)
    decreases n
  {
    hide Half, Odd;
    if n > 0 {
      NumBound(Half(b), n - 1);
    }
  }

  function Value(b: bv32): word {
    NumBound(b, 32);
    PowerOfEight();
    Num(b, 32)
  }

  lemma {:induction false} NumAnd(a: bv32, b: bv32, n: nat)
    ensures And(Num(a, n), Num(b, n)) == Num(AndV(a, b), n)
    decreases n
  {
    if n > 0 {
      hide And, Half, Odd, AndV, Num;
      NumParts(a, n);
      NumParts(b, n);
      NumParts(AndV(a, b), n);
      AndStep(Num(a, n), Num(b, n));
      AndHalf(a, b);
      NumAnd(Half(a), Half(b), n - 1);
    }
  }

  lemma {:induction false} NumOr(a: bv32, b: bv32, n: nat)
    ensures Or(Num(a, n), Num(b, n)) == Num(OrV(a, b), n)
    decreases n
  {
    if n > 0 {
      hide Or, Half, Odd, OrV, Num;
      NumParts(a, n);
      NumParts(b, n);
      NumParts(OrV(a, b), n);
      OrStep(Num(a, n), Num(b, n));
      OrHalf(a, b);
      NumOr(Half(a), Half(b), n - 1);
    }
  }

  lemma {:induction false} NumXor(a: bv32, b: bv32, n: nat)
    ensures Xor(Num(a, n), Num(b, n)) == Num(XorV(a, b), n)
    decreases n
  {
    if n > 0 {
      hide Xor, Half, Odd, XorV, Num;
      NumParts(a, n);
      NumParts(b, n);
      NumParts(XorV(a, b), n);
      XorStep(Num(a, n), Num(b, n));
      XorHalf(a, b);
      NumXor(Half(a), Half(b), n - 1);
    }
  }

  // ----- only the low bits matter -----

  /** The low `n` bits of the mask are set. */
  predicate Ones(m: bv32, n: nat)
    decreases n
  {
    n == 0 || (Odd(m) && Ones(Half(m), n - 1))
  }

  lemma MaskHalf(a: bv32, b: bv32, m: bv32)
    requires Odd(m) && AndV(a, m) == AndV(b, m)
    ensures (Odd(a) <==> Odd(b)) && AndV(Half(a), Half(m)) == AndV(Half(b), Half(m))
  {
    hide Odd, Half, AndV;
    AndHalf(a, m);
    AndHalf(b, m);
  }

  lemma {:induction false} NumAgree(a: bv32, b: bv32, m: bv32, n: nat)
    requires Ones(m, n) && AndV(a, m) == AndV(b, m)
    ensures Num(a, n) == Num(b, n)
    decreases n
  {
    hide Half, Odd, AndV;
    if n > 0 {
      MaskHalf(a, b, m);
      NumAgree(Half(a), Half(b), Half(m), n - 1);
    }
  }

  lemma {:induction false} FewerOnes(m: bv32, n: nat, k: nat)
    requires k <= n && Ones(m, n)
    ensures Ones(m, k)
    decreases n
  {
    hide Half, Odd;
    if k > 0 {
      FewerOnes(Half(m), n - 1, k - 1);
    }
  }

  lemma OneMore(m: bv32, n: nat)
    requires Odd(m) && Ones(Half(m), n)
    ensures Ones(m, n + 1)
  {
    hide Half, Odd;
  }

  /** Eight more bits of a mask. */
  lemma EightOnes(m: bv32, n: nat)
    requires m & 0xFF == 0xFF && Ones(m >> 8, n)
    ensures Ones(m, n + 8)
  {
    hide Ones;
    OneMore(m >> 7, n);
    OneMore(m >> 6, n + 1);
    OneMore(m >> 5, n + 2);
    OneMore(m >> 4, n + 3);
    OneMore(m >> 3, n + 4);
    OneMore(m >> 2, n + 5);
    OneMore(m >> 1, n + 6);
    OneMore(m, n + 7);
  }

  lemma SevenOnes()
    ensures Ones(0x7F, 7)
  {
    hide Ones;
    NoOnes(0);
    OneMore(1, 0);
    OneMore(3, 1);
    OneMore(7, 2);
    OneMore(0xF, 3);
    OneMore(0x1F, 4);
    OneMore(0x3F, 5);
    OneMore(0x7F, 6);
  }

  lemma NoOnes(m: bv32)
    ensures Ones(m, 0)
  {
  }

  lemma NumLow31(a: bv32, b: bv32, n: nat)
    requires n <= 31 && Low31(a) == Low31(b)
    ensures Num(a, n) == Num(b, n)
  {
    hide Num, Ones, Half, Odd;
    SevenOnes();
    EightOnes(0x7FFF, 7);
    EightOnes(0x7F_FFFF, 15);
    EightOnes(0x7FFF_FFFF, 23);
    FewerOnes(0x7FFF_FFFF, 31, n);
    NumAgree(a, b, 0x7FFF_FFFF, n);
  }

  lemma {:induction false} NumNot(b: bv32, n: nat)
    requires n <= 32
    ensures Num(NotV(b), n) == Pow2(n) - 1 - Num(b, n)
    decreases n
  {
    hide Half, Odd, NotV, Low31;
    if n > 0 {
      NotHalf(b);
      NotOdd(b);
      NumNot(Half(b), n - 1);
      NumLow31(Half(NotV(b)), NotV(Half(b)), n - 1);
    }
  }

  // ----- sums -----

  lemma SumStep(x: nat, y: nat, z: nat, p: nat, a: nat, b: nat, c: nat, d: nat)
    requires p > 0 && a < 2 && b < 2 && c < 2 && d == (a + b + c) / 2
    requires z == (x + y + d) % p
    ensures (a + b + c) % 2 + 2 * z == (a + 2 * x + (b + 2 * y) + c) % (2 * p)
  {
    var q := (x + y + d) / p;
    assert x + y + d == p * q + z;
    assert a + 2 * x + (b + 2 * y) + c == (2 * p) * q + ((a + b + c) % 2 + 2 * z);
    Quotient(a + 2 * x + (b + 2 * y) + c, 2 * p, q, (a + b + c) % 2 + 2 * z);
  }

  lemma {:induction false} NumSum(a: bv32, b: bv32, n: nat)
    requires n <= 32
    ensures Num(Sum(a, b), n) == (Num(a, n) + Num(b, n)) % Pow2(n)
    ensures Num(SumAndOne(a, b), n) == (Num(a, n) + Num(b, n) + 1) % Pow2(n)
    decreases n
  {
    if n > 0 {
      hide Half, Odd, Sum, SumAndOne, Low31, Num;
      NumSum(Half(a), Half(b), n - 1);
      NumSumStep(a, b, n);
      NumSumAndOneStep(a, b, n);
    }
  }

  lemma NumSumStep(a: bv32, b: bv32, n: nat)
    requires 0 < n <= 32
    requires Num(Sum(Half(a), Half(b)), n - 1) == (Num(Half(a), n - 1) + Num(Half(b), n - 1)) % Pow2(n - 1)
    requires Num(SumAndOne(Half(a), Half(b)), n - 1) == (Num(Half(a), n - 1) + Num(Half(b), n - 1) + 1) % Pow2(n - 1)
    ensures Num(Sum(a, b), n) == (Num(a, n) + Num(b, n)) % Pow2(n)
  {
    hide Half, Odd, Sum, SumAndOne, Low31, Num;
    var p, q, x, y := Half(a), Half(b), LowBit(a), LowBit(b);
    NumStep(a, n);
    NumStep(b, n);
    NumStep(Sum(a, b), n);
    SumIsOdd(a, b);
    SumHalf(a, b);
    NumLow31(Half(Sum(a, b)), if Odd(a) && Odd(b) then SumAndOne(p, q) else Sum(p, q), n - 1);
    SumStep(Num(p, n - 1), Num(q, n - 1), Num(Half(Sum(a, b)), n - 1), Pow2(n - 1), x, y, 0, (x + y) / 2);
  }

  lemma NumSumAndOneStep(a: bv32, b: bv32, n: nat)
    requires 0 < n <= 32
    requires Num(Sum(Half(a), Half(b)), n - 1) == (Num(Half(a), n - 1) + Num(Half(b), n - 1)) % Pow2(n - 1)
    requires Num(SumAndOne(Half(a), Half(b)), n - 1) == (Num(Half(a), n - 1) + Num(Half(b), n - 1) + 1) % Pow2(n - 1)
    ensures Num(SumAndOne(a, b), n) == (Num(a, n) + Num(b, n) + 1) % Pow2(n)
  {
    hide Half, Odd, Sum, SumAndOne, Low31, Num;
    var p, q, x, y := Half(a), Half(b), LowBit(a), LowBit(b);
    NumStep(a, n);
    NumStep(b, n);
    NumStep(SumAndOne(a, b), n);
    SumAndOneIsOdd(a, b);
    SumAndOneHalf(a, b);
    NumLow31(Half(SumAndOne(a, b)), if Odd(a) || Odd(b) then SumAndOne(p, q) else Sum(p, q), n - 1);
    SumStep(Num(p, n - 1), Num(q, n - 1), Num(Half(SumAndOne(a, b)), n - 1), Pow2(n - 1), x, y, 1, (x + y + 1) / 2);
  }

  lemma ValueSum(a: bv32, b: bv32)
    ensures Value(Sum(a, b)) == Wrap32(Value(a) + Value(b))
  {
    hide Num, Sum, Pow2;
    PowerOfEight();
    NumSum(a, b, 32);
  }

  lemma ValueNot(a: bv32)
    ensures Value(NotV(a)) == BitNot(Value(a))
  {
    hide Num, NotV, Pow2;
    PowerOfEight();
    NumNot(a, 32);
  }

  // ----- shifts -----

  function Halves(b: bv32, n: nat): bv32 {
    if n == 0 then b else Halves(Half(b), n - 1)
  }

  lemma {:induction false} HalvesPlus(b: bv32, j: nat, k: nat)
    ensures Halves(b, j + k) == Halves(Halves(b, j), k)
    decreases j
  {
    hide Half;
    if j > 0 {
      HalvesPlus(Half(b), j - 1, k);
    }
  }

  lemma {:induction false} NumTop(b: bv32, n: nat)
    ensures Num(b, n + 1) == Num(b, n) + Pow2(n) * LowBit(Halves(b, n))
    decreases n
  {
    hide Half, Odd;
    if n > 0 {
      NumTop(Half(b), n - 1);
      assert Pow2(n) * LowBit(Halves(b, n)) == 2 * (Pow2(n - 1) * LowBit(Halves(Half(b), n - 1)));
    }
  }

  lemma HalvesFour(b: bv32)
    ensures Halves(b, 4) == b >> 4
  {
    calc {
      Halves(b, 4);
      Halves(b >> 1, 3);
      { assert Half(b >> 1) == b >> 2; }
      Halves(b >> 2, 2);
      { assert Half(b >> 2) == b >> 3; }
      Halves(b >> 3, 1);
      { assert Half(b >> 3) == b >> 4; }
      b >> 4;
    }
  }

  lemma HalvesEight(b: bv32)
    ensures Halves(b, 8) == b >> 8
  {
    hide Halves;
    calc {
      Halves(b, 8);
      { HalvesPlus(b, 4, 4); }
      Halves(Halves(b, 4), 4);
      { HalvesFour(b); }
      Halves(b >> 4, 4);
      { HalvesFour(b >> 4); }
      (b >> 4) >> 4;
      b >> 8;
    }
  }

  lemma HalvesSixteen(b: bv32)
    ensures Halves(b, 16) == b >> 16
  {
    hide Halves;
    calc {
      Halves(b, 16);
      { HalvesPlus(b, 8, 8); }
      Halves(Halves(b, 8), 8);
      { HalvesEight(b); }
      Halves(b >> 8, 8);
      { HalvesEight(b >> 8); }
      (b >> 8) >> 8;
      b >> 16;
    }
  }

  lemma HalvesTwentyFour(b: bv32)
    ensures Halves(b, 24) == b >> 24
  {
    hide Halves;
    calc {
      Halves(b, 24);
      { HalvesPlus(b, 16, 8); }
      Halves(Halves(b, 16), 8);
      { HalvesSixteen(b); }
      Halves(b >> 16, 8);
      { HalvesEight(b >> 16); }
      (b >> 16) >> 8;
      b >> 24;
    }
  }

  lemma HalvesThirtyTwo(b: bv32)
    ensures Halves(b, 32) == 0
  {
    hide Halves;
    calc {
      Halves(b, 32);
      { HalvesPlus(b, 16, 16); }
      Halves(Halves(b, 16), 16);
      { HalvesSixteen(b); }
      Halves(b >> 16, 16);
      { HalvesSixteen(b >> 16); }
      (b >> 16) >> 16;
      0;
    }
  }

  lemma ValueHalf(b: bv32)
    ensures Value(Half(b)) == Value(b) / 2
  {
    hide Half, Odd, Num, Pow2;
    NumParts(b, 32);
    NumTop(Half(b), 31);
    HalvesThirtyTwo(b);
    assert Halves(Half(b), 31) == 0 && LowBit(0) == 0 by {
      ZeroIsEven();
    }
  }

  lemma ZeroIsEven()
    ensures !Odd(0)
  {
  }

  lemma {:induction false} ValueHalves(b: bv32, n: nat)
    ensures Value(Halves(b, n)) == ShiftRight(Value(b), n)
    decreases n
  {
    hide Half, Num;
    if n > 0 {
      ValueHalf(b);
      ValueHalves(Half(b), n - 1);
    }
  }

  function Doubles(b: bv32, n: nat): bv32 {
    if n == 0 then b else Sum(Doubles(b, n - 1), Doubles(b, n - 1))
  }

  lemma {:induction false} DoublesPlus(b: bv32, j: nat, k: nat)
    ensures Doubles(b, j + k) == Doubles(Doubles(b, j), k)
    decreases k
  {
    hide Sum;
    if k > 0 {
      DoublesPlus(b, j, k - 1);
    }
  }

  lemma {:induction false} ValueDoubles(b: bv32, n: nat)
    ensures Value(Doubles(b, n)) == ShiftLeft(Value(b), n)
    decreases n
  {
    hide Num, Sum;
    if n > 0 {
      var d := Doubles(b, n - 1);
      ValueDoubles(b, n - 1);
      ValueSum(d, d);
      TwiceWrapped(Shl(Value(b), n - 1));
    }
  }

  lemma TwiceWrapped(x: nat)
    ensures Wrap32(2 * Wrap32(x)) == Wrap32(2 * x)
  {
    WrapPlus(2 * (x / TWO_32), 2 * Wrap32(x));
  }

  lemma WrapPlus(k: nat, y: nat)
    ensures Wrap32(TWO_32 * k + y) == Wrap32(y)
  {
    var q := y / TWO_32;
    Quotient(TWO_32 * k + y, TWO_32, k + q, Wrap32(y));
  }

  lemma ValueRotation(b: bv32, n: nat)
    requires 0 < n < 32
    ensures RotL(n, Value(b)) == Value(OrV(Doubles(b, n), Halves(b, 32 - n)))
  {
    hide Num, OrV, Or, Shl, Shr, Doubles, Halves;
    ValueDoubles(b, n);
    ValueHalves(b, 32 - n);
    NumOr(Doubles(b, n), Halves(b, 32 - n), 32);
  }

  // ----- the rotations of SHA-1 -----

  function Rot1(x: bv32): bv32 { (x << 1) | (x >> 31) }
  function Rot5(x: bv32): bv32 { (x << 5) | (x >> 27) }
  function Rot30(x: bv32): bv32 { (x << 30) | (x >> 2) }

  lemma DoublesOne(b: bv32)
    ensures Doubles(b, 1) == b << 1
  {
    assert Sum(b, b) == b << 1;
  }

  lemma DoublesTwo(b: bv32)
    ensures Doubles(b, 2) == b << 2
  {
    hide Doubles;
    calc {
      Doubles(b, 2);
      { DoublesPlus(b, 1, 1); }
      Doubles(Doubles(b, 1), 1);
      { DoublesOne(b); }
      Doubles(b << 1, 1);
      { DoublesOne(b << 1); }
      (b << 1) << 1;
      b << 2;
    }
  }

  lemma DoublesFive(b: bv32)
    ensures Doubles(b, 5) == b << 5
  {
    hide Doubles;
    calc {
      Doubles(b, 5);
      { DoublesPlus(b, 2, 3); }
      Doubles(Doubles(b, 2), 3);
      { DoublesTwo(b); }
      Doubles(b << 2, 3);
      { DoublesPlus(b << 2, 2, 1); }
      Doubles(Doubles(b << 2, 2), 1);
      { DoublesTwo(b << 2); }
      Doubles((b << 2) << 2, 1);
      Doubles(b << 4, 1);
      { DoublesOne(b << 4); }
      (b << 4) << 1;
      b << 5;
    }
  }

  lemma DoublesTen(b: bv32)
    ensures Doubles(b, 10) == b << 10
  {
    hide Doubles;
    calc {
      Doubles(b, 10);
      { DoublesPlus(b, 5, 5); }
      Doubles(Doubles(b, 5), 5);
      { DoublesFive(b); }
      Doubles(b << 5, 5);
      { DoublesFive(b << 5); }
      (b << 5) << 5;
      b << 10;
    }
  }

  lemma DoublesThirty(b: bv32)
    ensures Doubles(b, 30) == b << 30
  {
    hide Doubles;
    calc {
      Doubles(b, 30);
      { DoublesPlus(b, 10, 20); }
      Doubles(Doubles(b, 10), 20);
      { DoublesTen(b); }
      Doubles(b << 10, 20);
      { DoublesPlus(b << 10, 10, 10); }
      Doubles(Doubles(b << 10, 10), 10);
      { DoublesTen(b << 10); }
      Doubles((b << 10) << 10, 10);
      Doubles(b << 20, 10);
      { DoublesTen(b << 20); }
      (b << 20) << 10;
      b << 30;
    }
  }

  lemma HalvesOne(b: bv32)
    ensures Halves(b, 1) == b >> 1
  {
  }

  lemma HalvesTwo(b: bv32)
    ensures Halves(b, 2) == b >> 2
  {
    hide Halves;
    calc {
      Halves(b, 2);
      { HalvesPlus(b, 1, 1); }
      Halves(Halves(b, 1), 1);
      { HalvesOne(b); }
      Halves(b >> 1, 1);
      { HalvesOne(b >> 1); }
      (b >> 1) >> 1;
      b >> 2;
    }
  }

  lemma HalvesThree(b: bv32)
    ensures Halves(b, 3) == b >> 3
  {
    hide Halves;
    calc {
      Halves(b, 3);
      { HalvesPlus(b, 2, 1); }
      Halves(Halves(b, 2), 1);
      { HalvesTwo(b); }
      Halves(b >> 2, 1);
      { HalvesOne(b >> 2); }
      (b >> 2) >> 1;
      b >> 3;
    }
  }

  lemma HalvesTwentySeven(b: bv32)
    ensures Halves(b, 27) == b >> 27
  {
    hide Halves;
    calc {
      Halves(b, 27);
      { HalvesPlus(b, 24, 3); }
      Halves(Halves(b, 24), 3);
      { HalvesTwentyFour(b); }
      Halves(b >> 24, 3);
      { HalvesThree(b >> 24); }
      (b >> 24) >> 3;
      b >> 27;
    }
  }

  lemma HalvesThirtyOne(b: bv32)
    ensures Halves(b, 31) == b >> 31
  {
    hide Halves;
    calc {
      Halves(b, 31);
      { HalvesPlus(b, 27, 4); }
      Halves(Halves(b, 27), 4);
      { HalvesTwentySeven(b); }
      Halves(b >> 27, 4);
      { HalvesFour(b >> 27); }
      (b >> 27) >> 4;
      b >> 31;
    }
  }

  lemma ValueRot1(b: bv32)
    ensures RotL(1, Value(b)) == Value(Rot1(b))
  {
    hide Doubles, Halves, RotL, Value;
    ValueRotation(b, 1);
    DoublesOne(b);
    HalvesThirtyOne(b);
    assert OrV(b << 1, b >> 31) == Rot1(b);
  }

  lemma ValueRot5(b: bv32)
    ensures RotL(5, Value(b)) == Value(Rot5(b))
  {
    hide Doubles, Halves, RotL, Value;
    ValueRotation(b, 5);
    DoublesFive(b);
    HalvesTwentySeven(b);
    assert OrV(b << 5, b >> 27) == Rot5(b);
  }

  lemma ValueRot30(b: bv32)
    ensures RotL(30, Value(b)) == Value(Rot30(b))
  {
    hide Doubles, Halves, RotL, Value;
    ValueRotation(b, 30);
    DoublesThirty(b);
    HalvesTwo(b);
    assert OrV(b << 30, b >> 2) == Rot30(b);
  }

  // ----- octets -----

  function Digit(b: bv32, i: bv32): nat {
    if b & i == i then 1 else 0
  }

  /** The number in the low eight bits. */
  function Octet(b: bv32): (r: nat)
    ensures r < 256
  {
    Digit(b, 1) + 2 * Digit(b, 2) + 4 * Digit(b, 4) + 8 * Digit(b, 8)
    + 16 * Digit(b, 16) + 32 * Digit(b, 32) + 64 * Digit(b, 64) + 128 * Digit(b, 128)
  }

  lemma LowDigit(b: bv32)
    ensures LowBit(b) == Digit(b, 1) && LowBit(b >> 1) == Digit(b, 2) && LowBit(b >> 2) == Digit(b, 4)
    ensures LowBit(b >> 3) == Digit(b, 8)
  {
  }

  lemma HighDigit(b: bv32)
    ensures LowBit(b >> 4) == Digit(b, 16) && LowBit(b >> 5) == Digit(b, 32) && LowBit(b >> 6) == Digit(b, 64)
    ensures LowBit(b >> 7) == Digit(b, 128)
  {
  }

  lemma HalfShifts(b: bv32)
    ensures Half(b) == b >> 1 && Half(b >> 1) == b >> 2 && Half(b >> 2) == b >> 3 && Half(b >> 3) == b >> 4
    ensures Half(b >> 4) == b >> 5 && Half(b >> 5) == b >> 6 && Half(b >> 6) == b >> 7 && Half(b >> 7) == b >> 8
  {
  }

  lemma NumOctet(b: bv32, n: nat)
    ensures Num(b, 8 + n) == Octet(b) + 256 * Num(b >> 8, n)
  {
    hide Num, Half, LowBit, Digit;
    HalfShifts(b);
    LowDigit(b);
    HighDigit(b);
    NumStep(b, n + 8);
    NumStep(b >> 1, n + 7);
    NumStep(b >> 2, n + 6);
    NumStep(b >> 3, n + 5);
    NumStep(b >> 4, n + 4);
    NumStep(b >> 5, n + 3);
    NumStep(b >> 6, n + 2);
    NumStep(b >> 7, n + 1);
  }

  lemma NumOneOctet(b: bv32)
    ensures Num(b, 8) == Octet(b)
  {
    hide Octet;
    NumOctet(b, 0);
  }

  lemma NumTwoOctets(b: bv32)
    ensures Num(b >> 16, 16) == Octet(b >> 16) + 256 * Octet(b >> 24)
  {
    hide Octet, Num;
    NumOctet(b >> 16, 8);
    TwentyFourOff(b);
    NumOneOctet(b >> 24);
  }

  lemma NumThreeOctets(b: bv32)
    ensures Num(b >> 8, 24) == Octet(b >> 8) + 256 * (Octet(b >> 16) + 256 * Octet(b >> 24))
  {
    hide Octet, Num;
    NumOctet(b >> 8, 16);
    SixteenOff(b);
    NumTwoOctets(b);
  }

  lemma ValueOctets(b: bv32)
    ensures Value(b) == Octet(b) + 256 * (Octet(b >> 8) + 256 * (Octet(b >> 16) + 256 * Octet(b >> 24)))
  {
    hide Octet, Num;
    NumOctet(b, 24);
    NumThreeOctets(b);
  }

  lemma SixteenOff(b: bv32)
    ensures (b >> 8) >> 8 == b >> 16
  {
  }

  lemma TwentyFourOff(b: bv32)
    ensures (b >> 16) >> 8 == b >> 24
  {
  }
}
