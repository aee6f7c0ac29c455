// What the bitwise operators do to the binary digits of numbers, and the word
// operations of SHA-1 in those terms.

module BitLaws {
  import opened Bits
  import opened Bytes
  import opened Sha1Spec

  /** Binary digit `i` of a number. */
  function Bit(x: nat, i: nat): (r: nat)
    ensures r == 0 || r == 1
  {
    x / Pow2(i) % 2
  }

  lemma HalfThenDivide(x: nat, p: nat)
    requires p > 0
    ensures x / (2 * p) == x / 2 / p
  {
    var q, r := x / 2 / p, x / 2 % p;
    assert x / 2 == p * q + r;
    assert x == (2 * p) * q + (2 * r + x % 2);
    Quotient(x, 2 * p, q, 2 * r + x % 2);
  }

  lemma Quotient(x: nat, d: nat, q: nat, r: nat)
    requires r < d && x == d * q + r
    ensures x / d == q && x % d == r
  {
    var e := x / d;
    assert d * e <= x < d * (e + 1);
    Multiples(d, e + 1, q);
    Multiples(d, q + 1, e);
  }

  lemma Multiples(d: nat, a: nat, b: nat)
    ensures a <= b ==> d * a <= d * b
  {
  }

  lemma BitStep(x: nat, i: nat)
    ensures Bit(x, 0) == x % 2
    ensures i > 0 ==> Bit(x, i) == Bit(x / 2, i - 1)
  {
    if i > 0 {
      HalfThenDivide(x, Pow2(i - 1));
    }
  }

  lemma {:induction false} AndBit(x: nat, y: nat, i: nat)
    ensures Bit(And(x, y), i) == 1 <==> Bit(x, i) == 1 && Bit(y, i) == 1
  {
    hide Bit, And;
    BitStep(x, i);
    BitStep(y, i);
    BitStep(And(x, y), i);
    AndStep(x, y);
    if i > 0 {
      AndBit(x / 2, y / 2, i - 1);
    }
  }

  lemma {:induction false} OrBit(x: nat, y: nat, i: nat)
    ensures Bit(Or(x, y), i) == 1 <==> Bit(x, i) == 1 || Bit(y, i) == 1
  {
    hide Bit, Or;
    BitStep(x, i);
    BitStep(y, i);
    BitStep(Or(x, y), i);
    OrStep(x, y);
    if i > 0 {
      OrBit(x / 2, y / 2, i - 1);
    }
  }

  lemma {:induction false} XorBit(x: nat, y: nat, i: nat)
    ensures Bit(Xor(x, y), i) == 1 <==> Bit(x, i) != Bit(y, i)
  {
    hide Bit, Xor;
    BitStep(x, i);
    BitStep(y, i);
    BitStep(Xor(x, y), i);
    XorStep(x, y);
    if i > 0 {
      XorBit(x / 2, y / 2, i - 1);
    }
  }

  lemma {:induction false} NotBit(x: nat, k: nat, i: nat)
    requires x < Pow2(k) && i < k
    ensures Bit(Pow2(k) - 1 - x, i) == 1 - Bit(x, i)
  {
    hide Bit;
    var y := Pow2(k) - 1 - x;
    assert Pow2(k) == 2 * Pow2(k - 1);
    BitStep(x, i);
    BitStep(y, i);
    assert y % 2 == 1 - x % 2 && y / 2 == Pow2(k - 1) - 1 - x / 2;
    if i > 0 {
      NotBit(x / 2, k - 1, i - 1);
    }
  }

  lemma {:induction false} ShlProduct(x: nat, n: nat)
    ensures Shl(x, n) == x * Pow2(n)
  {
    if n > 0 {
      ShlProduct(x, n - 1);
    }
  }

  lemma {:induction false} ShrQuotient(x: nat, n: nat)
    ensures Shr(x, n) == x / Pow2(n)
  {
    if n > 0 {
      ShrQuotient(x / 2, n - 1);
      HalfThenDivide(x, Pow2(n - 1));
    }
  }

  lemma {:induction false} PowerSum(j: nat, k: nat)
    ensures Pow2(j + k) == Pow2(j) * Pow2(k)
  {
    if j > 0 {
      PowerSum(j - 1, k);
    }
  }

  // ----- the operations of SHA-1 -----

  /** What a product leaves below a multiple of its second factor. */
  lemma ProductRemainder(x: nat, p: nat, q: nat)
    requires p > 0 && q > 0
    ensures x * p % (q * p) == x % q * p
  {
    var d, r := x / q, x % q;
    assert x * p == (q * p) * d + r * p;
    assert r * p < q * p;
    Quotient(x * p, q * p, d, r * p);
  }

  lemma QuotientBound(x: nat, p: nat, q: nat)
    requires q > 0 && x < p * q
    ensures x / q < p
  {
    Multiples(q, p, x / q);
  }

  /** The circular shift moves the high `n` bits to the low end and loses none. */
  lemma RotLRotates(n: nat, x: word)
    requires 0 < n < 32
    ensures RotL(n, x) == x % Pow2(32 - n) * Pow2(n) + x / Pow2(32 - n)
  {
    hide Or, Shl, Shr, Pow2;
    PowerOfEight();
    PowerSum(n, 32 - n);
    PowerSum(32 - n, n);
    ShlProduct(x, n);
    ShrQuotient(x, 32 - n);
    var low := x % Pow2(32 - n);
    ProductRemainder(x, Pow2(n), Pow2(32 - n));
    QuotientBound(x, Pow2(n), Pow2(32 - n));
    ShlProduct(low, n);
    OrDisjoint(low, x / Pow2(32 - n), n);
  }

  lemma WordNotBit(x: word, i: nat)
    requires i < 32
    ensures Bit(BitNot(x), i) == 1 - Bit(x, i)
  {
    hide Bit;
    PowerOfEight();
    NotBit(x, 32, i);
  }

  /** In the first 20 steps each bit of `b` chooses between those of `c` and `d`. */
  lemma FChooses(t: nat, b: word, c: word, d: word, i: nat)
    requires t < 20 && i < 32
    ensures Bit(F(t, b, c, d), i) == if Bit(b, i) == 1 then Bit(c, i) else Bit(d, i)
  {
    hide Bit, And, Or, BitNot;
    AndBit(b, c, i);
    AndBit(BitNot(b), d, i);
    WordNotBit(b, i);
    OrBit(BitAnd(b, c), BitAnd(BitNot(b), d), i);
  }

  /** In steps 20 to 39 and 60 to 79 each bit is the parity of the three. */
  lemma FIsParity(t: nat, b: word, c: word, d: word, i: nat)
    requires (20 <= t < 40 || 60 <= t < 80) && i < 32
    ensures Bit(F(t, b, c, d), i) == (Bit(b, i) + Bit(c, i) + Bit(d, i)) % 2
  {
    hide Bit, Xor;
    XorBit(b, c, i);
    XorBit(BitXor(b, c), d, i);
  }

  /** In steps 40 to 59 each bit is the majority of the three. */
  lemma FIsMajority(t: nat, b: word, c: word, d: word, i: nat)
    requires 40 <= t < 60 && i < 32
    ensures Bit(F(t, b, c, d), i) == 1 <==> Bit(b, i) + Bit(c, i) + Bit(d, i) >= 2
  {
    hide Bit, And, Or;
    AndBit(b, c, i);
    AndBit(b, d, i);
    AndBit(c, d, i);
    OrBit(BitAnd(b, c), BitAnd(b, d), i);
    OrBit(BitOr(BitAnd(b, c), BitAnd(b, d)), BitAnd(c, d), i);
  }

  /** The constants are the integer parts of 2^30 times the square roots of 2, 3, 5 and 10. */
  lemma KIsSquareRoot(t: nat)
    requires t < 80
    ensures var k := if t < 20 then 2 else if t < 40 then 3 else if t < 60 then 5 else 10;
            var n: nat := K(t);
            n * n <= k * 0x1000_0000_0000_0000 < (n + 1) * (n + 1)
  {
  }

  // ----- masking -----

  /** Bit `i` of a masked octet differs from that of the octet exactly when that bit of the key is set. */
  lemma XorByteBit(a: byte, b: byte, i: nat)
    requires i < 8
    ensures Bit(XorByte(a, b), i) == 1 <==> Bit(a, i) != Bit(b, i)
  {
    hide Bit, Xor;
    XorBit(a, b, i);
  }

  // ----- words of octets -----

  lemma OctetShift(x: nat)
    ensures Pow2(8) == 256 && Pow2(16) == 0x1_0000 && Pow2(24) == 0x100_0000
    ensures Shl(x, 8) == 256 * x && Shl(x, 16) == 0x1_0000 * x && Shl(x, 24) == 0x100_0000 * x
  {
    hide Shl;
    PowerOfEight();
    assert Pow2(24) == 0x100_0000 by {
      PowerSum(16, 8);
    }
    ShlProduct(x, 8);
    ShlProduct(x, 16);
    ShlProduct(x, 24);
  }

  lemma JoinTop(b0: byte, b1: byte)
    ensures BitOr(ShiftLeft(b0, 24), ShiftLeft(b1, 16)) == 0x1_0000 * (b1 + 256 * b0)
  {
    hide Or, Shl, Pow2;
    OctetShift(b0);
    OctetShift(b1);
    OrDisjoint(b0, 0x1_0000 * b1, 24);
  }

  lemma JoinThird(x: nat, b2: byte)
    requires x < 0x1_0000
    ensures BitOr(0x1_0000 * x, ShiftLeft(b2, 8)) == 0x100 * (b2 + 256 * x)
  {
    hide Or, Shl, Pow2;
    OctetShift(x);
    OctetShift(b2);
    OrDisjoint(x, 256 * b2, 16);
  }

  lemma JoinLast(x: nat, b3: byte)
    requires x < 0x100_0000
    ensures BitOr(0x100 * x, b3) == b3 + 256 * x
  {
    hide Or, Shl, Pow2;
    OctetShift(x);
    OrDisjoint(x, b3, 8);
  }

  /** The word made of four octets is their big-endian value. */
  lemma WordOfOctets(b0: byte, b1: byte, b2: byte, b3: byte)
    ensures WordOf(b0, b1, b2, b3) == b3 + 256 * (b2 + 256 * (b1 + 256 * b0))
  {
    hide BitOr, ShiftLeft;
    JoinTop(b0, b1);
    JoinThird(b1 + 256 * b0, b2);
    JoinLast(b2 + 256 * (b1 + 256 * b0), b3);
  }
}
