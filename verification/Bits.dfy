// Bitwise operators of C's unsigned integers, as functions of the numbers:
// bit i of the result depends on bit i of the operands.

module Bits {

  /** 2^k. */
  function Pow2(k: nat): (r: nat)
    ensures r > 0
  {
    if k == 0 then 1 else 2 * Pow2(k - 1)
  }

  function And(x: nat, y: nat): (r: nat)
    ensures r <= x && r <= y
  {
    if x == 0 || y == 0 then 0
    else 2 * And(x / 2, y / 2) + (if x % 2 == 1 && y % 2 == 1 then 1 else 0)
  }

  function Or(x: nat, y: nat): (r: nat)
    ensures x <= r && y <= r && r <= x + y
  {
    if x == 0 then y else if y == 0 then x
    else 2 * Or(x / 2, y / 2) + (if x % 2 == 1 || y % 2 == 1 then 1 else 0)
  }

  function Xor(x: nat, y: nat): (r: nat)
    decreases x + y
  {
    if x == 0 && y == 0 then 0
    else 2 * Xor(x / 2, y / 2) + (if x % 2 != y % 2 then 1 else 0)
  }

  /** `x << n`, before truncation to the type's width. */
  function Shl(x: nat, n: nat): (r: nat)
    ensures r >= x
  {
    if n == 0 then x else 2 * Shl(x, n - 1)
  }

  /** `x >> n`. */
  function Shr(x: nat, n: nat): (r: nat)
    ensures r <= x
    decreases n
  {
    if n == 0 then x else Shr(x / 2, n - 1)
  }

  /** The low `n` bits of `x`. */
  function Low(x: nat, n: nat): (r: nat)
    ensures r < Pow2(n) && r <= x
    decreases n
  {
    if n == 0 then 0 else 2 * Low(x / 2, n - 1) + x % 2
  }

  lemma {:induction false} OrBound(x: nat, y: nat, k: nat)
    requires x < Pow2(k) && y < Pow2(k)
    ensures Or(x, y) < Pow2(k)
  {
    if x != 0 && y != 0 {
      OrBound(x / 2, y / 2, k - 1);
    }
  }

  lemma {:induction false} XorBound(x: nat, y: nat, k: nat)
    requires x < Pow2(k) && y < Pow2(k)
    ensures Xor(x, y) < Pow2(k)
    decreases x + y
  {
    if x != 0 || y != 0 {
      XorBound(x / 2, y / 2, k - 1);
    }
  }

  lemma {:induction false} XorTwice(x: nat, y: nat)
    ensures Xor(Xor(x, y), y) == x
    decreases x + y
  {
    if x != 0 || y != 0 {
      XorTwice(x / 2, y / 2);
      var z := Xor(x, y);
      assert z / 2 == Xor(x / 2, y / 2);
      assert z % 2 == (if x % 2 != y % 2 then 1 else 0);
      if z == 0 {
        assert Xor(x / 2, y / 2) == 0;
      }
      assert Xor(z, y) == 2 * Xor(z / 2, y / 2) + (if z % 2 != y % 2 then 1 else 0);
    } else {
      assert Xor(0, 0) == 0;
    }
  }

  /** `x & (2^k - 1)` keeps the low k bits. */
  lemma {:induction false} AndMask(x: nat, k: nat)
    ensures And(x, Pow2(k) - 1) == Low(x, k)
  {
    if k > 0 && x > 0 {
      AndMask(x / 2, k - 1);
      assert (Pow2(k) - 1) / 2 == Pow2(k - 1) - 1;
    }
  }

  /** Operands that share no bits are joined by adding them. */
  lemma {:induction false} OrDisjoint(x: nat, y: nat, k: nat)
    requires y < Pow2(k)
    ensures Or(Shl(x, k), y) == Shl(x, k) + y
  {
    if k > 0 && Shl(x, k) != 0 && y != 0 {
      OrDisjoint(x, y / 2, k - 1);
      assert Shl(x, k) / 2 == Shl(x, k - 1);
    }
  }

  /** `&` works separately on the high bits and on the low k bits. */
  lemma {:induction false} AndSplit(x: nat, y: nat, k: nat)
    ensures And(x, y) == Shl(And(Shr(x, k), Shr(y, k)), k) + And(Low(x, k), Low(y, k))
  {
    if k > 0 {
      hide And;
      AndSplit(x / 2, y / 2, k - 1);
      AndStep(x, y);
      AndStep(Low(x, k), Low(y, k));
      LowStep(x, k);
      LowStep(y, k);
    } else {
      hide And;
      BothZero();
    }
  }

  lemma BothZero()
    ensures And(0, 0) == 0 && Or(0, 0) == 0
  {
  }

  lemma ShlStep(x: nat, k: nat)
    requires k > 0
    ensures Shl(x, k) == 2 * Shl(x, k - 1)
  {
  }

  lemma LowStep(x: nat, k: nat)
    requires k > 0
    ensures Low(x, k) / 2 == Low(x / 2, k - 1) && Low(x, k) % 2 == x % 2
    ensures Shr(x, k) == Shr(x / 2, k - 1)
  {
  }

  lemma AndStep(x: nat, y: nat)
    ensures And(x, y) == 2 * And(x / 2, y / 2) + (if x % 2 == 1 && y % 2 == 1 then 1 else 0)
  {
  }

  lemma XorStep(x: nat, y: nat)
    ensures Xor(x, y) == 2 * Xor(x / 2, y / 2) + (if x % 2 != y % 2 then 1 else 0)
  {
  }

  lemma {:induction false} LowPlus(x: nat, j: nat, k: nat)
    ensures Low(x, j + k) == Low(x, j) + Shl(Low(Shr(x, j), k), j)
  {
    if j > 0 {
      LowPlus(x / 2, j - 1, k);
    }
  }

  lemma {:induction false} ShiftPlus(x: nat, j: nat, k: nat)
    ensures Shr(x, j + k) == Shr(Shr(x, j), k)
    ensures Shl(x, j + k) == Shl(Shl(x, k), j)
  {
    if j > 0 {
      ShiftPlus(x / 2, j - 1, k);
      ShiftPlus(x, j - 1, k);
    }
  }

  lemma Low2(x: nat)
    ensures Low(x, 2) == x % 4 && Shr(x, 2) == x / 4 && Shl(x, 2) == 4 * x
  {
    assert Low(x, 2) == 2 * Low(x / 2, 1) + x % 2;
    assert Low(x / 2, 1) == 2 * Low(x / 4, 0) + x / 2 % 2;
    assert Shr(x, 2) == Shr(x / 2, 1) == Shr(x / 4, 0);
    assert Shl(x, 2) == 2 * Shl(x, 1);
  }

  lemma DivMod16(x: nat)
    ensures x % 16 == x % 4 + 4 * (x / 4 % 4) && x / 16 == x / 4 / 4
  {
  }

  lemma DivMod256(x: nat)
    ensures x % 256 == x % 16 + 16 * (x / 16 % 16) && x / 256 == x / 16 / 16
  {
  }

  lemma Low4(x: nat)
    ensures Low(x, 4) == x % 16 && Shr(x, 4) == x / 16 && Shl(x, 4) == 16 * x
  {
    var y := x / 4;
    assert Low(x, 4) == x % 4 + 4 * (y % 4) && Shr(x, 4) == y / 4 by {
      LowPlus(x, 2, 2);
      ShiftPlus(x, 2, 2);
      Low2(x);
      Low2(y);
      Low2(Low(y, 2));
    }
    assert Shl(x, 4) == 16 * x by {
      ShiftPlus(x, 2, 2);
      Low2(x);
      Low2(4 * x);
    }
    DivMod16(x);
  }

  lemma Low1(x: nat)
    ensures Low(x, 1) == x % 2 && Shr(x, 1) == x / 2 && Shl(x, 1) == 2 * x
  {
    assert Low(x, 1) == 2 * Low(x / 2, 0) + x % 2;
    assert Shl(x, 1) == 2 * Shl(x, 0);
  }

  lemma DivMod8(x: nat)
    ensures x % 8 == x % 2 + 2 * (x / 2 % 4) && x / 8 == x / 2 / 4
  {
  }

  lemma Low3(x: nat)
    ensures Low(x, 3) == x % 8 && Shr(x, 3) == x / 8 && Shl(x, 3) == 8 * x
  {
    hide Low, Shr, Shl;
    var y := x / 2;
    LowPlus(x, 1, 2);
    ShiftPlus(x, 1, 2);
    Low1(x);
    Low2(y);
    Low1(Low(y, 2));
    Low2(x);
    Low1(4 * x);
    DivMod8(x);
  }

  lemma DivMod128(x: nat)
    ensures x % 128 == x % 8 + 8 * (x / 8 % 16) && x / 128 == x / 8 / 16
  {
  }

  lemma Low7(x: nat)
    ensures Low(x, 7) == x % 128 && Shr(x, 7) == x / 128 && Shl(x, 7) == 128 * x
  {
    hide Low, Shr, Shl;
    var y := x / 8;
    LowPlus(x, 3, 4);
    ShiftPlus(x, 3, 4);
    Low3(x);
    Low4(y);
    Low3(Low(y, 4));
    Low4(x);
    Low3(16 * x);
    DivMod128(x);
  }

  lemma Low8(x: nat)
    ensures Low(x, 8) == x % 256 && Shr(x, 8) == x / 256 && Shl(x, 8) == 256 * x
  {
    hide Low, Shr, Shl;
    var y := x / 16;
    assert Low(x, 8) == x % 16 + 16 * (y % 16) && Shr(x, 8) == y / 16 by {
      LowPlus(x, 4, 4);
      ShiftPlus(x, 4, 4);
      Low4(x);
      Low4(y);
      Low4(Low(y, 4));
    }
    assert Shl(x, 8) == 256 * x by {
      ShiftPlus(x, 4, 4);
      Low4(x);
      Low4(16 * x);
    }
    DivMod256(x);
  }

  /** Shifting right by whole octets. */
  lemma ShiftBytes(x: nat)
    ensures Shr(x, 8) == x / 0x100 && Shr(x, 16) == x / 0x1_0000 && Shr(x, 24) == x / 0x100_0000
  {
    hide Shr, Shl, Low;
    Low8(x);
    Low8(x / 0x100);
    Low8(x / 0x1_0000);
    ShiftPlus(x, 8, 8);
    ShiftPlus(x, 16, 8);
    DivDiv(x);
  }

  lemma DivDiv(x: nat)
    ensures x / 0x100 / 0x100 == x / 0x1_0000 && x / 0x1_0000 / 0x100 == x / 0x100_0000
  {
  }

  lemma {:induction false} OrSplit(x: nat, y: nat, k: nat)
    ensures Or(x, y) == Shl(Or(Shr(x, k), Shr(y, k)), k) + Or(Low(x, k), Low(y, k))
  {
    if k > 0 {
      hide Or, Shr, Shl, Low;
      OrSplit(x / 2, y / 2, k - 1);
      OrStep(x, y);
      OrStep(Low(x, k), Low(y, k));
      LowStep(x, k);
      LowStep(y, k);
      ShlStep(Or(Shr(x, k), Shr(y, k)), k);
    } else {
      hide Or;
      BothZero();
    }
  }

  lemma OrStep(x: nat, y: nat)
    ensures Or(x, y) == 2 * Or(x / 2, y / 2) + (if x % 2 == 1 || y % 2 == 1 then 1 else 0)
  {
  }

  /** Operators on 16-bit values work octet by octet. */
  lemma AndOrOctets(a: nat, b: nat, c: nat, d: nat)
    requires b < 256 && d < 256
    ensures And(256 * a + b, 256 * c + d) == 256 * And(a, c) + And(b, d)
    ensures Or(256 * a + b, 256 * c + d) == 256 * Or(a, c) + Or(b, d)
  {
    hide And, Or, Shr, Shl, Low;
    var x, y := 256 * a + b, 256 * c + d;
    assert x / 256 == a && x % 256 == b && y / 256 == c && y % 256 == d;
    AndSplit(x, y, 8);
    OrSplit(x, y, 8);
    Low8(x);
    Low8(y);
    Low8(And(a, c));
    Low8(Or(a, c));
  }
}
