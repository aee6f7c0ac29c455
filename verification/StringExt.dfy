// Decimal numbers and substring search: src/string_ext.c.

module StringExt {
  import opened Bytes

  const ZERO: byte := '0' as int

  predicate IsDigit(c: byte) {
    '0' as int <= c <= '9' as int
  }

  predicate AllDigits(s: seq<byte>) {
    forall i :: 0 <= i < |s| ==> IsDigit(s[i])
  }

  /** The value of a digit string, most significant digit first. */
  function DecimalValue(s: seq<byte>): (r: nat)
    requires AllDigits(s)
  {
    if s == [] then 0 else DecimalValue(s[..|s| - 1]) * 10 + (s[|s| - 1] - ZERO)
  }

  /** The usual decimal notation, without leading zeros. */
  function Digits(n: nat): (s: seq<byte>)
    ensures s != [] && AllDigits(s)
    ensures |s| > 1 ==> s[0] != ZERO
  {
    if n < 10 then [ZERO + n] else Digits(n / 10) + [ZERO + n % 10]
  }

  function Pow10(k: nat): (r: nat)
    ensures r > 0
  {
    if k == 0 then 1 else 10 * Pow10(k - 1)
  }

  lemma {:induction false} ValueOfDigits(n: nat)
    ensures DecimalValue(Digits(n)) == n
  {
    if n >= 10 {
      ValueOfDigits(n / 10);
      var s := Digits(n);
      assert s[..|s| - 1] == Digits(n / 10);
    }
  }

  lemma {:induction false} DigitCount(n: nat, k: nat)
    requires n < Pow10(k) && k > 0
    ensures |Digits(n)| <= k
  {
    if n >= 10 {
      DigitCount(n / 10, k - 1);
    }
  }

  lemma {:induction false} ValueBound(s: seq<byte>)
    requires AllDigits(s)
    ensures DecimalValue(s) < Pow10(|s|)
  {
    if s != [] {
      ValueBound(s[..|s| - 1]);
    }
  }

  /** One more digit in front adds that digit times a power of ten. */
  lemma {:induction false} ValueCons(c: byte, s: seq<byte>)
    requires IsDigit(c) && AllDigits(s)
    ensures AllDigits([c] + s) && DecimalValue([c] + s) == Pow10(|s|) * (c - ZERO) + DecimalValue(s)
  {
    var t := [c] + s;
    if s == [] {
      assert t[..0] == [];
    } else {
      var init, d := s[..|s| - 1], s[|s| - 1] - ZERO;
      ValueCons(c, init);
      assert t[..|t| - 1] == [c] + init;
      assert 10 * (Pow10(|init|) * (c - ZERO)) == Pow10(|s|) * (c - ZERO);
    }
  }

  // ----- atoin -----

  /** A 32-bit int after wrapping around. */
  function WrapInt(x: int): (r: int)
    ensures -TWO_31 <= r < TWO_31
  {
    (x + TWO_31) % TWO_32 - TWO_31
  }

  /** What `atoin` returns: signed overflow is taken to wrap around. */
  function Atoin(s: seq<byte>): int {
    if s != [] && AllDigits(s) then WrapInt(DecimalValue(s)) else 0
  }

  lemma WrapQuotient(x: int) returns (q: int)
    ensures WrapInt(x) == x - q * TWO_32
  {
    q := (x + TWO_31) / TWO_32;
  }

  lemma WrapUnique(x: int, y: int, q: int)
    requires y == x - q * TWO_32 && -TWO_31 <= y < TWO_31
    ensures y == WrapInt(x)
  {
    assert (x + TWO_31) == q * TWO_32 + (y + TWO_31);
  }

  /** One digit of the loop: `value` and `m` keep their distance of whole wraps from the true numbers. */
  lemma WrapStep(value: int, m: int, trueValue: int, trueM: int, vq: int, mq: int, d: int) returns (vq1: int, mq1: int)
    requires value == trueValue - vq * TWO_32 && m == trueM - mq * TWO_32
    ensures WrapInt(value + m * d) == trueM * d + trueValue - vq1 * TWO_32
    ensures WrapInt(m * 10) == trueM * 10 - mq1 * TWO_32
  {
    hide WrapInt;
    var q := WrapQuotient(value + m * d);
    assert m * d == trueM * d - (mq * d) * TWO_32 by {
      assert (mq * TWO_32) * d == (mq * d) * TWO_32;
    }
    vq1 := vq + mq * d + q;
    q := WrapQuotient(m * 10);
    mq1 := mq * 10 + q;
  }

  /** `atoin`: the digits are added up from the right. */
  method AtoinFromRight(s: seq<byte>) returns (value: int)
    ensures value == Atoin(s)
  {
    hide WrapInt, DecimalValue, Pow10;
    value := 0;
    var m := 1;
    if |s| == 0 {
      return 0;
    }
    var i := |s|;
    ghost var vq, mq := 0, 0;
    EmptyNumber(s[|s|..]);
    while i > 0
      invariant 0 <= i <= |s| && AllDigits(s[i..])
      invariant value == DecimalValue(s[i..]) - vq * TWO_32 && -TWO_31 <= value < TWO_31
      invariant m == Pow10(|s| - i) - mq * TWO_32
    {
      var c := s[i - 1];
      if c < '0' as int || c > '9' as int {
        return 0;
      }
      ghost var tail := s[i..];
      assert s[i - 1..] == [c] + tail;
      ValueCons(c, tail);
      Pow10Next(|tail|);
      vq, mq := WrapStep(value, m, DecimalValue(tail), Pow10(|tail|), vq, mq, c - ZERO);
      value := WrapInt(value + m * (c - ZERO));
      m := WrapInt(m * 10);
      i := i - 1;
    }
    assert s[0..] == s;
    WrapUnique(DecimalValue(s), value, vq);
  }

  lemma EmptyNumber(s: seq<byte>)
    requires s == []
    ensures DecimalValue(s) == 0 && Pow10(0) == 1
  {
  }

  lemma Pow10Next(k: nat)
    ensures Pow10(k + 1) == Pow10(k) * 10
  {
  }

  /** The result is the decimal value exactly when that value fits an int. */
  lemma AtoinExact(s: seq<byte>)
    requires s != [] && AllDigits(s)
    ensures Atoin(s) == DecimalValue(s) <==> DecimalValue(s) < TWO_31
  {
  }

  /** No intermediate sum or power of ten leaves the int range exactly up to nine digits. */
  lemma NoOverflowIffNineDigits(s: seq<byte>)
    requires AllDigits(s)
    ensures (forall k :: 0 <= k <= |s| ==> Pow10(k) < TWO_31 && DecimalValue(s[|s| - k..]) < TWO_31) <==> |s| <= 9
  {
    assert Pow10(9) == 10 * Pow10(8) == 100 * Pow10(7) == 1000 * Pow10(6);
    assert Pow10(6) == 10 * Pow10(5) == 100 * Pow10(4) == 1000 * Pow10(3) == 1000_000;
    if |s| <= 9 {
      forall k | 0 <= k <= |s|
        ensures Pow10(k) < TWO_31 && DecimalValue(s[|s| - k..]) < TWO_31
      {
        Pow10Monotone(k, 9);
        ValueBound(s[|s| - k..]);
      }
    } else {
      assert Pow10(10) > TWO_31;
      assert 0 <= 10 <= |s|;
    }
  }

  lemma {:induction false} Pow10Monotone(j: nat, k: nat)
    requires j <= k
    ensures Pow10(j) <= Pow10(k)
  {
    if j < k {
      Pow10Monotone(j, k - 1);
    }
  }

  // ----- strnstr -----

  predicate MatchAt(str: seq<byte>, sub: seq<byte>, i: nat) {
    i + |sub| <= |str| && str[i..i + |sub|] == sub
  }

  /** `sub` occurs within the first `len` octets. */
  predicate OccursIn(sub: seq<byte>, str: seq<byte>, len: nat) {
    exists i: nat :: i + |sub| <= len && MatchAt(str, sub, i)
  }

  /** `strnstr`: the first occurrence within the first `len` octets. */
  method Strnstr(str: seq<byte>, sub: seq<byte>, len: nat) returns (r: Option<nat>)
    requires len <= |str|
    ensures r.Some? <==> OccursIn(sub, str, len)
    ensures r.Some? ==> r.value + |sub| <= len && MatchAt(str, sub, r.value)
    ensures r.Some? ==> forall i: nat :: i < r.value ==> !MatchAt(str, sub, i)
  {
    if len < |sub| {
      return None;
    }
    var i := 0;
    while i <= len - |sub|
      invariant 0 <= i <= len - |sub| + 1
      invariant forall j: nat :: j < i ==> !MatchAt(str, sub, j)
    {
      if str[i..i + |sub|] == sub {
        assert MatchAt(str, sub, i);
        return Some(i);
      }
      i := i + 1;
    }
    return None;
  }
}
