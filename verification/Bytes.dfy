// Octets, host byte order and big-endian numbers, shared by the other modules.

module Bytes {
  import opened Bits

  /** A C `uint8_t` (or the value of an `unsigned char`). */
  type byte = x: int | 0 <= x < 256

  datatype Option<T> = None | Some(value: T)

  const TWO_16 := 0x1_0000
  const TWO_31 := 0x8000_0000
  const TWO_32 := 0x1_0000_0000
  const TWO_61 := 0x2000_0000_0000_0000
  const TWO_64 := 0x1_0000_0000_0000_0000

  type uint16 = x: int | 0 <= x < TWO_16
  type uint32 = x: int | 0 <= x < TWO_32
  type uint64 = x: int | 0 <= x < TWO_64

  /** The value an unsigned 32-bit variable holds after being assigned `x`. */
  function Wrap32(x: nat): uint32 {
    x % TWO_32
  }

  function Zeros(n: nat): (r: seq<byte>)
    ensures |r| == n
    ensures forall i :: 0 <= i < n ==> r[i] == 0
  {
    seq(n, i => 0)
  }

  lemma AppendAssociates<T>(a: seq<T>, b: seq<T>, c: seq<T>)
    ensures a + (b + c) == (a + b) + c
  {
  }

  // ----- C strings -----

  /** The octets of a string literal. */
  function Ascii(s: string): (r: seq<byte>)
    ensures |r| == |s|
    ensures forall i :: 0 <= i < |s| ==> r[i] == s[i] as int % 256
  {
    seq(|s|, i requires 0 <= i < |s| => s[i] as int % 256)
  }

  /** The text of a NUL-terminated buffer: everything before the first NUL. */
  function CString(s: seq<byte>): seq<byte> {
    if s == [] || s[0] == 0 then [] else [s[0]] + CString(s[1..])
  }

  lemma {:induction false} CStringWhole(s: seq<byte>)
    requires 0 !in s
    ensures CString(s) == s
  {
    if s != [] {
      CStringWhole(s[1..]);
    }
  }

  // ----- bit operations on octets -----

  /** The exclusive or of two octets. */
  function XorByte(a: byte, b: byte): byte {
    assert Pow2(8) == 256 by { PowerOfEight(); }
    XorBound(a, b, 8);
    Xor(a, b)
  }

  lemma XorByteTwice(a: byte, b: byte)
    ensures XorByte(XorByte(a, b), b) == a
  {
    XorTwice(a, b);
  }

  lemma PowerOfEight()
    ensures Pow2(8) == 256 && Pow2(16) == TWO_16 && Pow2(32) == TWO_32
  {
    assert Pow2(4) == 16;
    assert Pow2(8) == 2 * Pow2(7) == 4 * Pow2(6) == 8 * Pow2(5) == 16 * Pow2(4);
    assert Pow2(12) == 2 * Pow2(11) == 4 * Pow2(10) == 8 * Pow2(9) == 16 * Pow2(8);
    assert Pow2(16) == 2 * Pow2(15) == 4 * Pow2(14) == 8 * Pow2(13) == 16 * Pow2(12);
    assert Pow2(20) == 2 * Pow2(19) == 4 * Pow2(18) == 8 * Pow2(17) == 16 * Pow2(16);
    assert Pow2(24) == 2 * Pow2(23) == 4 * Pow2(22) == 8 * Pow2(21) == 16 * Pow2(20);
    assert Pow2(28) == 2 * Pow2(27) == 4 * Pow2(26) == 8 * Pow2(25) == 16 * Pow2(24);
    assert Pow2(32) == 2 * Pow2(31) == 4 * Pow2(30) == 8 * Pow2(29) == 16 * Pow2(28);
  }

  // ----- big-endian numbers -----

  /** The value of a big-endian octet string, first octet most significant. */
  function FromBE(s: seq<byte>): (r: nat) {
    if s == [] then 0 else FromBE(s[..|s| - 1]) * 256 + s[|s| - 1]
  }

  /** The big-endian encoding of `n` in `k` octets (its low 8k bits). */
  function ToBE(n: nat, k: nat): (s: seq<byte>)
    ensures |s| == k
  {
    if k == 0 then [] else ToBE(n / 256, k - 1) + [n % 256]
  }

  function Pow256(k: nat): (r: nat)
    ensures r > 0
  {
    if k == 0 then 1 else 256 * Pow256(k - 1)
  }

  lemma Powers256()
    ensures Pow256(2) == TWO_16 && Pow256(4) == TWO_32 && Pow256(8) == TWO_64
  {
  }

  lemma {:induction false} FromToBE(n: nat, k: nat)
    requires n < Pow256(k)
    ensures FromBE(ToBE(n, k)) == n
  {
    if k > 0 {
      var s := ToBE(n, k);
      FromToBE(n / 256, k - 1);
      assert s[..|s| - 1] == ToBE(n / 256, k - 1);
    }
  }

  lemma ToBE4(n: nat)
    ensures ToBE(n, 4) == [n / 0x100_0000 % 256, n / 0x1_0000 % 256, n / 0x100 % 256, n % 256]
  {
    assert ToBE(n / 0x100_0000, 1) == ToBE(n / 0x1_0000_0000, 0) + [n / 0x100_0000 % 256];
    assert ToBE(n / 0x1_0000, 2) == ToBE(n / 0x100_0000, 1) + [n / 0x1_0000 % 256];
    assert ToBE(n / 0x100, 3) == ToBE(n / 0x1_0000, 2) + [n / 0x100 % 256];
  }

  lemma DivStep(a: nat, low: nat)
    ensures (256 * a + low) / 256 == a + low / 256 && (256 * a + low) % 256 == low % 256
  {
  }

  /** The octets of a number are those of its high part, then those of its low part. */
  lemma {:induction false} ToBEAppend(high: nat, low: nat, k: nat, j: nat)
    requires low < Pow256(j)
    ensures ToBE(high * Pow256(j) + low, k + j) == ToBE(high, k) + ToBE(low, j)
    decreases j
  {
    if j > 0 {
      var n := high * Pow256(j) + low;
      var a := high * Pow256(j - 1);
      assert n == 256 * a + low;
      DivStep(a, low);
      ToBEAppend(high, low / 256, k, j - 1);
      assert ToBE(n, k + j) == ToBE(n / 256, k + j - 1) + [n % 256];
    }
  }

  lemma ToBETwoHalves(high: nat, low: uint16)
    ensures ToBE(high * TWO_16 + low, 4) == ToBE(high, 2) + ToBE(low, 2)
  {
    Powers256();
    ToBEAppend(high, low, 2, 2);
  }

  lemma ToBETwoWords(high: nat, low: uint32)
    ensures ToBE(high * TWO_32 + low, 8) == ToBE(high, 4) + ToBE(low, 4)
  {
    Powers256();
    ToBEAppend(high, low, 4, 4);
  }
}
