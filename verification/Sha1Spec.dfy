// SHA-1 as RFC 3174 defines it: message padding (section 4), the functions and
// constants (section 5) and the computation of method 1 (section 6.1).

module Sha1Spec {
  import opened Bits
  import opened Bytes

  type word = uint32

  /** The five word buffers H0..H4 or A..E. */
  datatype Regs = Regs(a: word, b: word, c: word, d: word, e: word)

  // Bitwise logical word operations of section 3.

  function BitAnd(x: word, y: word): word {
    And(x, y)
  }

  function BitOr(x: word, y: word): word {
    PowerOfEight();
    OrBound(x, y, 32);
    Or(x, y)
  }

  function BitXor(x: word, y: word): word {
    PowerOfEight();
    XorBound(x, y, 32);
    Xor(x, y)
  }

  function BitNot(x: word): word {
    0xFFFF_FFFF - x
  }

  function ShiftLeft(x: word, n: nat): word {
    Wrap32(Shl(x, n))
  }

  function ShiftRight(x: word, n: nat): word {
    Shr(x, n)
  }

  /** The circular left shift S^n(X) of section 3. */
  function RotL(n: nat, x: word): word
    requires 0 < n < 32
  {
    BitOr(ShiftLeft(x, n), ShiftRight(x, 32 - n))
  }

  function F(t: nat, b: word, c: word, d: word): word
    requires t < 80
  {
    if t < 20 then BitOr(BitAnd(b, c), BitAnd(BitNot(b), d))
    else if t < 40 then BitXor(BitXor(b, c), d)
    else if t < 60 then BitOr(BitOr(BitAnd(b, c), BitAnd(b, d)), BitAnd(c, d))
    else BitXor(BitXor(b, c), d)
  }

  function K(t: nat): word
    requires t < 80
  {
    if t < 20 then 0x5A827999
    else if t < 40 then 0x6ED9EBA1
    else if t < 60 then 0x8F1BBCDC
    else 0xCA62C1D6
  }

  const H0 := Regs(0x67452301, 0xEFCDAB89, 0x98BADCFE, 0x10325476, 0xC3D2E1F0)

  /** The 32-bit word made of four octets, first octet leftmost. */
  function WordOf(b0: byte, b1: byte, b2: byte, b3: byte): word {
    BitOr(BitOr(BitOr(ShiftLeft(b0, 24), ShiftLeft(b1, 16)), ShiftLeft(b2, 8)), b3)
  }

  /** The message schedule W(t) of section 6.1, steps a and b. */
  function W(block: seq<byte>, t: nat): word
    requires |block| == 64 && t < 80
  {
    if t < 16 then WordOf(block[4 * t], block[4 * t + 1], block[4 * t + 2], block[4 * t + 3])
    else RotL(1, BitXor(BitXor(BitXor(W(block, t - 3), W(block, t - 8)), W(block, t - 14)), W(block, t - 16)))
  }

  /** One execution of step d of section 6.1. */
  function Round(r: Regs, t: nat, w: word): Regs
    requires t < 80
  {
    var temp := Wrap32(RotL(5, r.a) + F(t, r.b, r.c, r.d) + r.e + w + K(t));
    Regs(temp, r.a, RotL(30, r.b), r.c, r.d)
  }

  /** The word buffers after the first `t` executions of step d. */
  function Rounds(h: Regs, block: seq<byte>, t: nat): Regs
    requires |block| == 64 && t <= 80
  {
    if t == 0 then h else Round(Rounds(h, block, t - 1), t - 1, W(block, t - 1))
  }

  /** Steps a to e of section 6.1 for one block. */
  function Compress(h: Regs, block: seq<byte>): Regs
    requires |block| == 64
  {
    var r := Rounds(h, block, 80);
    Regs(Wrap32(h.a + r.a), Wrap32(h.b + r.b), Wrap32(h.c + r.c),
         Wrap32(h.d + r.d), Wrap32(h.e + r.e))
  }

  /** The chaining value after processing a whole number of blocks in order. */
  function HashBlocks(m: seq<byte>): Regs
    requires |m| % 64 == 0
  {
    if m == [] then H0
    else Compress(HashBlocks(m[..|m| - 64]), m[|m| - 64..])
  }

  lemma AppendBlock(m: seq<byte>, block: seq<byte>)
    requires |m| % 64 == 0 && |block| == 64
    ensures |m + block| % 64 == 0
    ensures HashBlocks(m + block) == Compress(HashBlocks(m), block)
  {
    hide Compress;
    var m1 := m + block;
    assert |m1| == |m| + 64;
    assert m1[..|m1| - 64] == m && m1[|m1| - 64..] == block;
  }

  /** The number of zero octets that section 4 puts between the 1 bit's octet and the length. */
  function ZeroCount(n: nat): nat {
    if n % 64 <= 55 then 55 - n % 64 else 119 - n % 64
  }

  /** Message padding of section 4 for a message of whole octets. */
  function Pad(m: seq<byte>): seq<byte> {
    m + [0x80] + Zeros(ZeroCount(|m|)) + ToBE(8 * |m|, 8)
  }

  lemma PadBlocks(m: seq<byte>)
    ensures |Pad(m)| == |m| - |m| % 64 + (if |m| % 64 > 55 then 128 else 64)
    ensures |Pad(m)| % 64 == 0
  {
  }

  /** Distinct messages of fewer than 2^61 octets are never padded to the same blocks. */
  lemma PadInjective(m1: seq<byte>, m2: seq<byte>)
    requires |m1| < TWO_61 && |m2| < TWO_61
    ensures Pad(m1) == Pad(m2) <==> m1 == m2
  {
    if Pad(m1) == Pad(m2) {
      hide ToBE;
      var p := Pad(m1);
      assert p[|p| - 8..] == ToBE(8 * |m1|, 8);
      assert p[|p| - 8..] == ToBE(8 * |m2|, 8);
      Powers256();
      FromToBE(8 * |m1|, 8);
      FromToBE(8 * |m2|, 8);
      assert p[..|m1|] == m1 && p[..|m2|] == m2;
    }
  }

  function WordBytes(w: word): (s: seq<byte>)
    ensures |s| == 4
  {
    [ShiftRight(w, 24) % 256, ShiftRight(w, 16) % 256, ShiftRight(w, 8) % 256, w % 256]
  }

  /** The 160-bit message digest H0 H1 H2 H3 H4. */
  function Digest(h: Regs): (s: seq<byte>)
    ensures |s| == 20
  {
    WordBytes(h.a) + WordBytes(h.b) + WordBytes(h.c) + WordBytes(h.d) + WordBytes(h.e)
  }

  function Sha1(m: seq<byte>): (s: seq<byte>)
    ensures |s| == 20
  {
    PadBlocks(m);
    Digest(HashBlocks(Pad(m)))
  }
}
