// The compression of SHA-1 on bit vectors, eight steps at a time.

module Sha1Words {
  import opened Bits
  import opened Bytes
  import opened BitLaws
  import opened Sha1Spec
  import opened WordBits

  datatype RegsV = RegsV(a: bv32, b: bv32, c: bv32, d: bv32, e: bv32)

  function RegsOf(r: RegsV): Regs {
    Regs(Value(r.a), Value(r.b), Value(r.c), Value(r.d), Value(r.e))
  }

  function FV(t: nat, b: bv32, c: bv32, d: bv32): bv32 {
    if t < 20 then (b & c) | (!b & d)
    else if t < 40 then b ^ c ^ d
    else if t < 60 then (b & c) | (b & d) | (c & d)
    else b ^ c ^ d
  }

  function KV(t: nat): bv32 {
    if t < 20 then 0x5A82_7999 else if t < 40 then 0x6ED9_EBA1 else if t < 60 then 0x8F1B_BCDC else 0xCA62_C1D6
  }

  function AddV(a: bv32, b: bv32, c: bv32, d: bv32, e: bv32): bv32 {
    a + b + c + d + e
  }

  function RoundV(r: RegsV, t: nat, w: bv32): RegsV {
    RegsV(AddV(Rot5(r.a), FV(t, r.b, r.c, r.d), r.e, w, KV(t)), r.a, Rot30(r.b), r.c, r.d)
  }

  lemma ValueAnd(a: bv32, b: bv32)
    ensures BitAnd(Value(a), Value(b)) == Value(AndV(a, b))
  {
    hide Num, And, AndV;
    NumAnd(a, b, 32);
  }

  lemma ValueOr(a: bv32, b: bv32)
    ensures BitOr(Value(a), Value(b)) == Value(OrV(a, b))
  {
    hide Num, Or, OrV;
    NumOr(a, b, 32);
  }

  lemma ValueXor(a: bv32, b: bv32)
    ensures BitXor(Value(a), Value(b)) == Value(XorV(a, b))
  {
    hide Num, Xor, XorV;
    NumXor(a, b, 32);
  }

  lemma ChooseV(t: nat, b: bv32, c: bv32, d: bv32)
    requires t < 20
    ensures FV(t, b, c, d) == OrV(AndV(b, c), AndV(NotV(b), d))
  {
    calc {
      OrV(AndV(b, c), AndV(NotV(b), d));
      { assert NotV(b) == !b; }
      OrV(AndV(b, c), AndV(!b, d));
      { assert AndV(b, c) == b & c && AndV(!b, d) == !b & d; }
      OrV(b & c, !b & d);
      (b & c) | (!b & d);
    }
  }

  lemma ParityV(t: nat, b: bv32, c: bv32, d: bv32)
    requires 20 <= t < 40 || 60 <= t
    ensures FV(t, b, c, d) == XorV(XorV(b, c), d)
  {
    calc {
      XorV(XorV(b, c), d);
      XorV(b ^ c, d);
      b ^ c ^ d;
    }
  }

  lemma MajorityV(t: nat, b: bv32, c: bv32, d: bv32)
    requires 40 <= t < 60
    ensures FV(t, b, c, d) == OrV(OrV(AndV(b, c), AndV(b, d)), AndV(c, d))
  {
    calc {
      OrV(OrV(AndV(b, c), AndV(b, d)), AndV(c, d));
      { assert AndV(b, c) == b & c && AndV(b, d) == b & d && AndV(c, d) == c & d; }
      OrV(OrV(b & c, b & d), c & d);
      { assert OrV(b & c, b & d) == (b & c) | (b & d); }
      OrV((b & c) | (b & d), c & d);
      (b & c) | (b & d) | (c & d);
    }
  }

  lemma ValueF(t: nat, b: bv32, c: bv32, d: bv32)
    requires t < 80
    ensures F(t, Value(b), Value(c), Value(d)) == Value(FV(t, b, c, d))
  {
    hide FV, Value, BitAnd, BitOr, BitXor, BitNot, AndV, OrV, XorV, NotV;
    if t < 20 {
      ChooseV(t, b, c, d);
      ValueNot(b);
      ValueAnd(b, c);
      ValueAnd(NotV(b), d);
      ValueOr(AndV(b, c), AndV(NotV(b), d));
    } else if 40 <= t < 60 {
      MajorityV(t, b, c, d);
      ValueAnd(b, c);
      ValueAnd(b, d);
      ValueAnd(c, d);
      ValueOr(AndV(b, c), AndV(b, d));
      ValueOr(OrV(AndV(b, c), AndV(b, d)), AndV(c, d));
    } else {
      ParityV(t, b, c, d);
      ValueXor(b, c);
      ValueXor(XorV(b, c), d);
    }
  }

  lemma ValueK(t: nat)
    requires t < 80
    ensures K(t) == Value(KV(t))
  {
    hide Value;
    ValueOctets(0x5A82_7999);
    ValueOctets(0x6ED9_EBA1);
    ValueOctets(0x8F1B_BCDC);
    ValueOctets(0xCA62_C1D6);
  }

  lemma WrapSum(x: nat, y: nat)
    ensures Wrap32(Wrap32(x) + y) == Wrap32(x + y)
  {
    WrapPlus(x / TWO_32, Wrap32(x) + y);
  }

  lemma FiveTerms(a: bv32, b: bv32, c: bv32, d: bv32, e: bv32)
    ensures Value(Sum(Sum(Sum(Sum(a, b), c), d), e)) == Wrap32(Value(a) + Value(b) + Value(c) + Value(d) + Value(e))
  {
    hide Value, Sum, Wrap32;
    ValueSum(a, b);
    ValueSum(Sum(a, b), c);
    ValueSum(Sum(Sum(a, b), c), d);
    ValueSum(Sum(Sum(Sum(a, b), c), d), e);
    WrapSum(Value(a) + Value(b), Value(c));
    WrapSum(Value(a) + Value(b) + Value(c), Value(d));
    WrapSum(Value(a) + Value(b) + Value(c) + Value(d), Value(e));
  }

  lemma SumsAre(a: bv32, b: bv32, c: bv32, d: bv32, e: bv32)
    ensures Sum(Sum(Sum(Sum(a, b), c), d), e) == AddV(a, b, c, d, e)
  {
    calc {
      Sum(Sum(Sum(Sum(a, b), c), d), e);
      { assert Sum(a, b) == a + b; }
      Sum(Sum(Sum(a + b, c), d), e);
      { assert Sum(a + b, c) == a + b + c; }
      Sum(Sum(a + b + c, d), e);
      { assert Sum(a + b + c, d) == a + b + c + d; }
      Sum(a + b + c + d, e);
      a + b + c + d + e;
    }
  }

  /** One step of section 6.1 of RFC 3174 on bit vectors. */
  lemma ValueRound(r: RegsV, t: nat, w: bv32)
    requires t < 80
    ensures Round(RegsOf(r), t, Value(w)) == RegsOf(RoundV(r, t, w))
  {
    hide Value, F, FV, K, KV, RotL, Rot5, Rot30, Wrap32, Sum, AddV;
    ValueRot5(r.a);
    ValueRot30(r.b);
    ValueF(t, r.b, r.c, r.d);
    ValueK(t);
    FiveTerms(Rot5(r.a), FV(t, r.b, r.c, r.d), r.e, w, KV(t));
    SumsAre(Rot5(r.a), FV(t, r.b, r.c, r.d), r.e, w, KV(t));
  }

  // ----- eight steps at a time -----

  datatype Row = Row(w0: bv32, w1: bv32, w2: bv32, w3: bv32, w4: bv32, w5: bv32, w6: bv32, w7: bv32)

  function Eight(r: RegsV, t: nat, x: Row): RegsV {
    RoundV(RoundV(RoundV(RoundV(RoundV(RoundV(RoundV(RoundV(
      r, t, x.w0), t + 1, x.w1), t + 2, x.w2), t + 3, x.w3), t + 4, x.w4), t + 5, x.w5), t + 6, x.w6), t + 7, x.w7)
  }

  /** Row `k` holds the words 8k to 8k+7 of the message schedule. */
  ghost predicate IsRow(block: seq<byte>, k: nat, x: Row)
    requires |block| == 64 && k < 10
  {
    && W(block, 8 * k) == Value(x.w0) && W(block, 8 * k + 1) == Value(x.w1)
    && W(block, 8 * k + 2) == Value(x.w2) && W(block, 8 * k + 3) == Value(x.w3)
    && W(block, 8 * k + 4) == Value(x.w4) && W(block, 8 * k + 5) == Value(x.w5)
    && W(block, 8 * k + 6) == Value(x.w6) && W(block, 8 * k + 7) == Value(x.w7)
  }

  lemma NextRound(h: Regs, block: seq<byte>, t: nat, r: RegsV, w: bv32)
    requires |block| == 64 && t < 80 && Rounds(h, block, t) == RegsOf(r) && W(block, t) == Value(w)
    ensures Rounds(h, block, t + 1) == RegsOf(RoundV(r, t, w))
  {
    hide Round, RegsOf, RoundV, W, Value;
    ValueRound(r, t, w);
  }

  lemma EightRounds(h: Regs, block: seq<byte>, k: nat, r: RegsV, x: Row)
    requires |block| == 64 && k < 10 && Rounds(h, block, 8 * k) == RegsOf(r) && IsRow(block, k, x)
    ensures Rounds(h, block, 8 * k + 8) == RegsOf(Eight(r, 8 * k, x))
  {
    hide Rounds, RegsOf, RoundV, W, Value;
    var t := 8 * k;
    NextRound(h, block, t, r, x.w0);
    var r1 := RoundV(r, t, x.w0);
    NextRound(h, block, t + 1, r1, x.w1);
    var r2 := RoundV(r1, t + 1, x.w1);
    NextRound(h, block, t + 2, r2, x.w2);
    var r3 := RoundV(r2, t + 2, x.w2);
    NextRound(h, block, t + 3, r3, x.w3);
    var r4 := RoundV(r3, t + 3, x.w3);
    NextRound(h, block, t + 4, r4, x.w4);
    var r5 := RoundV(r4, t + 4, x.w4);
    NextRound(h, block, t + 5, r5, x.w5);
    var r6 := RoundV(r5, t + 5, x.w5);
    NextRound(h, block, t + 6, r6, x.w6);
    var r7 := RoundV(r6, t + 6, x.w6);
    NextRound(h, block, t + 7, r7, x.w7);
  }

  // ----- the message schedule -----

  function MixV(a: bv32, b: bv32, c: bv32, d: bv32): bv32 {
    Rot1(a ^ b ^ c ^ d)
  }

  function NextRow(a: Row, b: Row): Row {
    var c0 := MixV(b.w5, b.w0, a.w2, a.w0);
    var c1 := MixV(b.w6, b.w1, a.w3, a.w1);
    var c2 := MixV(b.w7, b.w2, a.w4, a.w2);
    var c3 := MixV(c0, b.w3, a.w5, a.w3);
    var c4 := MixV(c1, b.w4, a.w6, a.w4);
    var c5 := MixV(c2, b.w5, a.w7, a.w5);
    Row(c0, c1, c2, c3, c4, c5, MixV(c3, b.w6, b.w0, a.w6), MixV(c4, b.w7, b.w1, a.w7))
  }

  lemma XorsAre(a: bv32, b: bv32, c: bv32, d: bv32)
    ensures Rot1(XorV(XorV(XorV(a, b), c), d)) == MixV(a, b, c, d)
  {
    calc {
      Rot1(XorV(XorV(XorV(a, b), c), d));
      { assert XorV(a, b) == a ^ b; }
      Rot1(XorV(XorV(a ^ b, c), d));
      { assert XorV(a ^ b, c) == a ^ b ^ c; }
      Rot1(XorV(a ^ b ^ c, d));
      Rot1(a ^ b ^ c ^ d);
    }
  }

  lemma NextWord(block: seq<byte>, t: nat, a: bv32, b: bv32, c: bv32, d: bv32)
    requires |block| == 64 && 16 <= t < 80
    requires W(block, t - 3) == Value(a) && W(block, t - 8) == Value(b)
    requires W(block, t - 14) == Value(c) && W(block, t - 16) == Value(d)
    ensures W(block, t) == Value(MixV(a, b, c, d))
  {
    hide Value, RotL, Rot1, XorV, BitXor, MixV;
    ValueXor(a, b);
    ValueXor(XorV(a, b), c);
    ValueXor(XorV(XorV(a, b), c), d);
    XorsAre(a, b, c, d);
    ValueRot1(XorV(XorV(XorV(a, b), c), d));
  }

  lemma RowFollows(block: seq<byte>, k: nat, a: Row, b: Row)
    requires |block| == 64 && 2 <= k < 10 && IsRow(block, k - 2, a) && IsRow(block, k - 1, b)
    ensures IsRow(block, k, NextRow(a, b))
  {
    hide W, Value, MixV;
    var t, c := 8 * k, NextRow(a, b);
    NextWord(block, t, b.w5, b.w0, a.w2, a.w0);
    NextWord(block, t + 1, b.w6, b.w1, a.w3, a.w1);
    NextWord(block, t + 2, b.w7, b.w2, a.w4, a.w2);
    NextWord(block, t + 3, c.w0, b.w3, a.w5, a.w3);
    NextWord(block, t + 4, c.w1, b.w4, a.w6, a.w4);
    NextWord(block, t + 5, c.w2, b.w5, a.w7, a.w5);
    NextWord(block, t + 6, c.w3, b.w6, b.w0, a.w6);
    NextWord(block, t + 7, c.w4, b.w7, b.w1, a.w7);
  }
}
