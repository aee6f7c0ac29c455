// The sample handshake of RFC 6455, sections 1.3 and 4.2.2, octet by octet: what the
// definitions of SHA-1, base 64 and the accept string amount to on it.

module SampleAnswer {
  import opened Bits
  import opened Bytes
  import opened BitLaws
  import opened Sha1Spec
  import opened WordBits
  import opened Sha1Words
  import opened Accept
  import Base64

  // ----- octets and words -----

  /** The four octets of a word, most significant first. */
  function OctetsOf(v: bv32): seq<nat> {
    [Octet(v >> 24), Octet(v >> 16), Octet(v >> 8), Octet(v)]
  }

  lemma WordValue(b0: byte, b1: byte, b2: byte, b3: byte, v: bv32)
    requires OctetsOf(v) == [b0, b1, b2, b3]
    ensures WordOf(b0, b1, b2, b3) == Value(v)
  {
    hide Value, WordOf, Octet;
    assert OctetsOf(v)[0] == b0 && OctetsOf(v)[1] == b1 && OctetsOf(v)[2] == b2 && OctetsOf(v)[3] == b3;
    ValueOctets(v);
    WordOfOctets(b0, b1, b2, b3);
  }

  lemma ValueBytes(v: bv32)
    ensures WordBytes(Value(v)) == OctetsOf(v)
  {
    hide Value, Octet, Shr;
    ValueOctets(v);
    ShiftBytes(Value(v));
    FourDigits(Octet(v >> 24), Octet(v >> 16), Octet(v >> 8), Octet(v), Value(v));
  }

  lemma FourDigits(a: nat, b: nat, c: nat, d: nat, n: nat)
    requires a < 256 && b < 256 && c < 256 && d < 256
    requires n == d + 256 * (c + 256 * (b + 256 * a))
    ensures n % 256 == d && n / 0x100 % 256 == c && n / 0x1_0000 % 256 == b && n / 0x100_0000 % 256 == a
  {
    assert n / 0x100 == c + 256 * (b + 256 * a);
    assert n / 0x1_0000 == b + 256 * a;
    assert n / 0x100_0000 == a;
  }

  /** Eight octets of a block hold words `t` and `t + 1`. */
  ghost predicate Holds(block: seq<byte>, t: nat, v: bv32, w: bv32) {
    |block| >= 4 * t + 8 && block[4 * t..4 * t + 8] == OctetsOf(v) + OctetsOf(w)
  }

  lemma EightOctets(s: seq<byte>, o: nat, a: seq<nat>, b: seq<nat>)
    requires o + 8 <= |s| && |a| == |b| == 4 && s[o..o + 8] == a + b
    ensures a == [s[o], s[o + 1], s[o + 2], s[o + 3]] && b == [s[o + 4], s[o + 5], s[o + 6], s[o + 7]]
  {
    var p: seq<nat> := s[o..o + 8];
    assert p[0] == a[0] && p[1] == a[1] && p[2] == a[2] && p[3] == a[3];
    assert p[4] == b[0] && p[5] == b[1] && p[6] == b[2] && p[7] == b[3];
  }

  lemma HeldWords(block: seq<byte>, t: nat, v: bv32, w: bv32)
    requires |block| == 64 && t < 15 && Holds(block, t, v, w)
    ensures W(block, t) == Value(v) && W(block, t + 1) == Value(w)
  {
    hide Value, WordOf, Octet;
    EightOctets(block, 4 * t, OctetsOf(v), OctetsOf(w));
    WordValue(block[4 * t], block[4 * t + 1], block[4 * t + 2], block[4 * t + 3], v);
    WordValue(block[4 * t + 4], block[4 * t + 5], block[4 * t + 6], block[4 * t + 7], w);
  }

  lemma FirstRow(block: seq<byte>, k: nat, x: Row)
    requires |block| == 64 && k < 2
    requires Holds(block, 8 * k, x.w0, x.w1) && Holds(block, 8 * k + 2, x.w2, x.w3)
    requires Holds(block, 8 * k + 4, x.w4, x.w5) && Holds(block, 8 * k + 6, x.w6, x.w7)
    ensures IsRow(block, k, x)
  {
    hide W, Value, Holds;
    HeldWords(block, 8 * k, x.w0, x.w1);
    HeldWords(block, 8 * k + 2, x.w2, x.w3);
    HeldWords(block, 8 * k + 4, x.w4, x.w5);
    HeldWords(block, 8 * k + 6, x.w6, x.w7);
  }

  /** Eight steps, and the next row but one of the schedule. */
  lemma Advance(h: Regs, block: seq<byte>, k: nat, r: RegsV, x: Row, y: Row)
    requires |block| == 64 && k < 10 && Rounds(h, block, 8 * k) == RegsOf(r) && IsRow(block, k, x)
    requires k < 9 ==> IsRow(block, k + 1, y)
    ensures Rounds(h, block, 8 * (k + 1)) == RegsOf(Eight(r, 8 * k, x))
    ensures k < 8 ==> IsRow(block, k + 2, NextRow(x, y))
  {
    hide Rounds, RegsOf, Eight, NextRow, IsRow;
    EightRounds(h, block, k, r, x);
    if k < 8 {
      RowFollows(block, k + 2, x, y);
    }
  }

  function AddRegs(h: RegsV, r: RegsV): RegsV {
    RegsV(Sum(h.a, r.a), Sum(h.b, r.b), Sum(h.c, r.c), Sum(h.d, r.d), Sum(h.e, r.e))
  }

  lemma CompressIs(h: RegsV, block: seq<byte>, r: RegsV)
    requires |block| == 64 && Rounds(RegsOf(h), block, 80) == RegsOf(r)
    ensures Compress(RegsOf(h), block) == RegsOf(AddRegs(h, r))
  {
    hide Value, Wrap32, Rounds, Sum;
    ValueSum(h.a, r.a);
    ValueSum(h.b, r.b);
    ValueSum(h.c, r.c);
    ValueSum(h.d, r.d);
    ValueSum(h.e, r.e);
  }

  // ----- the first block -----

  /** The octets of the block, eight at a time. */
  ghost predicate IsFirstBlock(block: seq<byte>) {
    && |block| == 64
    && block[0..8] == [0x64, 0x47, 0x68, 0x6C, 0x49, 0x48, 0x4E, 0x68]
    && block[8..16] == [0x62, 0x58, 0x42, 0x73, 0x5A, 0x53, 0x42, 0x75]
    && block[16..24] == [0x62, 0x32, 0x35, 0x6A, 0x5A, 0x51, 0x3D, 0x3D]
    && block[24..32] == [0x32, 0x35, 0x38, 0x45, 0x41, 0x46, 0x41, 0x35]
    && block[32..40] == [0x2D, 0x45, 0x39, 0x31, 0x34, 0x2D, 0x34, 0x37]
    && block[40..48] == [0x44, 0x41, 0x2D, 0x39, 0x35, 0x43, 0x41, 0x2D]
    && block[48..56] == [0x43, 0x35, 0x41, 0x42, 0x30, 0x44, 0x43, 0x38]
    && block[56..64] == [0x35, 0x42, 0x31, 0x31, 0x80, 0x00, 0x00, 0x00]
  }

  function FirstRow0(): Row {
    Row(0x6447_686C, 0x4948_4E68, 0x6258_4273, 0x5A53_4275,
        0x6232_356A, 0x5A51_3D3D, 0x3235_3845, 0x4146_4135)
  }

  function FirstRow1(): Row {
    Row(0x2D45_3931, 0x342D_3437, 0x4441_2D39, 0x3543_412D,
        0x4335_4142, 0x3044_4338, 0x3542_3131, 0x8000_0000)
  }

  function FirstRow2(): Row {
    Row(0x363C_A02C, 0x24E8_1236, 0x8856_B441, 0x06FB_3C92,
        0x6FB4_BCB6, 0x460B_16E3, 0x5992_19AE, 0x35BF_9369)
  }

  function FirstRow3(): Row {
    Row(0x3267_458E, 0xF828_FD04, 0x753A_96A7, 0x6336_F612,
        0xC3D6_6383, 0x06EB_86F9, 0x73B4_FD42, 0xA503_C5B8)
  }

  function FirstRow4(): Row {
    Row(0x15CD_AE35, 0x531E_5DC5, 0x6FB6_B7D0, 0x6C16_E4AC,
        0x4DDD_36BD, 0x35D3_6946, 0xE8AE_8B9C, 0x4A93_3AD0)
  }

  function FirstRow5(): Row {
    Row(0xCE86_28B4, 0x415D_BA9E, 0x2792_F049, 0x8E9B_79E7,
        0x79C4_25C5, 0x6353_B49D, 0x0099_4218, 0x8A95_0ED1)
  }

  function FirstRow6(): Row {
    Row(0xAF5D_0B99, 0xFD98_83DE, 0x1ED8_FFEB, 0xF007_FF28,
        0x425E_3674, 0x0596_31C0, 0xAD6C_3C31, 0x860B_71D7)
  }

  function FirstRow7(): Row {
    Row(0x87BF_C548, 0x3E64_F92D, 0x8D0A_B761, 0x34E1_EE35,
        0x0ACF_5108, 0xC2B4_79DA, 0x6C93_370A, 0xF793_5BA1)
  }

  function FirstRow8(): Row {
    Row(0xE91C_91C1, 0xBED1_65A2, 0x4C3E_4ABE, 0x50D9_6238,
        0xB658_7DDE, 0x1A2E_E6E6, 0x2D33_5896, 0xF349_5D0B)
  }

  function FirstRow9(): Row {
    Row(0xF30E_0A1D, 0x32CE_5459, 0x7165_E3B8, 0xAB05_FF94,
        0xC594_9F0B, 0xBCD8_4E4A, 0x0772_0392, 0xFF3F_F806)
  }

  function FirstRegs0(): RegsV {
    RegsV(0x6745_2301, 0xEFCD_AB89, 0x98BA_DCFE, 0x1032_5476, 0xC3D2_E1F0)
  }

  function FirstRegs1(): RegsV {
    RegsV(0x2E0C_E601, 0x7355_3E84, 0x5CC8_2E5A, 0xB763_1F04, 0x14F8_0E6B)
  }

  function FirstRegs2(): RegsV {
    RegsV(0xA004_C468, 0xE922_CC9D, 0xAB86_825B, 0xD86F_6CAF, 0x8D33_AE61)
  }

  function FirstRegs3(): RegsV {
    RegsV(0x250E_26EF, 0xBEAF_D554, 0xB44B_C2D5, 0xD461_1C28, 0x0246_AE5F)
  }

  function FirstRegs4(): RegsV {
    RegsV(0xA668_0A1F, 0xB7DA_BC8B, 0x4206_D8F9, 0xC6AE_C70D, 0x95C7_DF60)
  }

  function FirstRegs5(): RegsV {
    RegsV(0x2BA2_C83E, 0xD086_9081, 0x1A1D_8209, 0xD333_4889, 0x2779_E4F2)
  }

  function FirstRegs6(): RegsV {
    RegsV(0xABE1_748A, 0xDEE4_B7A8, 0x5CBF_CCD3, 0x97D7_CD14, 0xDB71_A8F5)
  }

  function FirstRegs7(): RegsV {
    RegsV(0x7E12_42F2, 0x50C9_104C, 0x1318_22B1, 0x49B1_A4E5, 0x4439_FD9C)
  }

  function FirstRegs8(): RegsV {
    RegsV(0x685E_2FF6, 0x8400_54D3, 0xE43C_0363, 0x3350_802E, 0x921C_B616)
  }

  function FirstRegs9(): RegsV {
    RegsV(0x7E65_E044, 0x80D5_9773, 0x81CE_06DF, 0xA59B_8126, 0x33E1_963B)
  }

  function FirstRegs10(): RegsV {
    RegsV(0xF48A_5426, 0x8359_95E1, 0x25C1_1EFB, 0x4A45_C402, 0x9A73_C2F2)
  }

  lemma FirstRows(block: seq<byte>)
    requires IsFirstBlock(block)
    ensures IsRow(block, 0, FirstRow0()) && IsRow(block, 1, FirstRow1())
  {
    FirstRowAt0(block);
    FirstRowAt1(block);
  }

  lemma FirstRowAt0(block: seq<byte>)
    requires IsFirstBlock(block)
    ensures IsRow(block, 0, FirstRow0())
  {
    hide IsRow;
    assert Holds(block, 0, FirstRow0().w0, FirstRow0().w1);
    assert Holds(block, 2, FirstRow0().w2, FirstRow0().w3);
    assert Holds(block, 4, FirstRow0().w4, FirstRow0().w5);
    assert Holds(block, 6, FirstRow0().w6, FirstRow0().w7);
    FirstRow(block, 0, FirstRow0());
  }

  lemma FirstRowAt1(block: seq<byte>)
    requires IsFirstBlock(block)
    ensures IsRow(block, 1, FirstRow1())
  {
    hide IsRow;
    assert Holds(block, 8, FirstRow1().w0, FirstRow1().w1);
    assert Holds(block, 10, FirstRow1().w2, FirstRow1().w3);
    assert Holds(block, 12, FirstRow1().w4, FirstRow1().w5);
    assert Holds(block, 14, FirstRow1().w6, FirstRow1().w7);
    FirstRow(block, 1, FirstRow1());
  }

  lemma FirstStep0()
    ensures Eight(FirstRegs0(), 0, FirstRow0()) == FirstRegs1()
    ensures NextRow(FirstRow0(), FirstRow1()) == FirstRow2()
  {
  }

  lemma FirstStep1()
    ensures Eight(FirstRegs1(), 8, FirstRow1()) == FirstRegs2()
    ensures NextRow(FirstRow1(), FirstRow2()) == FirstRow3()
  {
  }

  lemma FirstStep2()
    ensures Eight(FirstRegs2(), 16, FirstRow2()) == FirstRegs3()
    ensures NextRow(FirstRow2(), FirstRow3()) == FirstRow4()
  {
  }

  lemma FirstStep3()
    ensures Eight(FirstRegs3(), 24, FirstRow3()) == FirstRegs4()
    ensures NextRow(FirstRow3(), FirstRow4()) == FirstRow5()
  {
  }

  lemma FirstStep4()
    ensures Eight(FirstRegs4(), 32, FirstRow4()) == FirstRegs5()
    ensures NextRow(FirstRow4(), FirstRow5()) == FirstRow6()
  {
  }

  lemma FirstStep5()
    ensures Eight(FirstRegs5(), 40, FirstRow5()) == FirstRegs6()
    ensures NextRow(FirstRow5(), FirstRow6()) == FirstRow7()
  {
  }

  lemma FirstStep6()
    ensures Eight(FirstRegs6(), 48, FirstRow6()) == FirstRegs7()
    ensures NextRow(FirstRow6(), FirstRow7()) == FirstRow8()
  {
  }

  lemma FirstStep7()
    ensures Eight(FirstRegs7(), 56, FirstRow7()) == FirstRegs8()
    ensures NextRow(FirstRow7(), FirstRow8()) == FirstRow9()
  {
  }

  lemma FirstStep8()
    ensures Eight(FirstRegs8(), 64, FirstRow8()) == FirstRegs9()
  {
  }

  lemma FirstStep9()
    ensures Eight(FirstRegs9(), 72, FirstRow9()) == FirstRegs10()
  {
  }

  /** What 40 of the 80 steps give. */
  ghost predicate Halfway(block: seq<byte>, h: RegsV, r: RegsV, x: Row, y: Row)
    requires |block| == 64
  {
    Rounds(RegsOf(h), block, 40) == RegsOf(r) && IsRow(block, 5, x) && IsRow(block, 6, y)
  }

  lemma FirstHalf(block: seq<byte>)
    requires |block| == 64 && IsFirstBlock(block)
    ensures Halfway(block, FirstRegs0(), FirstRegs5(), FirstRow5(), FirstRow6())
  {
    hide Rounds, RegsOf, IsRow, Eight, NextRow, IsFirstBlock;
    hide FirstRow0, FirstRow1, FirstRow2, FirstRow3, FirstRow4, FirstRow5, FirstRow6;
    hide FirstRegs0, FirstRegs1, FirstRegs2, FirstRegs3, FirstRegs4, FirstRegs5;
    var h := RegsOf(FirstRegs0());
    FirstRows(block);
    NoRounds(h, block);
    Advance(h, block, 0, FirstRegs0(), FirstRow0(), FirstRow1());
    FirstStep0();
    Advance(h, block, 1, FirstRegs1(), FirstRow1(), FirstRow2());
    FirstStep1();
    Advance(h, block, 2, FirstRegs2(), FirstRow2(), FirstRow3());
    FirstStep2();
    Advance(h, block, 3, FirstRegs3(), FirstRow3(), FirstRow4());
    FirstStep3();
    Advance(h, block, 4, FirstRegs4(), FirstRow4(), FirstRow5());
    FirstStep4();
  }

  lemma FirstCompress(block: seq<byte>)
    requires |block| == 64 && IsFirstBlock(block)
    ensures Rounds(RegsOf(FirstRegs0()), block, 80) == RegsOf(FirstRegs10())
  {
    hide Rounds, RegsOf, IsRow, Eight, NextRow, IsFirstBlock;
    hide FirstRegs0;
    hide FirstRow5, FirstRow6, FirstRow7, FirstRow8, FirstRow9;
    hide FirstRegs5, FirstRegs6, FirstRegs7, FirstRegs8, FirstRegs9, FirstRegs10;
    var h := RegsOf(FirstRegs0());
    FirstHalf(block);
    Advance(h, block, 5, FirstRegs5(), FirstRow5(), FirstRow6());
    FirstStep5();
    Advance(h, block, 6, FirstRegs6(), FirstRow6(), FirstRow7());
    FirstStep6();
    Advance(h, block, 7, FirstRegs7(), FirstRow7(), FirstRow8());
    FirstStep7();
    Advance(h, block, 8, FirstRegs8(), FirstRow8(), FirstRow9());
    FirstStep8();
    Advance(h, block, 9, FirstRegs9(), FirstRow9(), FirstRow9());
    FirstStep9();
  }

  // ----- the second block -----

  /** The octets of the block, eight at a time. */
  ghost predicate IsSecondBlock(block: seq<byte>) {
    && |block| == 64
    && block[0..8] == [0x00, 0x00, 0x00, 0x00, 0x00, 0x00, 0x00, 0x00]
    && block[8..16] == [0x00, 0x00, 0x00, 0x00, 0x00, 0x00, 0x00, 0x00]
    && block[16..24] == [0x00, 0x00, 0x00, 0x00, 0x00, 0x00, 0x00, 0x00]
    && block[24..32] == [0x00, 0x00, 0x00, 0x00, 0x00, 0x00, 0x00, 0x00]
    && block[32..40] == [0x00, 0x00, 0x00, 0x00, 0x00, 0x00, 0x00, 0x00]
    && block[40..48] == [0x00, 0x00, 0x00, 0x00, 0x00, 0x00, 0x00, 0x00]
    && block[48..56] == [0x00, 0x00, 0x00, 0x00, 0x00, 0x00, 0x00, 0x00]
    && block[56..64] == [0x00, 0x00, 0x00, 0x00, 0x00, 0x00, 0x01, 0xE0]
  }

  function SecondRow0(): Row {
    Row(0x0000_0000, 0x0000_0000, 0x0000_0000, 0x0000_0000,
        0x0000_0000, 0x0000_0000, 0x0000_0000, 0x0000_0000)
  }

  function SecondRow1(): Row {
    Row(0x0000_0000, 0x0000_0000, 0x0000_0000, 0x0000_0000,
        0x0000_0000, 0x0000_0000, 0x0000_0000, 0x0000_01E0)
  }

  function SecondRow2(): Row {
    Row(0x0000_0000, 0x0000_0000, 0x0000_03C0, 0x0000_0000,
        0x0000_0000, 0x0000_0780, 0x0000_0000, 0x0000_03C0)
  }

  function SecondRow3(): Row {
    Row(0x0000_0F00, 0x0000_0000, 0x0000_0000, 0x0000_1E00,
        0x0000_0000, 0x0000_0CC0, 0x0000_3C00, 0x0000_0440)
  }

  function SecondRow4(): Row {
    Row(0x0000_0000, 0x0000_7800, 0x0000_0F00, 0x0000_3300,
        0x0000_F000, 0x0000_0F00, 0x0000_0000, 0x0001_EF00)
  }

  function SecondRow5(): Row {
    Row(0x0000_0000, 0x0000_CC00, 0x0003_C000, 0x0000_4380,
        0x0000_0000, 0x0007_8F00, 0x0000_FF00, 0x0003_2680)
  }

  function SecondRow6(): Row {
    Row(0x000F_0000, 0x0000_F000, 0x0000_3300, 0x001E_FF00,
        0x0000_0000, 0x000C_B800, 0x003C_0000, 0x0004_0B00)
  }

  function SecondRow7(): Row {
    Row(0x0000_F000, 0x0078_FF00, 0x000F_F000, 0x0033_8700,
        0x00F0_0000, 0x000F_C300, 0x0000_F000, 0x01EF_BB00)
  }

  function SecondRow8(): Row {
    Row(0x0000_0000, 0x00CC_0000, 0x03C0_F000, 0x0043_8000,
        0x0000_0000, 0x078F_0000, 0x00FF_0000, 0x0326_9E00)
  }

  function SecondRow9(): Row {
    Row(0x0F00_0000, 0x00F0_F000, 0x0033_3C00, 0x1EFF_8800,
        0x0000_0000, 0x0CB8_8800, 0x3C00_F000, 0x040A_4A00)
  }

  function SecondRegs0(): RegsV {
    RegsV(0x5BCF_7727, 0x7327_416A, 0xBE7B_FBF9, 0x5A78_1878, 0x5E46_A4E2)
  }

  function SecondRegs1(): RegsV {
    RegsV(0x25C0_18BE, 0xB3BB_CAFE, 0xE4E9_7BEE, 0xB90F_74BC, 0xC561_5548)
  }

  function SecondRegs2(): RegsV {
    RegsV(0x986D_F268, 0x990B_7BE7, 0xAB50_FCE7, 0x195D_B4B7, 0x4941_806B)
  }

  function SecondRegs3(): RegsV {
    RegsV(0x53C7_3650, 0x3E51_79E7, 0x103E_F3E6, 0xC48C_56CA, 0x4A80_22D4)
  }

  function SecondRegs4(): RegsV {
    RegsV(0x3CF6_EB58, 0xF4DD_D7B7, 0xC90F_B815, 0xBD5F_2D4F, 0xE4C9_F7DB)
  }

  function SecondRegs5(): RegsV {
    RegsV(0x6F69_8F1A, 0xC6FF_0CD3, 0xDE5A_B7BC, 0x5F6F_3CBB, 0x1DA4_8A85)
  }

  function SecondRegs6(): RegsV {
    RegsV(0xA3EF_857E, 0xC8CD_A3DA, 0xCEF6_480E, 0xFF1E_F4D7, 0xC7A4_D2B3)
  }

  function SecondRegs7(): RegsV {
    RegsV(0xA1B6_8141, 0x660D_D0B1, 0x0B1C_EF5E, 0xE795_018D, 0xD7F8_A8F6)
  }

  function SecondRegs8(): RegsV {
    RegsV(0xA593_7450, 0xD5EF_1ED7, 0xC444_CBE3, 0xDDD2_2788, 0x5584_67C6)
  }

  function SecondRegs9(): RegsV {
    RegsV(0xC908_88CA, 0xF6D1_AFEE, 0x6FCE_9FE5, 0x538D_8F6E, 0x025E_9447)
  }

  function SecondRegs10(): RegsV {
    RegsV(0x57AA_D805, 0x4D3B_0DAC, 0xD27A_4A0D, 0x74C0_40CD, 0x5478_2008)
  }

  lemma SecondRows(block: seq<byte>)
    requires IsSecondBlock(block)
    ensures IsRow(block, 0, SecondRow0()) && IsRow(block, 1, SecondRow1())
  {
    SecondRowAt0(block);
    SecondRowAt1(block);
  }

  lemma SecondRowAt0(block: seq<byte>)
    requires IsSecondBlock(block)
    ensures IsRow(block, 0, SecondRow0())
  {
    hide IsRow;
    assert Holds(block, 0, SecondRow0().w0, SecondRow0().w1);
    assert Holds(block, 2, SecondRow0().w2, SecondRow0().w3);
    assert Holds(block, 4, SecondRow0().w4, SecondRow0().w5);
    assert Holds(block, 6, SecondRow0().w6, SecondRow0().w7);
    FirstRow(block, 0, SecondRow0());
  }

  lemma SecondRowAt1(block: seq<byte>)
    requires IsSecondBlock(block)
    ensures IsRow(block, 1, SecondRow1())
  {
    hide IsRow;
    assert Holds(block, 8, SecondRow1().w0, SecondRow1().w1);
    assert Holds(block, 10, SecondRow1().w2, SecondRow1().w3);
    assert Holds(block, 12, SecondRow1().w4, SecondRow1().w5);
    assert Holds(block, 14, SecondRow1().w6, SecondRow1().w7);
    FirstRow(block, 1, SecondRow1());
  }

  lemma SecondStep0()
    ensures Eight(SecondRegs0(), 0, SecondRow0()) == SecondRegs1()
    ensures NextRow(SecondRow0(), SecondRow1()) == SecondRow2()
  {
  }

  lemma SecondStep1()
    ensures Eight(SecondRegs1(), 8, SecondRow1()) == SecondRegs2()
    ensures NextRow(SecondRow1(), SecondRow2()) == SecondRow3()
  {
  }

  lemma SecondStep2()
    ensures Eight(SecondRegs2(), 16, SecondRow2()) == SecondRegs3()
    ensures NextRow(SecondRow2(), SecondRow3()) == SecondRow4()
  {
  }

  lemma SecondStep3()
    ensures Eight(SecondRegs3(), 24, SecondRow3()) == SecondRegs4()
    ensures NextRow(SecondRow3(), SecondRow4()) == SecondRow5()
  {
  }

  lemma SecondStep4()
    ensures Eight(SecondRegs4(), 32, SecondRow4()) == SecondRegs5()
    ensures NextRow(SecondRow4(), SecondRow5()) == SecondRow6()
  {
  }

  lemma SecondStep5()
    ensures Eight(SecondRegs5(), 40, SecondRow5()) == SecondRegs6()
    ensures NextRow(SecondRow5(), SecondRow6()) == SecondRow7()
  {
  }

  lemma SecondStep6()
    ensures Eight(SecondRegs6(), 48, SecondRow6()) == SecondRegs7()
    ensures NextRow(SecondRow6(), SecondRow7()) == SecondRow8()
  {
  }

  lemma SecondStep7()
    ensures Eight(SecondRegs7(), 56, SecondRow7()) == SecondRegs8()
    ensures NextRow(SecondRow7(), SecondRow8()) == SecondRow9()
  {
  }

  lemma SecondStep8()
    ensures Eight(SecondRegs8(), 64, SecondRow8()) == SecondRegs9()
  {
  }

  lemma SecondStep9()
    ensures Eight(SecondRegs9(), 72, SecondRow9()) == SecondRegs10()
  {
  }

  lemma SecondHalf(block: seq<byte>)
    requires |block| == 64 && IsSecondBlock(block)
    ensures Halfway(block, SecondRegs0(), SecondRegs5(), SecondRow5(), SecondRow6())
  {
    hide Rounds, RegsOf, IsRow, Eight, NextRow, IsSecondBlock;
    hide SecondRow0, SecondRow1, SecondRow2, SecondRow3, SecondRow4, SecondRow5, SecondRow6;
    hide SecondRegs0, SecondRegs1, SecondRegs2, SecondRegs3, SecondRegs4, SecondRegs5;
    var h := RegsOf(SecondRegs0());
    SecondRows(block);
    NoRounds(h, block);
    Advance(h, block, 0, SecondRegs0(), SecondRow0(), SecondRow1());
    SecondStep0();
    Advance(h, block, 1, SecondRegs1(), SecondRow1(), SecondRow2());
    SecondStep1();
    Advance(h, block, 2, SecondRegs2(), SecondRow2(), SecondRow3());
    SecondStep2();
    Advance(h, block, 3, SecondRegs3(), SecondRow3(), SecondRow4());
    SecondStep3();
    Advance(h, block, 4, SecondRegs4(), SecondRow4(), SecondRow5());
    SecondStep4();
  }

  lemma SecondCompress(block: seq<byte>)
    requires |block| == 64 && IsSecondBlock(block)
    ensures Rounds(RegsOf(SecondRegs0()), block, 80) == RegsOf(SecondRegs10())
  {
    hide Rounds, RegsOf, IsRow, Eight, NextRow, IsSecondBlock;
    hide SecondRegs0;
    hide SecondRow5, SecondRow6, SecondRow7, SecondRow8, SecondRow9;
    hide SecondRegs5, SecondRegs6, SecondRegs7, SecondRegs8, SecondRegs9, SecondRegs10;
    var h := RegsOf(SecondRegs0());
    SecondHalf(block);
    Advance(h, block, 5, SecondRegs5(), SecondRow5(), SecondRow6());
    SecondStep5();
    Advance(h, block, 6, SecondRegs6(), SecondRow6(), SecondRow7());
    SecondStep6();
    Advance(h, block, 7, SecondRegs7(), SecondRow7(), SecondRow8());
    SecondStep7();
    Advance(h, block, 8, SecondRegs8(), SecondRow8(), SecondRow9());
    SecondStep8();
    Advance(h, block, 9, SecondRegs9(), SecondRow9(), SecondRow9());
    SecondStep9();
  }

  lemma NoRounds(h: Regs, block: seq<byte>)
    requires |block| == 64
    ensures Rounds(h, block, 8 * 0) == h
  {
  }

  // ----- the message -----

  const SAMPLE_KEY := "dGhlIHNhbXBsZSBub25jZQ=="

  lemma KeyOctets()
    ensures Ascii(SAMPLE_KEY)[0..8] == [0x64, 0x47, 0x68, 0x6C, 0x49, 0x48, 0x4E, 0x68]
    ensures Ascii(SAMPLE_KEY)[8..16] == [0x62, 0x58, 0x42, 0x73, 0x5A, 0x53, 0x42, 0x75]
    ensures Ascii(SAMPLE_KEY)[16..24] == [0x62, 0x32, 0x35, 0x6A, 0x5A, 0x51, 0x3D, 0x3D]
  {
  }

  /** The GUID of RFC 6455, section 1.3. */
  lemma GuidOctets()
    ensures Guid()[0..8] == [0x32, 0x35, 0x38, 0x45, 0x41, 0x46, 0x41, 0x35]
    ensures Guid()[8..16] == [0x2D, 0x45, 0x39, 0x31, 0x34, 0x2D, 0x34, 0x37]
    ensures Guid()[16..24] == [0x44, 0x41, 0x2D, 0x39, 0x35, 0x43, 0x41, 0x2D]
    ensures Guid()[24..32] == [0x43, 0x35, 0x41, 0x42, 0x30, 0x44, 0x43, 0x38]
    ensures Guid()[32..36] == [0x35, 0x42, 0x31, 0x31]
  {
    hide Ascii;
    var a, b := Ascii("258EAFA5-E914-47DA-"), Ascii("95CA-C5AB0DC85B11");
    GuidStart(a);
    GuidEnd(b);
    assert Guid()[0..8] == a[0..8] && Guid()[8..16] == a[8..16];
    assert Guid()[16..24] == a[16..19] + b[0..5];
    assert Guid()[24..32] == b[5..13] && Guid()[32..36] == b[13..17];
  }

  lemma GuidStart(a: seq<byte>)
    requires a == Ascii("258EAFA5-E914-47DA-")
    ensures a[0..8] == [0x32, 0x35, 0x38, 0x45, 0x41, 0x46, 0x41, 0x35]
    ensures a[8..16] == [0x2D, 0x45, 0x39, 0x31, 0x34, 0x2D, 0x34, 0x37]
    ensures a[16..19] == [0x44, 0x41, 0x2D]
  {
  }

  lemma GuidEnd(b: seq<byte>)
    requires b == Ascii("95CA-C5AB0DC85B11")
    ensures b[0..5] == [0x39, 0x35, 0x43, 0x41, 0x2D]
    ensures b[5..13] == [0x43, 0x35, 0x41, 0x42, 0x30, 0x44, 0x43, 0x38]
    ensures b[13..17] == [0x35, 0x42, 0x31, 0x31]
  {
  }

  /** The padded message: 60 octets, 0x80, 59 zeros and the length of 480 bits. */
  lemma PaddedSample(m: seq<byte>)
    requires m == Ascii(SAMPLE_KEY) + Guid()
    ensures |m| == 60 && |Pad(m)| == 128
    ensures IsFirstBlock(Pad(m)[..64]) && IsSecondBlock(Pad(m)[64..])
  {
    hide Ascii, Guid, ToBE;
    var s := Pad(m);
    KeyOctets();
    GuidOctets();
    LengthOf480();
    assert |m| == 60 && s == m + [0x80] + Zeros(59) + ToBE(480, 8);
    assert forall i :: 0 <= i < 60 ==> s[i] == m[i];
    assert forall i :: 61 <= i < 120 ==> s[i] == 0;
    FirstOctets(m, s);
    LastOctets(s);
  }

  lemma LengthOf480()
    ensures ToBE(480, 8) == [0, 0, 0, 0, 0, 0, 1, 0xE0]
  {
    ToBE4(480);
    ToBETwoWords(0, 480);
    ToBE4(0);
  }

  lemma FirstOctets(m: seq<byte>, s: seq<byte>)
    requires m == Ascii(SAMPLE_KEY) + Guid() && |m| == 60 && |s| == 128 && s[..60] == m
    requires s[60] == 0x80 && s[61] == s[62] == s[63] == 0
    ensures IsFirstBlock(s[..64])
  {
    KeyOctets();
    GuidOctets();
    hide Ascii, Guid;
    var k, g := Ascii(SAMPLE_KEY), Guid();
    assert s[0..24] == m[0..24] == k && s[24..60] == m[24..60] == g;
    Part(s, 0, k, 0);
    Part(s, 0, k, 8);
    Part(s, 0, k, 16);
    Part(s, 24, g, 0);
    Part(s, 24, g, 8);
    Part(s, 24, g, 16);
    Part(s, 24, g, 24);
    LastPart(s, g);
  }

  lemma Part(s: seq<byte>, o: nat, g: seq<byte>, i: nat)
    requires |s| == 128 && o + |g| <= 60 && s[o..o + |g|] == g && i + 8 <= |g|
    ensures s[..64][o + i..o + i + 8] == g[i..i + 8]
  {
    SliceOfSlice(s, 0, 64, o + i, o + i + 8);
    SliceOfSlice(s, o, o + |g|, i, i + 8);
    assert s[0..64] == s[..64];
  }

  lemma SliceOfSlice(s: seq<byte>, a: nat, b: nat, i: nat, j: nat)
    requires a <= b <= |s| && i <= j <= b - a
    ensures s[a..b][i..j] == s[a + i..a + j]
  {
    var x, y := s[a..b][i..j], s[a + i..a + j];
    forall k | 0 <= k < |x|
      ensures x[k] == y[k]
    {
      assert x[k] == s[a..b][i + k];
    }
  }

  lemma LastPart(s: seq<byte>, g: seq<byte>)
    requires |s| == 128 && |g| == 36 && s[24..60] == g && s[60] == 0x80 && s[61] == s[62] == s[63] == 0
    ensures s[..64][56..64] == g[32..36] + [0x80, 0, 0, 0]
  {
    assert s[56..60] == s[24..60][32..36];
    assert s[..64][56..64] == s[56..60] + s[60..64];
  }

  lemma LastOctets(s: seq<byte>)
    requires |s| == 128 && (forall i :: 64 <= i < 120 ==> s[i] == 0) && s[120..] == [0, 0, 0, 0, 0, 0, 1, 0xE0]
    ensures IsSecondBlock(s[64..])
  {
    var b := s[64..];
    assert forall i :: 0 <= i < 56 ==> b[i] == s[64 + i];
    assert b[56..64] == s[120..];
  }

  lemma InitialValue()
    ensures H0 == RegsOf(FirstRegs0())
  {
    hide Value;
    var r := FirstRegs0();
    InitialWords(r);
    LastInitialWords(r);
  }

  lemma InitialWords(r: RegsV)
    requires r == FirstRegs0()
    ensures Value(r.a) == 0x6745_2301 && Value(r.b) == 0xEFCD_AB89 && Value(r.c) == 0x98BA_DCFE
  {
    hide Value;
    ValueOctets(r.a);
    ValueOctets(r.b);
    ValueOctets(r.c);
  }

  lemma LastInitialWords(r: RegsV)
    requires r == FirstRegs0()
    ensures Value(r.d) == 0x1032_5476 && Value(r.e) == 0xC3D2_E1F0
  {
    hide Value;
    ValueOctets(r.d);
    ValueOctets(r.e);
  }

  function FinalRegs(): RegsV {
    RegsV(0xB37A_4F2C, 0xC062_4F16, 0x90F6_4606, 0xCF38_5945, 0xB2BE_C4EA)
  }

  lemma Additions()
    ensures AddRegs(FirstRegs0(), FirstRegs10()) == SecondRegs0()
    ensures AddRegs(SecondRegs0(), SecondRegs10()) == FinalRegs()
  {
  }

  lemma HashOfSample(m: seq<byte>)
    requires m == Ascii(SAMPLE_KEY) + Guid()
    ensures |Pad(m)| == 128 && HashBlocks(Pad(m)) == RegsOf(FinalRegs())
  {
    hide Ascii, Guid, Pad, Compress, Rounds, RegsOf, IsFirstBlock, IsSecondBlock, AddRegs;
    hide FirstRegs0, FirstRegs10, SecondRegs0, SecondRegs10, FinalRegs;
    PaddedSample(m);
    var s := Pad(m);
    var b1, b2 := s[..64], s[64..];
    InitialValue();
    Additions();
    FirstCompress(b1);
    CompressIs(FirstRegs0(), b1, FirstRegs10());
    SecondCompress(b2);
    CompressIs(SecondRegs0(), b2, SecondRegs10());
    TwoBlocks(s);
  }

  lemma TwoBlocks(s: seq<byte>)
    requires |s| == 128
    ensures HashBlocks(s) == Compress(Compress(H0, s[..64]), s[64..])
  {
    hide Compress;
    var b := s[..64];
    assert b[..0] == [] && b[0..] == b;
    assert HashBlocks(b) == Compress(HashBlocks([]), b);
  }

  /** The digest of RFC 6455, section 1.3. */
  lemma SampleDigest()
    ensures Sha1Spec.Sha1(Ascii(SAMPLE_KEY) + Guid()) ==
            [0xB3, 0x7A, 0x4F, 0x2C, 0xC0, 0x62, 0x4F, 0x16, 0x90, 0xF6,
             0x46, 0x06, 0xCF, 0x38, 0x59, 0x45, 0xB2, 0xBE, 0xC4, 0xEA]
  {
    hide Ascii, Guid, Pad, HashBlocks, Value, WordBytes;
    HashOfSample(Ascii(SAMPLE_KEY) + Guid());
    var r := FinalRegs();
    ValueBytes(r.a);
    ValueBytes(r.b);
    ValueBytes(r.c);
    ValueBytes(r.d);
    ValueBytes(r.e);
    FinalOctets();
  }

  lemma FinalOctets()
    ensures OctetsOf(FinalRegs().a) == [0xB3, 0x7A, 0x4F, 0x2C]
    ensures OctetsOf(FinalRegs().b) == [0xC0, 0x62, 0x4F, 0x16]
    ensures OctetsOf(FinalRegs().c) == [0x90, 0xF6, 0x46, 0x06]
    ensures OctetsOf(FinalRegs().d) == [0xCF, 0x38, 0x59, 0x45]
    ensures OctetsOf(FinalRegs().e) == [0xB2, 0xBE, 0xC4, 0xEA]
  {
  }

  // ----- base 64 -----

  lemma GroupChars(data: seq<byte>, text: string)
    requires |data| >= 3 && Base64.Chars(Base64.Group(data[0], data[1], data[2])) == Ascii(text)
    ensures Base64.Encode(data) == Ascii(text) + Base64.Encode(data[3..])
  {
    hide Base64.Encode, Base64.Group, Base64.Chars;
    Base64.EncodeStep(data);
  }

  lemma GroupOf(b0: byte, b1: byte, b2: byte, text: string)
    requires |text| == 4
    requires text[0] as int == Base64.Alphabet(b0 / 4) && text[1] as int == Base64.Alphabet(b0 % 4 * 16 + b1 / 16)
    requires text[2] as int == Base64.Alphabet(b1 % 16 * 4 + b2 / 64) && text[3] as int == Base64.Alphabet(b2 % 64)
    ensures Base64.Chars(Base64.Group(b0, b1, b2)) == Ascii(text)
  {
    hide Base64.Alphabet;
    Base64.GroupBits(b0, b1, b2);
  }

  lemma SampleGroups()
    ensures Base64.Chars(Base64.Group(0xB3, 0x7A, 0x4F)) == Ascii("s3pP")
    ensures Base64.Chars(Base64.Group(0x2C, 0xC0, 0x62)) == Ascii("LMBi")
    ensures Base64.Chars(Base64.Group(0x4F, 0x16, 0x90)) == Ascii("TxaQ")
    ensures Base64.Chars(Base64.Group(0xF6, 0x46, 0x06)) == Ascii("9kYG")
    ensures Base64.Chars(Base64.Group(0xCF, 0x38, 0x59)) == Ascii("zzhZ")
    ensures Base64.Chars(Base64.Group(0x45, 0xB2, 0xBE)) == Ascii("RbK+")
  {
    GroupOf(0xB3, 0x7A, 0x4F, "s3pP");
    GroupOf(0x2C, 0xC0, 0x62, "LMBi");
    GroupOf(0x4F, 0x16, 0x90, "TxaQ");
    GroupOf(0xF6, 0x46, 0x06, "9kYG");
    GroupOf(0xCF, 0x38, 0x59, "zzhZ");
    GroupOf(0x45, 0xB2, 0xBE, "RbK+");
  }

  lemma SampleTail(data: seq<byte>)
    requires data == [0xC4, 0xEA]
    ensures Base64.Encode(data) == Ascii("xOo=")
  {
    Base64.GroupBits(data[0], data[1], 0);
  }

  lemma SampleText(data: seq<byte>)
    requires data == [0xB3, 0x7A, 0x4F, 0x2C, 0xC0, 0x62, 0x4F, 0x16, 0x90, 0xF6,
                      0x46, 0x06, 0xCF, 0x38, 0x59, 0x45, 0xB2, 0xBE, 0xC4, 0xEA]
    ensures Base64.Encode(data) ==
            Ascii("s3pP") + (
            Ascii("LMBi") + (
            Ascii("TxaQ") + (
            Ascii("9kYG") + (
            Ascii("zzhZ") + (
            Ascii("RbK+") + (Ascii("xOo=")))))))
  {
    hide Base64.Encode, Base64.Group, Base64.Chars, Ascii;
    SampleGroups();
    GroupChars(data, "s3pP");
    GroupChars(data[3..], "LMBi");
    GroupChars(data[6..], "TxaQ");
    GroupChars(data[9..], "9kYG");
    GroupChars(data[12..], "zzhZ");
    GroupChars(data[15..], "RbK+");
    SampleTail(data[18..]);
  }

  /** The sample of RFC 6455, section 1.3: the key is answered with the accept string given there. */
  lemma SampleAccept()
    ensures AcceptKey(Ascii("dGhlIHNhbXBsZSBub25jZQ==")) == Ascii("s3pPLMBiTxaQ9kYGzzhZRbK+xOo=")
  {
    hide Sha1Spec.Sha1, Base64.Encode, Guid;
    SampleDigest();
    SampleText(Sha1Spec.Sha1(Ascii(SAMPLE_KEY) + Guid()));
  }

  /** And so the whole answer to it is this. */
  lemma SampleResponse()
    ensures AnswerText(AcceptKey(Ascii("dGhlIHNhbXBsZSBub25jZQ=="))) ==
            Ascii("HTTP/1.1 101 Switching Protocols") + [0x0D, 0x0A]
            + Ascii("Upgrade: websocket") + [0x0D, 0x0A]
            + Ascii("Connection: Upgrade") + [0x0D, 0x0A]
            + Ascii("Sec-WebSocket-Accept: ") + Ascii("s3pPLMBiTxaQ9kYGzzhZRbK+xOo=") + [0x0D, 0x0A, 0x0D, 0x0A]
  {
    hide AcceptKey;
    SampleAccept();
    StatusLine();
  }

  lemma StatusLine()
    ensures STATUS == Ascii("HTTP/1.1 101 Switching Protocols") + [0x0D, 0x0A]
  {
    assert Ascii("HTTP/1.1 101 Switching") + Ascii(" Protocols") == Ascii("HTTP/1.1 101 Switching Protocols");
  }
}
