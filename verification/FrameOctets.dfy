// Frames octet by octet, as the figure of RFC 6455 section 5.2 lays them out.

module FrameOctets {
  import opened Bytes
  import opened BitLaws
  import opened Ws
  import Protocol

  /** The second octet of an unmasked frame and the extended length. */
  function LengthOctets(n: nat): seq<byte>
    requires n < 0x8000_0000_0000_0000
  {
    if n < 126 then [n]
    else if n < 65536 then [126, n / 256, n % 256]
    else [127, n / 0x100_0000_0000_0000, n / 0x1_0000_0000_0000 % 256, n / 0x100_0000_0000 % 256, n / 0x1_0000_0000 % 256,
          n / 0x100_0000 % 256, n / 0x1_0000 % 256, n / 0x100 % 256, n % 256]
  }

  lemma ToBE8(n: nat)
    requires n < 0x8000_0000_0000_0000
    ensures ToBE(n, 8) == [n / 0x100_0000_0000_0000, n / 0x1_0000_0000_0000 % 256, n / 0x100_0000_0000 % 256,
                           n / 0x1_0000_0000 % 256, n / 0x100_0000 % 256, n / 0x1_0000 % 256, n / 0x100 % 256, n % 256]
  {
    hide ToBE;
    var high, low := n / TWO_32, n % TWO_32;
    ToBETwoWords(high, low);
    ToBE4(high);
    ToBE4(low);
    HighDigits(n, high, low);
  }

  lemma HighDigits(n: nat, high: nat, low: nat)
    requires n < 0x8000_0000_0000_0000 && low < 0x1_0000_0000 && n == 0x1_0000_0000 * high + low
    ensures high / 0x100_0000 % 256 == n / 0x100_0000_0000_0000 && high / 0x1_0000 % 256 == n / 0x1_0000_0000_0000 % 256
    ensures high / 0x100 % 256 == n / 0x100_0000_0000 % 256 && high % 256 == n / 0x1_0000_0000 % 256
    ensures low / 0x100_0000 % 256 == n / 0x100_0000 % 256 && low / 0x1_0000 % 256 == n / 0x1_0000 % 256
    ensures low / 0x100 % 256 == n / 0x100 % 256 && low % 256 == n % 256
  {
    HighQuotients(n, high, low);
    LowRemainders(n, high, low);
  }

  lemma HighQuotients(n: nat, high: nat, low: nat)
    requires low < 0x1_0000_0000 && n == 0x1_0000_0000 * high + low
    ensures n / 0x1_0000_0000 == high && n / 0x100_0000_0000 == high / 0x100
    ensures n / 0x1_0000_0000_0000 == high / 0x1_0000 && n / 0x100_0000_0000_0000 == high / 0x100_0000
  {
  }

  lemma LowRemainders(n: nat, high: nat, low: nat)
    requires low < 0x1_0000_0000 && n == 0x1_0000_0000 * high + low
    ensures low / 0x100_0000 % 256 == n / 0x100_0000 % 256 && low / 0x1_0000 % 256 == n / 0x1_0000 % 256
    ensures low / 0x100 % 256 == n / 0x100 % 256 && low % 256 == n % 256
  {
    assert n / 0x100_0000 == 256 * high + low / 0x100_0000;
    assert n / 0x1_0000 == 256 * (256 * high) + low / 0x1_0000;
    assert n / 0x100 == 256 * (0x1_0000 * high) + low / 0x100;
    assert n == 256 * (0x100_0000 * high) + low;
    LowOctet(high, low / 0x100_0000);
    LowOctet(256 * high, low / 0x1_0000);
    LowOctet(0x1_0000 * high, low / 0x100);
    LowOctet(0x100_0000 * high, low);
  }

  lemma LowOctet(a: nat, b: nat)
    ensures (256 * a + b) % 256 == b % 256
  {
    DivStep(a, b);
  }

  /** The unmasked frame that is sent: FIN, RSV and opcode, the length, and the payload. */
  lemma SentOctets(flags: uint16, opcode: byte, payload: seq<byte>)
    requires |payload| < 0x8000_0000_0000_0000
    ensures Frame(Outgoing(flags, opcode, payload))
         == [flags / 4096 * 16 + opcode % 16] + LengthOctets(|payload|) + payload
  {
    hide ToBE;
    var n := |payload|;
    if 126 <= n < 65536 {
      TwoOctets(n);
    } else if n >= 65536 {
      ToBE8(n);
    }
  }

  lemma TwoOctets(n: nat)
    requires n < 65536
    ensures ToBE(n, 2) == [n / 256, n % 256]
  {
    assert ToBE(n / 256, 1) == ToBE(n / 65536, 0) + [n / 256 % 256];
  }

  /** A broadcast message is a final text frame. */
  lemma BroadcastOctets(m: Protocol.Text)
    ensures |CString(m)| < 0x8000_0000_0000_0000
    ensures Protocol.TextFrame(m) == [0x81] + LengthOctets(|CString(m)|) + CString(m)
  {
    hide LengthOctets, Frame, CString;
    Protocol.CStringShorter(m);
    SentOctets(WS_FLAG_FINAL, WS_OP_TEXT, CString(m));
  }

  /** The payload that masking with a key gives, bit by bit. */
  ghost predicate Unmasked(payload: seq<byte>, wire: seq<byte>, key: seq<byte>)
    requires |key| == 4
  {
    && |payload| == |wire|
    && forall i, j: nat :: 0 <= i < |wire| && j < 8 ==>
         (Bit(payload[i], j) == 1 <==> Bit(wire[i], j) != Bit(key[i % 4], j))
  }

  lemma MaskedBits(wire: seq<byte>, key: seq<byte>)
    requires |key| == 4
    ensures Unmasked(Masked(wire, Some(key)), wire, key)
  {
    hide Bit, XorByte;
    var p := Masked(wire, Some(key));
    forall i, j: nat | 0 <= i < |wire| && j < 8
      ensures Bit(p[i], j) == 1 <==> Bit(wire[i], j) != Bit(key[i % 4], j)
    {
      XorByteBit(wire[i], key[i % 4], j);
    }
  }

  /** What is received of an unmasked frame written out in octets. */
  lemma ReceivedOctets(b0: byte, p: seq<byte>, rest: seq<byte>)
    requires |p| < 0x8000_0000
    ensures Parse([b0] + LengthOctets(|p|) + p + rest)
         == Some(Received(b0 % 16, b0 as int * 256, p, 1 + |LengthOctets(|p|)| + |p|))
  {
    hide Parse, LengthOctets;
    var top, opcode, flags: uint16 := b0 / 16, b0 % 16, b0 / 16 * 4096;
    SentOctets(flags, opcode, p);
    assert flags / 4096 == top && opcode % 16 == opcode;
    assert top * 16 + opcode == b0;
    ParseOfFrame(Outgoing(flags, opcode, p), rest);
  }

  /** What is received of a masked frame with a payload of up to 125 octets. */
  lemma ReceivedMaskedShort(b0: byte, key: seq<byte>, w: seq<byte>, rest: seq<byte>)
    requires |key| == 4 && |w| < 126
    ensures var r := Parse([b0, 128 + |w|] + key + w + rest);
            && r.Some? && r.value.opcode == b0 % 16 && r.value.size == 6 + |w| && Unmasked(r.value.payload, w, key)
  {
    hide Masked, Unmasked;
    var s := [b0, 128 + |w|] + key + w + rest;
    assert s[2..6] == key && s[6..6 + |w|] == w && s[2..2] == [];
    MaskedBits(w, key);
  }

  /** With a 16-bit length. */
  lemma ReceivedMasked16(b0: byte, hi: byte, lo: byte, key: seq<byte>, w: seq<byte>, rest: seq<byte>)
    requires |key| == 4 && |w| == 256 * hi + lo
    ensures var r := Parse([b0, 254, hi, lo] + key + w + rest);
            && r.Some? && r.value.opcode == b0 % 16 && r.value.size == 8 + |w| && Unmasked(r.value.payload, w, key)
  {
    hide Masked, Unmasked, FromBE;
    var s := [b0, 254, hi, lo] + key + w + rest;
    assert s[2..4] == [hi, lo] && s[4..8] == key && s[8..8 + |w|] == w;
    TwoOctetValue(hi, lo);
    MaskedBits(w, key);
  }

  lemma TwoOctetValue(hi: byte, lo: byte)
    ensures FromBE([hi, lo]) == 256 * hi + lo
  {
    var s := [hi, lo];
    assert s[..1] == [hi] && [hi][..0] == [];
    assert FromBE([hi]) == FromBE([]) * 256 + hi;
  }

  /** With a 64-bit length below 2^31. */
  lemma ReceivedMasked64(b0: byte, length: seq<byte>, key: seq<byte>, w: seq<byte>, rest: seq<byte>)
    requires |key| == 4 && 65536 <= |w| < 0x8000_0000 && [127] + length == LengthOctets(|w|)
    ensures var r := Parse([b0, 255] + length + key + w + rest);
            && r.Some? && r.value.opcode == b0 % 16 && r.value.size == 14 + |w| && Unmasked(r.value.payload, w, key)
  {
    hide Masked, Unmasked, FromBE, ToBE, LengthOctets;
    var s := [b0, 255] + length + key + w + rest;
    LongLength(length, |w|);
    assert s[2..10] == length && s[10..14] == key && s[14..14 + |w|] == w;
    Powers256();
    FromToBE(|w|, 8);
    MaskedBits(w, key);
  }

  lemma LongLength(length: seq<byte>, n: nat)
    requires 65536 <= n < 0x8000_0000 && [127] + length == LengthOctets(n)
    ensures |length| == 8 && length == ToBE(n, 8)
  {
    hide ToBE;
    ToBE8(n);
    assert length == LengthOctets(n)[1..];
  }
}
