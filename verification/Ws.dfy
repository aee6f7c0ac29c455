// WebSocket frames: the printer and the parser of src/ws.c against the base
// framing protocol of RFC 6455 section 5.2.

module Ws {
  import opened Bits
  import opened Bytes
  import opened ByteOrder
  import opened SocketExt

  const PAYLOAD_LENGTH_16 := 126
  const PAYLOAD_LENGTH_64 := 127
  const WS_FLAG_FINAL: uint16 := 0x8000
  const WS_FLAG_MASK: uint16 := 0x80
  const WS_OP_TEXT: byte := 1
  /** From this length on the size of an unmasked frame does not fit an int. */
  const MAX_PAYLOAD := TWO_31 - 10

  // ----- RFC 6455 section 5.2 -----

  type nibble = x: int | 0 <= x < 16

  /** How the payload length is written: in 7 bits, or in 16 or 64 further bits. */
  datatype LengthForm = Len7 | Len16 | Len64

  /** A frame: FIN and RSV bits, opcode, masking key if any, length form, application data. */
  datatype FrameData = FrameData(top: nibble, opcode: nibble, key: Option<seq<byte>>, form: LengthForm,
                                 payload: seq<byte>)

  predicate WellFormed(f: FrameData) {
    && (f.key.Some? ==> |f.key.value| == 4)
    && match f.form
       case Len7 => |f.payload| < PAYLOAD_LENGTH_16
       case Len16 => |f.payload| < TWO_16
       case Len64 => |f.payload| < TWO_64 / 2
  }

  /** The shortest form for a length, as section 5.2 asks for. */
  function MinimalForm(n: nat): LengthForm {
    if n < PAYLOAD_LENGTH_16 then Len7 else if n < TWO_16 then Len16 else Len64
  }

  function LengthCode(form: LengthForm, n: nat): byte {
    match form
    case Len7 => n % 128
    case Len16 => PAYLOAD_LENGTH_16
    case Len64 => PAYLOAD_LENGTH_64
  }

  function ExtendedLength(form: LengthForm, n: nat): seq<byte> {
    match form
    case Len7 => []
    case Len16 => ToBE(n, 2)
    case Len64 => ToBE(n, 8)
  }

  /** The masking of section 5.3: octet i is combined with octet i mod 4 of the key. */
  function Masked(payload: seq<byte>, key: Option<seq<byte>>): (r: seq<byte>)
    requires key.Some? ==> |key.value| == 4
    ensures |r| == |payload|
  {
    if key.None? then payload
    else seq(|payload|, i requires 0 <= i < |payload| => XorByte(payload[i], key.value[i % 4]))
  }

  function Header(f: FrameData): seq<byte> {
    [f.top * 16 + f.opcode, (if f.key.Some? then 128 else 0) + LengthCode(f.form, |f.payload|)]
    + ExtendedLength(f.form, |f.payload|)
    + (if f.key.Some? then f.key.value else [])
  }

  /** The octets of a frame. */
  function Frame(f: FrameData): seq<byte>
    requires WellFormed(f)
  {
    Header(f) + Masked(f.payload, f.key)
  }

  lemma MaskTwice(payload: seq<byte>, key: Option<seq<byte>>)
    requires key.Some? ==> |key.value| == 4
    ensures Masked(Masked(payload, key), key) == payload
  {
    if key.Some? {
      var m := Masked(payload, key);
      forall i | 0 <= i < |payload|
        ensures Masked(m, key)[i] == payload[i]
      {
        XorByteTwice(payload[i], key.value[i % 4]);
      }
    }
  }

  // ----- what ws_recv reads from a stream -----

  datatype Received = Received(opcode: byte, flags: uint16, payload: seq<byte>, size: nat)

  /** Size in octets of the extended length announced by the second octet of a frame. */
  function ExtendedSize(b1: byte): nat {
    if b1 % 128 == PAYLOAD_LENGTH_16 then 2 else if b1 % 128 == PAYLOAD_LENGTH_64 then 8 else 0
  }

  /** The payload length `ws_recv` works with: only 31 bits of a 64-bit length. */
  function PayloadLength(b1: byte, ext: seq<byte>): nat
    requires |ext| == ExtendedSize(b1)
  {
    if |ext| == 0 then b1 % 128 else if |ext| == 2 then FromBE(ext) else FromBE(ext) % TWO_31
  }

  function HeaderSize(b1: byte): nat {
    2 + ExtendedSize(b1) + (if b1 >= 128 then 4 else 0)
  }

  /** The frame at the start of `s` as `ws_recv` sees it, if it is complete. */
  function Parse(s: seq<byte>): Option<Received> {
    if |s| < 2 || |s| < HeaderSize(s[1]) then None
    else
      var e := ExtendedSize(s[1]);
      var n := PayloadLength(s[1], s[2..2 + e]);
      var h := HeaderSize(s[1]);
      if |s| < h + n then None
      else
        var key := if s[1] >= 128 then Some(s[2 + e..h]) else None;
        Some(Received(s[0] % 16, s[0] as int * 256, Masked(s[h..h + n], key), h + n))
  }

  lemma LengthRoundTrip(form: LengthForm, n: nat)
    requires match form case Len7 => n < PAYLOAD_LENGTH_16 case Len16 => n < TWO_16 case Len64 => n < TWO_64 / 2
    ensures var c, e := LengthCode(form, n), ExtendedLength(form, n);
      c < 128 && |e| == ExtendedSize(c) == ExtendedSize(128 + c)
      && PayloadLength(c, e) == PayloadLength(128 + c, e) == if form.Len64? then n % TWO_31 else n
  {
    hide FromBE, ToBE, Pow256;
    Powers256();
    if form.Len16? {
      FromToBE(n, 2);
    } else if form.Len64? {
      FromToBE(n, 8);
    }
  }

  /** What the receiver makes of any well-formed frame at the head of a stream. */
  lemma ParseOfFrame(f: FrameData, rest: seq<byte>)
    requires WellFormed(f)
    requires f.form.Len64? ==> |f.payload| < TWO_31
    ensures Parse(Frame(f) + rest)
         == Some(Received(f.opcode, (f.top * 16 + f.opcode) * 256, f.payload, |Frame(f)|))
  {
    hide Masked, ExtendedLength, LengthCode, PayloadLength, ExtendedSize;
    var n, s := |f.payload|, Frame(f) + rest;
    LengthRoundTrip(f.form, n);
    var e := ExtendedLength(f.form, n);
    var h := |Header(f)|;
    assert s[2..2 + |e|] == e;
    assert h == HeaderSize(s[1]);
    assert s[h..h + n] == Masked(f.payload, f.key);
    assert f.key.Some? ==> s[2 + |e|..h] == f.key.value;
    MaskTwice(f.payload, f.key);
  }

  /**
   * A frame is read back exactly when it does not announce 2^31 octets or more
   * in the 64-bit form: the receiver keeps 31 of the 63 length bits.
   */
  lemma ReadBackIffLengthFits(f: FrameData, rest: seq<byte>)
    requires WellFormed(f)
    ensures Parse(Frame(f) + rest) == Some(Received(f.opcode, (f.top * 16 + f.opcode) * 256, f.payload, |Frame(f)|))
        <==> (f.form.Len64? ==> |f.payload| < TWO_31)
  {
    if f.form.Len64? && |f.payload| >= TWO_31 {
      hide Masked, ExtendedLength, LengthCode, PayloadLength, ExtendedSize;
      var n, s := |f.payload|, Frame(f) + rest;
      LengthRoundTrip(f.form, n);
      var e := ExtendedLength(f.form, n);
      assert s[2..2 + |e|] == e;
      assert PayloadLength(s[1], e) == n % TWO_31 < n;
    } else {
      ParseOfFrame(f, rest);
    }
  }

  // ----- sending -----

  /** `memcpy` into a buffer. */
  method CopyInto(data: array<byte>, offset: nat, s: seq<byte>)
    requires offset + |s| <= data.Length
    modifies data
    ensures data[..offset + |s|] == old(data[..offset]) + s
  {
    forall i | 0 <= i < |s| {
      data[offset + i] := s[i];
    }
  }

  /** `(flags & 0xF080) | ((opcode & 0x0F) << 8) | (payload_len_high & 0x7F)`. */
  function HeaderWord(flags: uint16, opcode: byte, lengthHigh: byte): nat {
    Or(Or(And(flags, 0xF080), Shl(And(opcode, 0x0F), 8)), And(lengthHigh, 0x7F))
  }

  lemma MaskValues()
    ensures Pow2(4) == 16 && Pow2(7) == 128
  {
  }

  lemma AndMasks(x: nat)
    ensures And(x, 0x0F) == x % 16
    ensures And(x, 0x7F) == x % 128
  {
    hide And, Low, Shl, Shr;
    MaskValues();
    AndMask(x, 4);
    AndMask(x, 7);
    Low4(x);
    Low7(x);
  }

  lemma AndHighNibble(x: byte)
    ensures And(x, 0xF0) == x / 16 * 16
    ensures And(x, 0x80) == x / 128 * 128
  {
    hide And, Shr, Shl, Low;
    AndSplit(x, 0xF0, 4);
    Low4(x);
    Low4(0xF0);
    AndMasks(x / 16);
    AndZero(x % 16);
    Low4(x / 16);
    AndSplit(x, 0x80, 7);
    Low7(x);
    Low7(0x80);
    AndOne(x / 128);
    AndZero(x % 128);
    Low7(x / 128);
  }

  lemma AndZero(x: nat)
    ensures And(x, 0) == 0
  {
  }

  lemma AndOne(x: nat)
    requires x < 2
    ensures And(x, 1) == x
  {
  }

  lemma OrZero(x: nat)
    ensures Or(x, 0) == x
  {
  }

  lemma FlagOctets(flags: uint16)
    ensures var hi, lo := flags / 256, flags % 256;
      flags == 256 * hi + lo && hi / 16 == flags / 4096 && lo / 128 == flags / 128 % 2
  {
  }

  lemma FlagAndOpcodeBits(hi: byte, lo: byte, opcode: byte)
    ensures Or(And(256 * hi + lo, 0xF080), Shl(And(opcode, 0x0F), 8))
         == 256 * (hi / 16 * 16 + opcode % 16) + lo / 128 * 128
  {
    hide And, Or, Shr, Shl, Low;
    var f, m := hi / 16 * 16, lo / 128 * 128;
    AndOrOctets(hi, lo, 0xF0, 0x80);
    AndHighNibble(hi);
    AndHighNibble(lo);
    AndMasks(opcode);
    Low8(opcode % 16);
    AndOrOctets(f, m, opcode % 16, 0);
    OrZero(m);
    Low4(hi / 16);
    MaskValues();
    OrDisjoint(hi / 16, opcode % 16, 4);
  }

  /** The two octets of the frame header in terms of its fields. */
  lemma HeaderWordFields(flags: uint16, opcode: byte, n: byte)
    ensures HeaderWord(flags, opcode, n)
         == (flags / 4096 * 16 + opcode % 16) * 256 + (flags / 128 % 2 * 128 + n % 128)
  {
    hide And, Or, Shr, Shl, Low;
    var hi, lo := flags / 256, flags % 256;
    FlagOctets(flags);
    FlagAndOpcodeBits(hi, lo, opcode);
    var top := hi / 16 * 16 + opcode % 16;
    AndMasks(n);
    AndOrOctets(top, lo / 128 * 128, 0, n % 128);
    OrZero(top);
    MaskValues();
    Low7(lo / 128);
    OrDisjoint(lo / 128, n % 128, 7);
  }

  /** `header & 0x0F00) >> 8`, `& 0x80`, `& 0x7F` and `& 0xFF00` on a received header. */
  lemma ReceivedHeaderFields(b0: byte, b1: byte)
    ensures var header := b0 as int * 256 + b1;
      && Shr(And(header, 0x0F00), 8) == b0 % 16
      && (And(header, WS_FLAG_MASK) != 0 <==> b1 >= 128)
      && And(header, 0x7F) == b1 % 128
      && And(header, 0xFF00) == b0 as int * 256
  {
    hide And, Or, Shr, Shl, Low;
    AndOrOctets(b0, b1, 0x0F, 0);
    AndOrOctets(b0, b1, 0, 0x80);
    AndOrOctets(b0, b1, 0, 0x7F);
    AndOrOctets(b0, b1, 0xFF, 0);
    AndMasks(b0);
    AndMasks(b1);
    AndZero(b0);
    AndZero(b1);
    AndHighNibble(b1);
    And255(b0);
    Low8(b0 % 16 * 256);
  }

  lemma And255(x: byte)
    ensures And(x, 0xFF) == x
  {
    hide And, Low;
    PowerOfEight();
    AndMask(x, 8);
    Low8(x);
  }

  /** `& 0x7FFFFFFF` keeps 31 bits. */
  lemma And31(x: nat)
    ensures And(x, 0x7FFF_FFFF) == x % TWO_31
  {
    hide And, Low, Shl, Shr;
    assert Pow2(31) == TWO_31 by {
      PowerOfEight();
    }
    AndMask(x, 31);
    Low31(x);
  }

  lemma Low31(x: nat)
    ensures Low(x, 31) == x % TWO_31
  {
    hide Low, Shl, Shr;
    var y, z := x / 256, x / 256 / 256;
    LowPlus(x, 8, 23);
    LowPlus(y, 8, 15);
    LowPlus(z, 8, 7);
    Low8(x);
    Low8(y);
    Low8(z);
    Low7(z / 256);
    Low8(z / 256 % 128);
    Low8(Low(z, 15));
    Low8(Low(y, 23));
    DivMod31(x);
  }

  lemma DivMod31(x: nat)
    ensures x % TWO_31 == x % 256 + 256 * (x / 256 % 256 + 256 * (x / 256 / 256 % 256 + 256 * (x / 256 / 256 / 256 % 128)))
  {
    assert x % 0x8000_0000 == x % 256 + 256 * (x / 256 % 0x80_0000);
    DivMod23(x / 256);
  }

  lemma DivMod23(x: nat)
    ensures x % 0x80_0000 == x % 256 + 256 * (x / 256 % 256 + 256 * (x / 256 / 256 % 128))
  {
    assert x % 0x80_0000 == x % 256 + 256 * (x / 256 % 0x8000);
    DivMod15(x / 256);
  }

  lemma DivMod15(x: nat)
    ensures x % 0x8000 == x % 256 + 256 * (x / 256 % 128)
  {
  }

  /** The frame `ws_alloc_frame` is asked for; its flags carry FIN and RSV in the top four bits. */
  function Outgoing(flags: uint16, opcode: byte, payload: seq<byte>): (f: FrameData)
    ensures |payload| < TWO_64 / 2 ==> WellFormed(f)
  {
    FrameData(flags / 4096, opcode % 16, None, MinimalForm(|payload|), payload)
  }

  predicate Masking(flags: uint16) {
    flags / 128 % 2 == 1
  }

  /** The two header octets: FIN, RSV and opcode; mask bit and 7-bit length. */
  function HeaderOctets(flags: uint16, opcode: byte, n: nat): (r: seq<byte>)
    ensures |r| == 2
  {
    [flags / 4096 * 16 + opcode % 16, flags / 128 % 2 * 128 + LengthCode(MinimalForm(n), n)]
  }

  /** The octets that `ws_alloc_frame` writes, in order. */
  function Written(flags: uint16, opcode: byte, maskingKey: uint32, payload: seq<byte>): seq<byte> {
    HeaderOctets(flags, opcode, |payload|)
    + ExtendedLength(MinimalForm(|payload|), |payload|)
    + (if Masking(flags) then ToBE(maskingKey % TWO_16, 2) else [])
    + payload
  }

  /**
   * A buffer that `ws_alloc_frame` returns. Masking is unfinished in the source: four octets
   * are reserved for the key but two are written, the payload follows unmasked, and the last
   * two octets of the buffer keep whatever they held.
   */
  predicate Allocated(frame: seq<byte>, flags: uint16, opcode: byte, maskingKey: uint32, payload: seq<byte>) {
    var w := Written(flags, opcode, maskingKey, payload);
    |frame| == |w| + (if Masking(flags) then 2 else 0) && frame[..|w|] == w
  }

  /** Without the mask flag this is the frame of RFC 6455. */
  lemma AllocatedUnmasked(frame: seq<byte>, flags: uint16, opcode: byte, maskingKey: uint32, payload: seq<byte>)
    requires |payload| < TWO_64 / 2 && !Masking(flags)
    ensures Allocated(frame, flags, opcode, maskingKey, payload) <==> frame == Frame(Outgoing(flags, opcode, payload))
  {
    hide ExtendedLength, LengthCode;
    var f := Outgoing(flags, opcode, payload);
    assert Written(flags, opcode, maskingKey, payload) == Frame(f);
  }

  /** `ws_alloc_frame` */
  method AllocFrame(host: Host, flags: uint16, opcode: byte, maskingKey: uint32, payload: seq<byte>)
    returns (data: array<byte>)
    requires |payload| < TWO_64 / 2
    ensures fresh(data) && Allocated(data[..], flags, opcode, maskingKey, payload)
  {
    hide ToBE, HeaderOctets, ExtendedLength, And;
    var payloadLenHigh, payloadExtLenSize := LengthFields(|payload|);
    var masked := And(flags, WS_FLAG_MASK) != 0;
    MaskBit(flags);
    ExtendedSizes(|payload|);
    var frameSize := 2 + payloadExtLenSize + (if masked then 4 else 0) + |payload|;
    data := new byte[frameSize];
    WriteHeader(host, data, flags, opcode, |payload|);
    WriteLength(host, data, |payload|);
    var offset := 2 + payloadExtLenSize;
    if masked {
      WriteKey(host, data, offset, maskingKey);
      offset := offset + 2;
    }
    CopyInto(data, offset, payload);
  }

  /** The part of `ws_alloc_frame` that writes the header word. */
  method WriteHeader(host: Host, data: array<byte>, flags: uint16, opcode: byte, n: nat)
    requires data.Length >= 2
    modifies data
    ensures data[..2] == HeaderOctets(flags, opcode, n)
  {
    hide ToBE, HeaderWord, Store;
    var high := LengthCode(MinimalForm(n), n);
    var word := HeaderWord(flags, opcode, high);
    HeaderWordOctets(flags, opcode, n);
    NetworkOrder16(host, word);
    CopyInto(data, 0, Store(host, Htons(host, word), 2));
  }

  /** The part of `ws_alloc_frame` that writes the extended length. */
  method WriteLength(host: Host, data: array<byte>, n: nat)
    requires n < TWO_64 / 2 && data.Length >= 2 + |ExtendedLength(MinimalForm(n), n)|
    modifies data
    ensures var e := ExtendedLength(MinimalForm(n), n);
            data[..2 + |e|] == old(data[..2]) + e
  {
    hide ToBE, Store;
    if n < PAYLOAD_LENGTH_16 {
      return;
    }
    if n < TWO_16 {
      NetworkOrder16(host, n);
      CopyInto(data, 2, Store(host, Htons(host, n), 2));
    } else {
      NetworkOrder64(host, n);
      CopyInto(data, 2, Store(host, Htonll(host, n), 8));
    }
  }

  /** The part of `ws_alloc_frame` that writes half of the masking key. */
  method WriteKey(host: Host, data: array<byte>, offset: nat, maskingKey: uint32)
    requires offset + 2 <= data.Length
    modifies data
    ensures data[..offset + 2] == old(data[..offset]) + ToBE(maskingKey % TWO_16, 2)
  {
    hide ToBE, Store;
    NetworkOrder16(host, maskingKey % TWO_16);
    CopyInto(data, offset, Store(host, Htons(host, maskingKey % TWO_16), 2));
  }

  /** Chooses the length form: the 7-bit field and the size of the extended length. */
  method LengthFields(n: nat) returns (high: byte, extSize: nat)
    ensures high == LengthCode(MinimalForm(n), n)
    ensures extSize == match MinimalForm(n) case Len7 => 0 case Len16 => 2 case Len64 => 8
  {
    if n < PAYLOAD_LENGTH_16 {
      high, extSize := n, 0;
    } else if n <= 0xFFFF {
      high, extSize := PAYLOAD_LENGTH_16, 2;
    } else {
      high, extSize := PAYLOAD_LENGTH_64, 8;
    }
  }

  lemma ExtendedSizes(n: nat)
    ensures |ExtendedLength(MinimalForm(n), n)| == match MinimalForm(n) case Len7 => 0 case Len16 => 2 case Len64 => 8
  {
  }

  lemma HeaderWordOctets(flags: uint16, opcode: byte, n: nat)
    ensures var word := HeaderWord(flags, opcode, LengthCode(MinimalForm(n), n));
            word < TWO_16 && ToBE(word, 2) == HeaderOctets(flags, opcode, n)
  {
    hide ToBE, HeaderWord;
    var high := LengthCode(MinimalForm(n), n);
    HeaderWordFields(flags, opcode, high);
    ToBE2(HeaderWord(flags, opcode, high));
  }

  lemma MaskBit(flags: uint16)
    ensures And(flags, WS_FLAG_MASK) != 0 <==> flags / 128 % 2 == 1
  {
    hide And;
    var hi, lo := flags / 256, flags % 256;
    FlagOctets(flags);
    AndOrOctets(hi, lo, 0, 0x80);
    AndZero(hi);
    AndHighNibble(lo);
  }

  /** A `size_t` converted to `int`. */
  function CastInt(x: nat): int {
    var low := x % TWO_32;
    if low < TWO_31 then low else low - TWO_32
  }

  /** `r` reports truthfully how much of `frame` was appended to the stream. */
  ghost predicate Delivered(before: seq<byte>, after: seq<byte>, frame: seq<byte>, r: int) {
    if r >= 0 then r == |frame| && after == before + frame
    else exists k: nat :: k < |frame| && after == before + frame[..k]
  }

  /** The number of octets `send_n` is asked for: none when the converted size is negative. */
  function Requested(size: nat): (r: nat)
    ensures r <= size
  {
    if CastInt(size) > 0 then CastInt(size) else 0
  }

  /** A size survives the conversion to `int` exactly below 2^31. */
  lemma SizeSurvives(size: nat)
    ensures Requested(size) == size <==> size < TWO_31
  {
  }

  lemma LowFlags(flags: uint32)
    ensures flags % TWO_16 / 128 % 2 == flags / 128 % 2
  {
    var q, low := flags / TWO_16, flags % TWO_16;
    Div128(512 * q, low);
    EvenPlus(256 * q, low / 128);
  }

  lemma Div128(a: nat, low: nat)
    ensures (128 * a + low) / 128 == a + low / 128
  {
  }

  lemma EvenPlus(a: nat, b: nat)
    ensures (2 * a + b) % 2 == b % 2
  {
  }

  /** The outcome of sending `frame`: without an error the octets asked for are on the wire, with one fewer of them. */
  ghost predicate SentAs(before: seq<byte>, after: seq<byte>, frame: seq<byte>, r: int) {
    if r >= 0 then r == Requested(|frame|) && after == before + frame[..r]
    else exists k: nat :: k < Requested(|frame|) && after == before + frame[..k]
  }

  /** A success means that the whole frame is on the wire exactly when the frame is shorter than 2^31 octets. */
  lemma DeliveredIffFits(before: seq<byte>, after: seq<byte>, frame: seq<byte>, r: int)
    requires SentAs(before, after, frame, r)
    ensures Delivered(before, after, frame, r) <==> r < 0 || |frame| < TWO_31
  {
    SizeSurvives(|frame|);
    assert frame[..|frame|] == frame;
  }

  /** `ws_send`; without the mask flag the frame sent is that of RFC 6455. */
  method Send(host: Host, sock: Socket, opcode: int, data: seq<byte>, flags: uint32, maskingKey: uint32)
    returns (r: int)
    requires |data| < TWO_64 / 2 && opcode >= 0
    modifies sock`output
    ensures sock.reliable ==> r >= 0
    ensures exists frame :: Allocated(frame, flags % TWO_16, opcode % 256, maskingKey, data)
                            && SentAs(old(sock.output), sock.output, frame, r)
    ensures flags / 128 % 2 == 0 ==>
              SentAs(old(sock.output), sock.output, Frame(Outgoing(flags % TWO_16, opcode % 256, data)), r)
  {
    hide Allocated, Frame, Outgoing, CastInt;
    var buffer := AllocFrame(host, flags % TWO_16, opcode % 256, maskingKey, data);
    LowFlags(flags);
    var frame := buffer[..];
    CastBounds(|frame|);
    r := sock.SendN(frame, CastInt(|frame|));
    if flags / 128 % 2 == 0 {
      AllocatedUnmasked(frame, flags % TWO_16, opcode % 256, maskingKey, data);
    }
  }

  lemma CastBounds(size: nat)
    ensures CastInt(size) <= size && Requested(size) == if CastInt(size) > 0 then CastInt(size) else 0
  {
  }

  /** `ws_send_text`; `text` is the buffer the pointer leads to, up to its end. */
  method SendText(host: Host, sock: Socket, text: seq<byte>, flags: uint16, maskingKey: uint32) returns (r: int)
    requires |CString(text)| < TWO_64 / 2
    modifies sock`output
    ensures sock.reliable ==> r >= 0
    ensures exists frame :: Allocated(frame, flags, WS_OP_TEXT, maskingKey, CString(text))
                            && SentAs(old(sock.output), sock.output, frame, r)
    ensures flags / 128 % 2 == 0 ==>
              SentAs(old(sock.output), sock.output, Frame(Outgoing(flags, WS_OP_TEXT, CString(text))), r)
  {
    hide Frame, Outgoing, SentAs, CString, Allocated;
    assert flags % TWO_16 == flags;
    r := Send(host, sock, WS_OP_TEXT, CString(text), flags, maskingKey);
  }

  // ----- receiving -----

  /** `s` is what remains of `whole` after some octets were taken from its front. */
  ghost predicate Suffix(s: seq<byte>, whole: seq<byte>) {
    |s| <= |whole| && s == whole[|whole| - |s|..]
  }

  /** Receives a variable of `size` octets, as the header fields are. */
  method RecvOctets(sock: Socket, size: nat) returns (r: int, octets: seq<byte>)
    requires size > 0
    modifies sock`input
    ensures |octets| == size
    ensures sock.reliable && |old(sock.input)| >= size ==>
              r == size && octets == old(sock.input[..size]) && sock.input == old(sock.input[size..])
    ensures sock.reliable && |old(sock.input)| < size ==> r == |old(sock.input)| && sock.input == []
    ensures Suffix(sock.input, old(sock.input))
  {
    var buf := new byte[size];
    r := sock.RecvN(buf, size, NoHandler);
    octets := buf[..];
  }

  /** The opcode and the flags that the first octet of a frame holds; the flags keep the opcode bits. */
  predicate FirstOctet(b0: byte, opcode: int, flags: int) {
    opcode == b0 % 16 && flags == b0 as int * 256
  }

  /** The header of the frame at the start of `s` is read: its length, masking key and what follows it. */
  predicate HeaderRead(s: seq<byte>, payloadLen: nat, mask: bool, maskingKey: seq<byte>, rest: seq<byte>) {
    && |s| >= 2 && |s| >= HeaderSize(s[1]) && mask == (s[1] >= 128)
    && payloadLen == PayloadLength(s[1], s[2..2 + ExtendedSize(s[1])])
    && (mask ==> maskingKey == s[HeaderSize(s[1]) - 4..HeaderSize(s[1])])
    && rest == s[HeaderSize(s[1])..]
  }

  predicate HeaderComplete(s: seq<byte>) {
    |s| >= 2 && |s| >= HeaderSize(s[1])
  }

  /** The part of `ws_recv` before the payload: header, extended length and masking key. */
  method RecvHeader(host: Host, sock: Socket)
    returns (r: int, opcode: int, flags: int, mask: bool, payloadLen: nat, maskingKey: seq<byte>)
    modifies sock`input
    ensures |maskingKey| == 4 && payloadLen < TWO_31
    ensures sock.reliable && HeaderComplete(old(sock.input)) ==>
              && r > 0 && FirstOctet(old(sock.input)[0], opcode, flags)
              && HeaderRead(old(sock.input), payloadLen, mask, maskingKey, sock.input)
    ensures sock.reliable && !HeaderComplete(old(sock.input)) ==> r >= 0 && sock.input == []
    ensures Suffix(sock.input, old(sock.input))
  {
    hide PayloadLength, RestSize, HeaderSize, Suffix, FirstOctet, HeaderRead, RestRead;
    ghost var s := sock.input;
    maskingKey := [0, 0, 0, 0];
    payloadLen := 0;
    var code;
    r, opcode, flags, mask, code := RecvWord(host, sock);
    if r <= 0 {
      assert sock.reliable ==> |s| < 2;
      return;
    }
    if |s| >= 2 {
      HeaderSizes(s[1]);
    }
    ghost var afterWord := sock.input;
    r, payloadLen, maskingKey := RecvRest(host, sock, code, mask);
    SuffixTrans(sock.input, afterWord, s);
    if sock.reliable && HeaderComplete(s) {
      HeaderParts(s, afterWord, code, payloadLen, mask, maskingKey, sock.input);
    }
  }

  /** The size of what follows the header word: the extended length and the masking key. */
  function RestSize(code: nat, mask: bool): nat
    requires code < 128
  {
    ExtendedSize(code) + (if mask then 4 else 0)
  }

  predicate RestRead(t: seq<byte>, code: nat, payloadLen: nat, mask: bool, maskingKey: seq<byte>, rest: seq<byte>)
    requires code < 128
  {
    && |t| >= RestSize(code, mask)
    && payloadLen == PayloadLength(code, t[..ExtendedSize(code)])
    && (mask ==> maskingKey == t[ExtendedSize(code)..][..4])
    && rest == t[RestSize(code, mask)..]
  }

  /** The part of `ws_recv` that reads the extended length and the masking key. */
  method RecvRest(host: Host, sock: Socket, code: nat, mask: bool) returns (r: int, payloadLen: nat, maskingKey: seq<byte>)
    requires code < 128
    modifies sock`input
    ensures |maskingKey| == 4 && payloadLen < TWO_31
    ensures sock.reliable && |old(sock.input)| >= RestSize(code, mask) ==>
              r > 0 && RestRead(old(sock.input), code, payloadLen, mask, maskingKey, sock.input)
    ensures sock.reliable && |old(sock.input)| <= RestSize(code, mask) ==> r >= 0 && sock.input == []
    ensures Suffix(sock.input, old(sock.input))
  {
    hide PayloadLength, ExtendedSize, Suffix;
    ghost var t := sock.input;
    maskingKey := [0, 0, 0, 0];
    r, payloadLen := RecvLength(host, sock, code);
    if r <= 0 || !mask {
      return;
    }
    ghost var afterLength := sock.input;
    r, maskingKey := RecvOctets(sock, 4);
    SuffixTrans(sock.input, afterLength, t);
    if |t| >= ExtendedSize(code) + 4 {
      Slices(t, ExtendedSize(code), 4);
    }
  }

  /** The size of a header by its low seven bits and the mask bit. */
  lemma HeaderSizes(b1: byte)
    ensures HeaderSize(b1) == 2 + RestSize(b1 % 128, b1 >= 128)
  {
  }

  /** The parts of a header, read one after the other. */
  lemma HeaderParts(s: seq<byte>, t: seq<byte>, code: nat, payloadLen: nat, mask: bool, maskingKey: seq<byte>, rest: seq<byte>)
    requires HeaderComplete(s) && mask == (s[1] >= 128) && code == s[1] % 128 && t == s[2..]
    requires RestRead(t, code, payloadLen, mask, maskingKey, rest)
    ensures HeaderRead(s, payloadLen, mask, maskingKey, rest)
  {
    hide PayloadLength;
    var e := ExtendedSize(s[1]);
    Slices(s, 2, e);
    Slices(s, 2, RestSize(code, mask));
    SevenBitLength(s[1], s[2..2 + e]);
    if mask {
      Slices(s, 2 + e, 4);
    }
  }

  lemma SuffixTrans(a: seq<byte>, b: seq<byte>, c: seq<byte>)
    requires Suffix(a, b) && Suffix(b, c)
    ensures Suffix(a, c)
  {
  }

  lemma Slices(s: seq<byte>, i: nat, n: nat)
    requires i + n <= |s|
    ensures s[i..][..n] == s[i..i + n] && s[i..][n..] == s[i + n..]
  {
  }

  /** The length fields depend on the low seven bits only. */
  lemma SevenBitLength(b1: byte, ext: seq<byte>)
    requires |ext| == ExtendedSize(b1)
    ensures ExtendedSize(b1 % 128) == ExtendedSize(b1) && PayloadLength(b1 % 128, ext) == PayloadLength(b1, ext)
  {
  }

  /** The part of `ws_recv` that reads the header word and takes it apart. */
  method RecvWord(host: Host, sock: Socket) returns (r: int, opcode: int, flags: int, mask: bool, code: nat)
    modifies sock`input
    ensures code < 128
    ensures var s := old(sock.input);
            sock.reliable && |s| >= 2 ==>
              && r > 0 && FirstOctet(s[0], opcode, flags) && mask == (s[1] >= 128) && code == s[1] % 128
              && sock.input == s[2..]
    ensures sock.reliable && |old(sock.input)| < 2 ==> r >= 0 && sock.input == []
    ensures Suffix(sock.input, old(sock.input))
  {
    hide FromBE, And, Shr, Load, Htons;
    opcode, flags, mask, code := 0, 0, false, 0;
    var field;
    r, field := RecvOctets(sock, 2);
    if r <= 0 {
      return;
    }
    ReadOrder16(host, field);
    FromBE2(field);
    var header := Htons(host, Load(host, field));
    ReceivedHeaderFields(field[0], field[1]);
    opcode := Shr(And(header, 0x0F00), 8);
    mask := And(header, WS_FLAG_MASK) != 0;
    code := And(header, 0x7F);
    flags := And(header, 0xFF00);
  }

  /** The part of `ws_recv` that reads the extended length, if the 7-bit length `code` announces one. */
  method RecvLength(host: Host, sock: Socket, code: nat) returns (r: int, payloadLen: nat)
    requires code < 128
    modifies sock`input
    ensures payloadLen < TWO_31
    ensures var s := old(sock.input);
            sock.reliable && |s| >= ExtendedSize(code) ==>
              && r > 0 && payloadLen == PayloadLength(code, s[..ExtendedSize(code)])
              && sock.input == s[ExtendedSize(code)..]
    ensures sock.reliable && |old(sock.input)| < ExtendedSize(code) ==> r >= 0 && sock.input == []
    ensures Suffix(sock.input, old(sock.input))
  {
    hide FromBE, And, Load, Htons, Htonll;
    r, payloadLen := 1, code;
    if code == PAYLOAD_LENGTH_16 {
      var ext;
      r, ext := RecvOctets(sock, 2);
      if r <= 0 {
        return;
      }
      ReadOrder16(host, ext);
      payloadLen := Htons(host, Load(host, ext));
    } else if code == PAYLOAD_LENGTH_64 {
      var ext;
      r, ext := RecvOctets(sock, 8);
      if r <= 0 {
        return;
      }
      ReadOrder64(host, ext);
      And31(Htonll(host, Load(host, ext)));
      payloadLen := And(Htonll(host, Load(host, ext)), 0x7FFF_FFFF);
    }
  }

  /** Receives the payload into a buffer and unmasks it in place. */
  method RecvPayload(sock: Socket, payloadLen: nat, mask: bool, maskingKey: seq<byte>)
    returns (r: int, payload: array<byte>)
    requires |maskingKey| == 4 && 0 < payloadLen
    modifies sock`input
    ensures fresh(payload) && payload.Length == payloadLen
    ensures sock.reliable && |old(sock.input)| >= payloadLen ==>
              && r > 0 && sock.input == old(sock.input[payloadLen..])
              && payload[..] == Masked(old(sock.input[..payloadLen]), if mask then Some(maskingKey) else None)
    ensures sock.reliable && |old(sock.input)| < payloadLen ==> r >= 0 && sock.input == []
    ensures Suffix(sock.input, old(sock.input))
  {
    payload := new byte[payloadLen];
    r := sock.RecvN(payload, payloadLen, NoHandler);
    if r <= 0 {
      return;
    }
    ghost var raw := payload[..];
    if mask {
      var i := 0;
      while i < payloadLen
        modifies payload
        invariant i <= payloadLen
        invariant forall k :: 0 <= k < i ==> payload[k] == XorByte(raw[k], maskingKey[k % 4])
        invariant forall k :: i <= k < payloadLen ==> payload[k] == raw[k]
      {
        payload[i] := XorByte(payload[i], maskingKey[i % 4]);
        i := i + 1;
      }
    }
  }

  /** Reads and drops the payload one octet at a time. */
  method SkipPayload(sock: Socket, payloadLen: nat) returns (r: int)
    modifies sock`input
    ensures sock.reliable && |old(sock.input)| >= payloadLen ==> r > 0 && sock.input == old(sock.input[payloadLen..])
    ensures sock.reliable && |old(sock.input)| < payloadLen ==> r >= 0 && sock.input == []
    ensures Suffix(sock.input, old(sock.input))
  {
    var buf := new byte[1];
    var i := 0;
    r := 1;
    while i < payloadLen
      modifies sock`input, buf
      invariant i <= payloadLen
      invariant r > 0 && i <= |old(sock.input)| && sock.input == old(sock.input[i..])
    {
      r := sock.Recv(buf, 0, 1);
      if r <= 0 {
        return;
      }
      i := i + 1;
    }
  }

  /**
   * `ws_recv`: with a complete frame at the head of the stream, exactly that frame
   * is consumed whether its payload is stored (`want`) or skipped, and the fields
   * are those of the frame. A stream that ends inside a frame is reported as success
   * too, with nothing of it left.
   */
  method Recv(host: Host, sock: Socket, want: bool)
    returns (r: int, opcode: int, flags: int, payload: seq<byte>, len: int)
    modifies sock`input
    ensures sock.reliable && Parse(old(sock.input)).Some? ==>
              var f := Parse(old(sock.input)).value;
              && r == 0 && opcode == f.opcode && flags == f.flags && len == |f.payload|
              && payload == (if want then f.payload else [])
              && sock.input == old(sock.input)[f.size..]
    ensures sock.reliable && Parse(old(sock.input)).None? ==> r == 0 && sock.input == []
    ensures Suffix(sock.input, old(sock.input))
    ensures r <= 0 && (r < 0 ==> !sock.reliable)
  {
    hide FromBE, Masked, PayloadLength;
    ghost var s := sock.input;
    payload, len := [], 0;
    var mask, payloadLen, maskingKey;
    r, opcode, flags, mask, payloadLen, maskingKey := RecvHeader(host, sock);
    if r <= 0 {
      return;
    }
    ghost var complete := sock.reliable && Parse(s).Some?;
    ghost var h := if complete then HeaderSize(s[1]) else 0;
    ghost var key := if mask then Some(maskingKey) else None;
    assert complete ==> sock.input == s[h..] && sock.input[..payloadLen] == s[h..h + payloadLen];
    assert complete ==> Parse(s).value.payload == Masked(s[h..h + payloadLen], key);
    if want {
      if payloadLen > 0 {
        var buf;
        r, buf := RecvPayload(sock, payloadLen, mask, maskingKey);
        if r <= 0 {
          return;
        }
        payload := buf[..];
      }
    } else {
      r := SkipPayload(sock, payloadLen);
      if r <= 0 {
        return;
      }
    }
    len := payloadLen;
    r := 0;
  }

  // ----- streams of frames -----

  ghost predicate Readable(fs: seq<FrameData>) {
    forall i :: 0 <= i < |fs| ==> WellFormed(fs[i]) && (fs[i].form.Len64? ==> |fs[i].payload| < TWO_31)
  }

  /** Frames sent one after the other. */
  function Frames(fs: seq<FrameData>): seq<byte>
    requires forall i :: 0 <= i < |fs| ==> WellFormed(fs[i])
  {
    if fs == [] then [] else Frames(fs[..|fs| - 1]) + Frame(fs[|fs| - 1])
  }

  function ReceivedOf(f: FrameData): Received
    requires WellFormed(f)
  {
    Received(f.opcode, (f.top * 16 + f.opcode) * 256, f.payload, |Frame(f)|)
  }

  function ReceivedAll(fs: seq<FrameData>): (rs: seq<Received>)
    requires forall i :: 0 <= i < |fs| ==> WellFormed(fs[i])
    ensures |rs| == |fs|
    ensures forall i :: 0 <= i < |fs| ==> rs[i] == ReceivedOf(fs[i])
  {
    seq(|fs|, i requires 0 <= i < |fs| => ReceivedOf(fs[i]))
  }

  /** Every complete frame of a stream in order, and what is left over. */
  function ParseStream(s: seq<byte>): (r: (seq<Received>, seq<byte>)) {
    match Parse(s)
    case None => ([], s)
    case Some(f) =>
      var rest := ParseStream(s[f.size..]);
      ([f] + rest.0, rest.1)
  }

  lemma NoFrames()
    ensures Frames([]) == []
  {
  }

  lemma FramesCons(f: FrameData, fs: seq<FrameData>)
    requires Readable([f]) && Readable(fs)
    ensures WellFormed(f) && Readable([f] + fs) && Frames([f] + fs) == Frame(f) + Frames(fs)
  {
    hide Frame;
    assert WellFormed([f][0]);
    if fs == [] {
      assert [f] + fs == [f] && [f][..0] == [];
    } else {
      var init := fs[..|fs| - 1];
      assert ([f] + fs)[..|fs|] == [f] + init;
      FramesCons(f, init);
    }
  }

  lemma ReceivedCons(f: FrameData, fs: seq<FrameData>)
    requires WellFormed(f) && Readable(fs) && Readable([f] + fs)
    ensures ReceivedAll([f] + fs) == [ReceivedOf(f)] + ReceivedAll(fs)
  {
    hide ReceivedOf, WellFormed;
  }

  lemma StreamStep(s: seq<byte>)
    ensures Parse(s).None? ==> ParseStream(s) == ([], s)
    ensures Parse(s).Some? ==>
              var f := Parse(s).value;
              var rest := ParseStream(s[f.size..]);
              ParseStream(s) == ([f] + rest.0, rest.1)
  {
  }

  /** A stream of frames splits into exactly those frames. */
  lemma {:induction false} StreamRoundTrip(fs: seq<FrameData>, tail: seq<byte>)
    requires Readable(fs) && Parse(tail).None?
    ensures ParseStream(Frames(fs) + tail) == (ReceivedAll(fs), tail)
  {
    hide Parse, Frame, Frames, ParseStream, WellFormed, ReceivedAll;
    if fs == [] {
      NoFrames();
      assert Frames(fs) + tail == tail;
      StreamStep(tail);
    } else {
      var f, rest := fs[0], fs[1..];
      assert fs == [f] + rest;
      FramesCons(f, rest);
      var s := Frames(fs) + tail;
      assert s == Frame(f) + (Frames(rest) + tail);
      ParseOfFrame(f, Frames(rest) + tail);
      assert s[|Frame(f)|..] == Frames(rest) + tail;
      StreamRoundTrip(rest, tail);
      StreamStep(s);
      ReceivedCons(f, rest);
    }
  }

  lemma HeaderLength(f: FrameData)
    ensures var e := ExtendedLength(f.form, |f.payload|);
            2 + |e| <= |Header(f)| && Header(f)[2..2 + |e|] == e
  {
    hide ExtendedLength, LengthCode;
  }

  lemma SliceOfPrefix(s: seq<byte>, h: nat, i: nat, j: nat)
    requires i <= j <= h <= |s|
    ensures s[i..j] == s[..h][i..j]
  {
  }

  /** A frame cut short is never taken for a frame. */
  lemma CutFrame(f: FrameData, k: nat)
    requires WellFormed(f) && (f.form.Len64? ==> |f.payload| < TWO_31)
    requires k < |Frame(f)|
    ensures Parse(Frame(f)[..k]) == None
  {
    hide Masked, ExtendedLength, LengthCode, PayloadLength, ExtendedSize;
    var n, s := |f.payload|, Frame(f)[..k];
    LengthRoundTrip(f.form, n);
    var e := ExtendedLength(f.form, n);
    var h := |Header(f)|;
    assert |Frame(f)| == h + n;
    if k >= 2 {
      assert s[1] == Header(f)[1] && h == HeaderSize(s[1]);
      if k >= h {
        assert s[..h] == Header(f);
        HeaderLength(f);
        SliceOfPrefix(s, h, 2, 2 + |e|);
      }
    }
  }

  datatype Message = Message(flags: uint16, opcode: nibble, payload: seq<byte>)

  ghost predicate Sendable(m: Message) {
    m.flags / 128 % 2 == 0 && |m.payload| < MAX_PAYLOAD
  }

  function FrameOf(m: Message): (f: FrameData) {
    Outgoing(m.flags, m.opcode, m.payload)
  }

  function FramesOf(ms: seq<Message>): (fs: seq<FrameData>)
    ensures |fs| == |ms|
    ensures forall i :: 0 <= i < |ms| ==> fs[i] == FrameOf(ms[i])
  {
    seq(|ms|, i requires 0 <= i < |ms| => FrameOf(ms[i]))
  }

  lemma SendableFrame(m: Message)
    requires Sendable(m)
    ensures var f := FrameOf(m);
      WellFormed(f) && (f.form.Len64? ==> |f.payload| < TWO_31) && |Frame(f)| < TWO_31
  {
  }

  /** The bound on payloads is exact. */
  lemma FitsIffBelowMax(m: Message)
    requires |m.payload| < TWO_64 / 2
    ensures |Frame(FrameOf(m))| < TWO_31 <==> |m.payload| < MAX_PAYLOAD
  {
    hide Masked;
    ExtendedSizes(|m.payload|);
  }

  /**
   * Messages sent through `ws_send` and read by `ws_recv`, between hosts of any
   * byte order and under any partial sends and receives, come back in order with
   * their opcode, FIN and RSV bits and payload; `want` chooses which are stored.
   */
  method Exchange(sender: Host, receiver: Host, ms: seq<Message>, want: seq<bool>) returns (got: seq<Message>)
    requires |want| == |ms| && forall i :: 0 <= i < |ms| ==> Sendable(ms[i])
    ensures |got| == |ms|
    ensures forall i :: 0 <= i < |ms| ==> Matches(got[i], ms[i], want[i])
  {
    var near := new Socket([], true);
    SendAll(sender, near, ms);
    AllReadable(ms);
    var far := new Socket(near.output, true);
    got := RecvAll(receiver, far, ms, want);
  }

  lemma AllReadable(ms: seq<Message>)
    requires forall i :: 0 <= i < |ms| ==> Sendable(ms[i])
    ensures Readable(FramesOf(ms))
  {
    forall i | 0 <= i < |ms|
      ensures WellFormed(FramesOf(ms)[i]) && (FramesOf(ms)[i].form.Len64? ==> |FramesOf(ms)[i].payload| < TWO_31)
    {
      SendableFrame(ms[i]);
    }
  }

  /** One call of `ws_send` per message. */
  method SendAll(host: Host, sock: Socket, ms: seq<Message>)
    requires sock.reliable && sock.output == []
    requires forall i :: 0 <= i < |ms| ==> Sendable(ms[i])
    modifies sock`output
    ensures Readable(FramesOf(ms)) && sock.output == Frames(FramesOf(ms))
  {
    AllReadable(ms);
    hide Frame, FrameOf, Frames;
    ghost var fs := FramesOf(ms);
    NoFrames();
    assert fs[..0] == [];
    for i := 0 to |ms|
      modifies sock`output
      invariant sock.output == Frames(fs[..i])
    {
      SendOne(host, sock, ms[i]);
      FramesNext(fs, i);
    }
    assert fs[..|ms|] == fs;
  }

  lemma FramesNext(fs: seq<FrameData>, i: nat)
    requires Readable(fs) && i < |fs|
    ensures Frames(fs[..i + 1]) == Frames(fs[..i]) + Frame(fs[i])
  {
    assert fs[..i + 1][..i] == fs[..i];
  }

  method SendOne(host: Host, sock: Socket, m: Message)
    requires sock.reliable && Sendable(m)
    modifies sock`output
    ensures WellFormed(FrameOf(m)) && sock.output == old(sock.output) + Frame(FrameOf(m))
  {
    SendableFrame(m);
    hide Frame, Outgoing, SentAs, Allocated;
    var r := Send(host, sock, m.opcode, m.payload, m.flags, 0);
    assert m.flags % TWO_16 == m.flags && m.opcode % 256 == m.opcode;
    DeliveredIffFits(old(sock.output), sock.output, Frame(FrameOf(m)), r);
  }

  /** One call of `ws_recv` per message. */
  method RecvAll(host: Host, sock: Socket, ghost ms: seq<Message>, want: seq<bool>) returns (got: seq<Message>)
    requires sock.reliable && |want| == |ms|
    requires Readable(FramesOf(ms)) && sock.input == Frames(FramesOf(ms))
    modifies sock`input
    ensures |got| == |ms|
    ensures forall i :: 0 <= i < |ms| ==> Matches(got[i], ms[i], want[i])
  {
    hide Frame, Parse, FrameOf, Frames, ReceivedOf, WellFormed, Matches;
    ghost var fs := FramesOf(ms);
    got := [];
    assert fs[0..] == fs;
    for i := 0 to |want|
      invariant sock.input == Frames(fs[i..])
      invariant |got| == i && forall j :: 0 <= j < i ==> Matches(got[j], ms[j], want[j])
    {
      StreamHead(fs, i);
      ghost var f := ReceivedOf(fs[i]);
      MatchesSent(ms[i], f, want[i]);
      var m := RecvOne(host, sock, want[i], f);
      got := got + [m];
    }
  }

  lemma MatchesSent(m: Message, f: Received, want: bool)
    requires WellFormed(FrameOf(m)) && f == ReceivedOf(FrameOf(m))
    ensures f.opcode < 16 && f.size == |Frame(FrameOf(m))|
    ensures Matches(Message(f.flags, f.opcode, if want then f.payload else []), m, want)
  {
    hide Frame, FrameOf, WellFormed;
    SameFields(m);
  }

  method RecvOne(host: Host, sock: Socket, want: bool, ghost f: Received) returns (m: Message)
    requires sock.reliable && Parse(sock.input) == Some(f)
    requires f.opcode < 16
    modifies sock`input
    ensures m == Message(f.flags, f.opcode, if want then f.payload else [])
    ensures sock.input == old(sock.input)[f.size..]
  {
    hide Parse;
    var r, opcode, flags, payload, len := Recv(host, sock, want);
    m := Message(flags, opcode, payload);
  }

  lemma StreamHead(fs: seq<FrameData>, i: nat)
    requires Readable(fs) && i < |fs|
    ensures WellFormed(fs[i])
    ensures Parse(Frames(fs[i..])) == Some(ReceivedOf(fs[i]))
    ensures |Frame(fs[i])| <= |Frames(fs[i..])| && Frames(fs[i..])[|Frame(fs[i])|..] == Frames(fs[i + 1..])
  {
    hide Frame, Parse;
    assert fs[i..] == [fs[i]] + fs[i + 1..];
    FramesCons(fs[i], fs[i + 1..]);
    ParseOfFrame(fs[i], Frames(fs[i + 1..]));
  }

  /** Opcode, FIN and RSV bits and payload survive; received flags also carry the opcode. */
  ghost predicate Matches(got: Message, sent: Message, want: bool) {
    && got.opcode == sent.opcode
    && got.flags / 4096 == sent.flags / 4096
    && got.payload == (if want then sent.payload else [])
  }

  lemma SameFields(m: Message)
    ensures var f := FrameOf(m);
      f.opcode == m.opcode && f.payload == m.payload && (f.top * 16 + f.opcode) * 256 / 4096 == m.flags / 4096
  {
  }
}
