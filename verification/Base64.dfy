// The encoder of src/base64.c, which computes every character from bit
// positions, against the three-octet groups of RFC 4648 section 4.

module Base64 {
  import opened Bits
  import opened Bytes

  type sextet = x: int | 0 <= x < 64

  const PADDING: byte := '=' as int
  const INDEX_TABLE := 
    "ABCDEFGH" + "IJKLMNOP" + "QRSTUVWX" + "YZabcdef" + "ghijklmn" + "opqrstuv" + "wxyz0123" + "456789+/"

  // ----- RFC 4648 section 4 -----

  /** Table 1 of RFC 4648. */
  function Alphabet(v: sextet): byte {
    if v < 26 then 'A' as int + v
    else if v < 52 then 'a' as int + (v - 26)
    else if v < 62 then '0' as int + (v - 52)
    else if v == 62 then '+' as int
    else '/' as int
  }

  function Group(b0: byte, b1: byte, b2: byte): (s: seq<sextet>)
    ensures |s| == 4
  {
    var n := b0 * 0x1_0000 + b1 * 0x100 + b2;
    [n / 0x4_0000, n / 0x1000 % 64, n / 64 % 64, n % 64]
  }

  /** The characters of an encoding before padding. */
  function Body(data: seq<byte>): seq<sextet> {
    if |data| == 0 then []
    else if |data| == 1 then Group(data[0], 0, 0)[..2]
    else if |data| == 2 then Group(data[0], data[1], 0)[..3]
    else Group(data[0], data[1], data[2]) + Body(data[3..])
  }

  function Chars(s: seq<sextet>): (r: seq<byte>)
    ensures |r| == |s|
  {
    seq(|s|, i requires 0 <= i < |s| => Alphabet(s[i]))
  }

  function Pads(n: nat): (r: seq<byte>)
    ensures |r| == n
  {
    seq(n, i => PADDING)
  }

  /** The base 64 encoding of RFC 4648. */
  function Encode(data: seq<byte>): seq<byte> {
    Chars(Body(data)) + Pads(if |data| % 3 == 0 then 0 else 3 - |data| % 3)
  }

  function ValueOf(c: byte): Option<sextet> {
    if 'A' as int <= c <= 'Z' as int then Some(c - 'A' as int)
    else if 'a' as int <= c <= 'z' as int then Some(c - 'a' as int + 26)
    else if '0' as int <= c <= '9' as int then Some(c - '0' as int + 52)
    else if c == '+' as int then Some(62)
    else if c == '/' as int then Some(63)
    else None
  }

  /** A strict decoder: four characters at a time, padding only in the last four. */
  function Decode(s: seq<byte>): Option<seq<byte>> {
    if |s| == 0 then Some([])
    else if |s| < 4 then None
    else
      match (ValueOf(s[0]), ValueOf(s[1]), ValueOf(s[2]), ValueOf(s[3]))
      case (Some(v0), Some(v1), Some(v2), Some(v3)) =>
        (match Decode(s[4..])
         case Some(rest) =>
           var n := v0 as int * 0x4_0000 + v1 as int * 0x1000 + v2 as int * 64 + v3;
           Some([n / 0x1_0000, n / 0x100 % 256, n % 256] + rest)
         case None => None)
      case (Some(v0), Some(v1), Some(v2), None) =>
        if |s| == 4 && s[3] == PADDING && v2 % 4 == 0
        then Some([v0 as int * 4 + v1 / 16, v1 as int % 16 * 16 + v2 / 4]) else None
      case (Some(v0), Some(v1), None, None) =>
        if |s| == 4 && s[2] == s[3] == PADDING && v1 % 16 == 0
        then Some([v0 as int * 4 + v1 / 16]) else None
      case _ => None
  }

  lemma ValueOfAlphabet(v: sextet)
    ensures ValueOf(Alphabet(v)) == Some(v)
  {
  }

  lemma Digits64(d0: sextet, d1: sextet, d2: sextet, d3: sextet, n: nat)
    requires n == ((d0 as int * 64 + d1) * 64 + d2) * 64 + d3
    ensures n / 0x4_0000 == d0 && n / 0x1000 % 64 == d1 && n / 64 % 64 == d2 && n % 64 == d3
  {
    assert n / 64 == (d0 as int * 64 + d1) * 64 + d2;
    assert n / 0x1000 == d0 as int * 64 + d1;
  }

  /** The four characters of a group share out the bits of its three octets. */
  lemma GroupBits(b0: byte, b1: byte, b2: byte)
    ensures Group(b0, b1, b2) == [b0 / 4, b0 % 4 * 16 + b1 / 16, b1 % 16 * 4 + b2 / 64, b2 % 64]
  {
    assert b0 == b0 / 4 * 4 + b0 % 4 && b1 == b1 / 16 * 16 + b1 % 16 && b2 == b2 / 64 * 64 + b2 % 64;
    Digits64(b0 / 4, b0 % 4 * 16 + b1 / 16, b1 % 16 * 4 + b2 / 64, b2 % 64, b0 * 0x1_0000 + b1 * 0x100 + b2);
  }

  /** Reading four characters back gives the three octets. */
  lemma Ungroup(b0: byte, b1: byte, b2: byte, n: nat)
    requires n == b0 / 4 * 0x4_0000 + (b0 % 4 * 16 + b1 / 16) * 0x1000 + (b1 % 16 * 4 + b2 / 64) * 64 + b2 % 64
    ensures n / 0x1_0000 == b0 && n / 0x100 % 256 == b1 && n % 256 == b2
  {
    assert b0 == b0 / 4 * 4 + b0 % 4 && b1 == b1 / 16 * 16 + b1 % 16 && b2 == b2 / 64 * 64 + b2 % 64;
    assert n == b0 * 0x1_0000 + (b1 * 0x100 + b2);
    SplitOctets(b0, b1, b2);
  }

  lemma SplitOctets(b0: byte, b1: byte, b2: byte)
    ensures var n := b0 * 0x1_0000 + (b1 * 0x100 + b2);
      n / 0x1_0000 == b0 && n / 0x100 % 256 == b1 && n % 256 == b2
  {
    var n := b0 * 0x1_0000 + (b1 * 0x100 + b2);
    assert n / 0x100 == b0 * 0x100 + b1;
  }

  lemma CharsValues(s: seq<sextet>)
    ensures forall k :: 0 <= k < |s| ==> ValueOf(Chars(s)[k]) == Some(s[k])
  {
    forall k | 0 <= k < |s|
      ensures ValueOf(Chars(s)[k]) == Some(s[k])
    {
      ValueOfAlphabet(s[k]);
    }
  }

  lemma DecodeGroup(b0: byte, b1: byte, b2: byte, t: seq<byte>, r: seq<byte>)
    requires Decode(t) == Some(r)
    ensures Decode(Chars(Group(b0, b1, b2)) + t) == Some([b0, b1, b2] + r)
  {
    hide ValueOf, Chars, Alphabet;
    var g := Group(b0, b1, b2);
    var s := Chars(g) + t;
    GroupBits(b0, b1, b2);
    CharsValues(g);
    assert s[4..] == t && s[0] == Chars(g)[0] && s[1] == Chars(g)[1] && s[2] == Chars(g)[2] && s[3] == Chars(g)[3];
    var v0: int, v1: int, v2: int, v3: int := g[0], g[1], g[2], g[3];
    Ungroup(b0, b1, b2, v0 * 0x4_0000 + v1 * 0x1000 + v2 * 64 + v3);
  }

  lemma DecodeTail(data: seq<byte>)
    requires 0 < |data| < 3
    ensures Decode(Encode(data)) == Some(data)
  {
    hide ValueOf, Alphabet;
    var b, e := Body(data), Encode(data);
    GroupBits(data[0], if |data| == 2 then data[1] else 0, 0);
    CharsValues(b);
    PaddingValue();
    assert forall k :: 0 <= k < |b| ==> e[k] == Chars(b)[k];
    assert forall k :: |b| <= k < 4 ==> e[k] == PADDING;
    if |data| == 1 {
      var v0: int, v1: int := b[0], b[1];
      assert v0 * 4 + v1 / 16 == data[0] && data == [data[0]];
      assert Decode(e) == Some([data[0]]);
    } else {
      var v0: int, v1: int, v2: int := b[0], b[1], b[2];
      assert v0 * 4 + v1 / 16 == data[0] && v1 % 16 * 16 + v2 / 4 == data[1] && data == [data[0], data[1]];
      assert Decode(e) == Some([data[0], data[1]]);
    }
  }

  lemma PaddingValue()
    ensures ValueOf(PADDING) == None
  {
  }

  lemma EncodeStep(data: seq<byte>)
    requires |data| >= 3
    ensures Encode(data) == Chars(Group(data[0], data[1], data[2])) + Encode(data[3..])
  {
    hide Group, Alphabet;
    var g := Group(data[0], data[1], data[2]);
    assert |data[3..]| % 3 == |data| % 3;
    assert Chars(g + Body(data[3..])) == Chars(g) + Chars(Body(data[3..]));
  }

  /** A decoder restores the octets from the standard encoding. */
  lemma {:induction false} DecodeEncode(data: seq<byte>)
    ensures Decode(Encode(data)) == Some(data)
  {
    if |data| >= 3 {
      hide Decode, Encode;
      EncodeStep(data);
      DecodeEncode(data[3..]);
      DecodeGroup(data[0], data[1], data[2], Encode(data[3..]), data[3..]);
      assert data == [data[0], data[1], data[2]] + data[3..];
    } else if |data| > 0 {
      DecodeTail(data);
    }
  }

  // ----- the bit-index arithmetic of the source -----

  function NumChars(len: nat): nat {
    len * 8 / 6 + (if len * 8 % 6 != 0 then 1 else 0)
  }

  /** The octet at an index, or zero past the end. */
  function OctetAt(data: seq<byte>, i: nat): byte {
    if i < |data| then data[i] else 0
  }

  /** `(b1 & (0xFF >> bit1)) << (bit1 - 2)`: a negative shift count leaves no low bits. */
  function HighPart(b1: byte, bit1: nat): nat
    requires bit1 < 8
  {
    if bit1 < 2 then 0 else Shl(And(b1, Shr(0xFF, bit1)), bit1 - 2)
  }

  /** Character `i` of the encoder, from bit positions. */
  function IndexAt(data: seq<byte>, i: nat): byte {
    Or(HighPart(OctetAt(data, i * 6 / 8), i * 6 % 8), Shr(OctetAt(data, (i + 1) * 6 / 8), 8 - (i + 1) * 6 % 8)) % 256
  }

  /** Every read of the first octet is inside the data. */
  lemma FirstOctetInRange(len: nat, i: nat)
    requires i < NumChars(len)
    ensures i * 6 / 8 < len
  {
  }

  lemma HighParts(b: byte)
    ensures HighPart(b, 6) == b % 4 * 16 && HighPart(b, 4) == b % 16 * 4 && HighPart(b, 2) == b % 64
  {
    hide And;
    assert Shr(0xFF, 6) == 3 && Shr(0xFF, 4) == 15 && Shr(0xFF, 2) == 63 by {
      ShrByte(0xFF);
    }
    AndLow(b);
    Low4(b % 4);
    Low2(b % 16);
  }

  lemma AndLow(b: byte)
    ensures And(b, 3) == b % 4 && And(b, 15) == b % 16 && And(b, 63) == b % 64
  {
    hide And, Shr, Shl, Low;
    assert Pow2(2) == 4 && Pow2(4) == 16 && Pow2(6) == 64;
    AndMask(b, 2);
    AndMask(b, 4);
    AndMask(b, 6);
    Low2(b);
    Low4(b);
    LowPlus(b, 4, 2);
    Low2(b / 16);
    Low4(b / 16 % 4);
  }

  lemma ShrByte(b: byte)
    ensures Shr(b, 2) == b / 4 && Shr(b, 4) == b / 16 && Shr(b, 6) == b / 64 && Shr(b, 8) == 0
  {
    hide Shr, Shl, Low;
    Low2(b);
    Low4(b);
    Low8(b);
    ShiftPlus(b, 4, 2);
    Low2(b / 16);
  }

  /** The parts of the four characters of a group. */
  lemma GroupParts(b0: byte, b1: byte, b2: byte)
    ensures Or(HighPart(b0, 0), Shr(b0, 2)) == b0 / 4
    ensures Or(HighPart(b0, 6), Shr(b1, 4)) == b0 % 4 * 16 + b1 / 16
    ensures Or(HighPart(b1, 4), Shr(b2, 6)) == b1 % 16 * 4 + b2 / 64
  {
    hide Or, Shr, HighPart;
    ShrByte(b0);
    ShrByte(b1);
    ShrByte(b2);
    HighParts(b0);
    HighParts(b1);
    NoHighPart(b0);
    Join4(b0 % 4, b1 / 16);
    Join2(b1 % 16, b2 / 64);
    JoinNothing(b0 / 4);
  }

  lemma LastPart(b2: byte, next: byte)
    ensures Or(HighPart(b2, 2), Shr(next, 8)) == b2 % 64
  {
    hide Or, Shr, HighPart;
    HighParts(b2);
    ShrByte(next);
    JoinNothing(b2 % 64);
  }

  /** The four phases of the bit index within a group of three octets. */
  lemma IndexPhases(data: seq<byte>, q: nat)
    requires 3 * q < |data|
    ensures var b0, b1, b2 := OctetAt(data, 3 * q), OctetAt(data, 3 * q + 1), OctetAt(data, 3 * q + 2);
      && IndexAt(data, 4 * q) == b0 / 4
      && IndexAt(data, 4 * q + 1) == b0 % 4 * 16 + b1 / 16
      && IndexAt(data, 4 * q + 2) == b1 % 16 * 4 + b2 / 64
      && IndexAt(data, 4 * q + 3) == b2 % 64
  {
    hide Or, Shr, HighPart, OctetAt;
    var b0, b1, b2, b3 := OctetAt(data, 3 * q), OctetAt(data, 3 * q + 1), OctetAt(data, 3 * q + 2), OctetAt(data, 3 * q + 3);
    Phases(q);
    GroupParts(b0, b1, b2);
    LastPart(b2, b3);
    assert IndexAt(data, 4 * q) == Or(HighPart(b0, 0), Shr(b0, 2)) % 256;
    assert IndexAt(data, 4 * q + 1) == Or(HighPart(b0, 6), Shr(b1, 4)) % 256;
    assert IndexAt(data, 4 * q + 2) == Or(HighPart(b1, 4), Shr(b2, 6)) % 256;
    assert IndexAt(data, 4 * q + 3) == Or(HighPart(b2, 2), Shr(b3, 8)) % 256;
  }

  lemma NoHighPart(b: byte)
    ensures HighPart(b, 0) == 0
  {
  }

  lemma Phases(q: nat)
    ensures 4 * q * 6 / 8 == 3 * q && 4 * q * 6 % 8 == 0
    ensures (4 * q + 1) * 6 / 8 == 3 * q && (4 * q + 1) * 6 % 8 == 6
    ensures (4 * q + 2) * 6 / 8 == 3 * q + 1 && (4 * q + 2) * 6 % 8 == 4
    ensures (4 * q + 3) * 6 / 8 == 3 * q + 2 && (4 * q + 3) * 6 % 8 == 2
    ensures (4 * q + 4) * 6 / 8 == 3 * q + 3 && (4 * q + 4) * 6 % 8 == 0
  {
  }

  /** The two parts of a character share no bits, so that joining them adds them. */
  lemma Join4(high: nat, low: nat)
    requires low < 16
    ensures Or(high * 16, low) == high * 16 + low
  {
    hide Or, Shl;
    Low4(high);
    assert Pow2(4) == 16;
    OrDisjoint(high, low, 4);
  }

  lemma Join2(high: nat, low: nat)
    requires low < 4
    ensures Or(high * 4, low) == high * 4 + low
  {
    hide Or, Shl;
    Low2(high);
    assert Pow2(2) == 4;
    OrDisjoint(high, low, 2);
  }

  lemma JoinNothing(x: nat)
    ensures Or(x, 0) == x && Or(0, x) == x
  {
  }

  /** Where the characters of one group sit in the whole output. */
  lemma GroupByBits(data: seq<byte>, q: nat, rest: seq<byte>)
    requires 3 * q < |data| && rest == data[3 * q..]
    ensures |rest| >= 3 ==> Body(rest) == Group(rest[0], rest[1], rest[2]) + Body(rest[3..])
    ensures |rest| < 3 ==> |Body(rest)| == |rest| + 1
    ensures forall k :: 0 <= k < 4 && k < |Body(rest)| ==> Body(rest)[k] == IndexAt(data, 4 * q + k)
  {
    hide IndexAt, Group;
    IndexPhases(data, q);
    GroupBits(OctetAt(data, 3 * q), OctetAt(data, 3 * q + 1), OctetAt(data, 3 * q + 2));
    var b := Body(rest);
    assert b[0] == IndexAt(data, 4 * q);
    assert b[1] == IndexAt(data, 4 * q + 1);
    assert |rest| >= 2 ==> b[2] == IndexAt(data, 4 * q + 2);
    assert |rest| >= 3 ==> b[3] == IndexAt(data, 4 * q + 3);
  }

  lemma NumCharsStep(n: nat)
    ensures NumChars(n + 3) == NumChars(n) + 4
    ensures NumChars(0) == 0 && NumChars(1) == 2 && NumChars(2) == 3
  {
  }

  /** The bit-index arithmetic yields exactly the characters of RFC 4648. */
  lemma {:induction false} BodyByBits(data: seq<byte>, q: nat, rest: seq<byte>)
    requires 3 * q <= |data| && rest == data[3 * q..]
    ensures |Body(rest)| == NumChars(|rest|)
    ensures forall i :: 0 <= i < |Body(rest)| ==> Body(rest)[i] == IndexAt(data, 4 * q + i)
    decreases |rest|
  {
    hide IndexAt, NumChars;
    NumCharsStep(if |rest| >= 3 then |rest| - 3 else 0);
    if |rest| > 0 {
      hide Body;
      GroupByBits(data, q, rest);
      if |rest| >= 3 {
        var tail := rest[3..];
        BodyByBits(data, q + 1, tail);
        forall i | 4 <= i < |Body(rest)|
          ensures Body(rest)[i] == IndexAt(data, 4 * q + i)
        {
          assert Body(tail)[i - 4] == IndexAt(data, 4 * (q + 1) + (i - 4));
        }
      }
    }
  }

  /** The text the source produces: the characters, then padding to the next multiple of 4. */
  function Output(data: seq<byte>): seq<byte> {
    Chars(Body(data)) + Pads(4 - |Body(data)| % 4)
  }

  /**
   * The output is the standard encoding exactly when the data does not end on a
   * group boundary; otherwise four stray padding characters follow it.
   */
  lemma StandardIffPartialGroup(data: seq<byte>)
    ensures Output(data) == Encode(data) <==> |data| % 3 != 0
    ensures |data| % 3 == 0 ==> Output(data) == Encode(data) + Pads(4)
  {
    hide Body;
    BodyLength(data);
    if |data| % 3 != 0 {
      assert 4 - |Body(data)| % 4 == 3 - |data| % 3;
    } else {
      assert Encode(data) == Chars(Body(data)) + Pads(0);
      assert |Output(data)| == |Encode(data)| + 4;
    }
  }

  lemma BodyLength(data: seq<byte>)
    ensures |Body(data)| == NumChars(|data|)
  {
    BodyByBits(data, 0, data);
  }

  /** Without data the source still writes four padding characters. */
  lemma EmptyInputIsPadded()
    ensures Encode([]) == [] && Output([]) == Pads(4)
  {
  }

  /** The body of the first loop of `base64_encode`, up to the table lookup. */
  method CharIndex(data: seq<byte>, i: nat) returns (index: sextet)
    requires i < NumChars(|data|)
    ensures |Body(data)| == NumChars(|data|) && index == Body(data)[i]
  {
    hide Or, HighPart, Shr, Body, IndexAt;
    assert data[0..] == data;
    BodyByBits(data, 0, data);
    IndexByParts(data, i);
    var byte1Index := i * 6 / 8;
    var byte2Index := (i + 1) * 6 / 8;
    var bit1Index := i * 6 % 8;
    var bit2Index := (i + 1) * 6 % 8;
    var b1 := data[byte1Index];
    var b2 := if byte2Index < |data| then data[byte2Index] else 0;
    var joined := Or(HighPart(b1, bit1Index), Shr(b2, 8 - bit2Index)) % 256;
    assert joined == IndexAt(data, i) == IndexAt(data, 4 * 0 + i) == Body(data)[i];
    index := joined;
  }

  /**
   * `base64_encode`: the full text if it fits, otherwise the prefix that does.
   * The returned length counts from where the character loop stopped.
   */
  method EncodeInto(data: seq<byte>, buf: array<byte>, bufSize: nat) returns (outputLen: nat)
    requires bufSize <= buf.Length
    modifies buf
    ensures bufSize >= NumChars(|data|) ==> outputLen == |Output(data)|
    ensures bufSize < NumChars(|data|) ==> outputLen == bufSize + 4 - bufSize % 4
    ensures var n := if bufSize < |Output(data)| then bufSize else |Output(data)|;
            buf[..n] == Output(data)[..n] && buf[n..] == old(buf[n..])
  {
    hide Body, Alphabet;
    var numChars := NumChars(|data|);
    BodyLength(data);
    ghost var text := Output(data);
    var i := 0;
    while i < numChars && i < bufSize
      invariant i <= numChars && i <= bufSize
      invariant forall k :: 0 <= k < i ==> buf[k] == text[k]
      invariant forall k :: i <= k < buf.Length ==> buf[k] == old(buf[k])
    {
      var index := CharIndex(data, i);
      TableEntry(index);
      buf[i] := INDEX_TABLE[index] as int;
      i := i + 1;
    }
    outputLen := i + 4 - (i + 4) % 4;
    while i < outputLen && i < bufSize
      invariant i <= bufSize
      invariant i <= |text| && (i <= outputLen || i == bufSize)
      invariant forall k :: 0 <= k < i ==> buf[k] == text[k]
      invariant forall k :: i <= k < buf.Length ==> buf[k] == old(buf[k])
    {
      buf[i] := PADDING;
      i := i + 1;
    }
  }

  lemma IndexByParts(data: seq<byte>, i: nat)
    requires i < NumChars(|data|)
    ensures i * 6 / 8 < |data|
    ensures IndexAt(data, i) == Or(HighPart(data[i * 6 / 8], i * 6 % 8),
                                   Shr(OctetAt(data, (i + 1) * 6 / 8), 8 - (i + 1) * 6 % 8)) % 256
  {
    hide Or, HighPart, Shr;
    FirstOctetInRange(|data|, i);
  }

  /** The index table of the source is table 1 of RFC 4648. */
  lemma TableEntry(v: sextet)
    ensures |INDEX_TABLE| == 64 && INDEX_TABLE[v] as int == Alphabet(v)
  {
    var r, k := v / 8, v % 8;
    assert r == 0 || r == 1 || r == 2 || r == 3 || r == 4 || r == 5 || r == 6 || r == 7;
    assert k == 0 || k == 1 || k == 2 || k == 3 || k == 4 || k == 5 || k == 6 || k == 7;
  }
}
