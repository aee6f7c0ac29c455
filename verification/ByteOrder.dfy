// Host and network byte order: the htons/htonl family and the 64-bit macros of
// src/ws.c, for hosts of either endianness.

module ByteOrder {
  import opened Bytes

  datatype Host = LittleEndian | BigEndian

  function Reverse(s: seq<byte>): (r: seq<byte>)
    ensures |r| == |s|
    ensures forall i :: 0 <= i < |s| ==> r[i] == s[|s| - 1 - i]
  {
    if s == [] then [] else Reverse(s[1..]) + [s[0]]
  }

  /** The octets of a `k`-octet unsigned variable in memory. */
  function Store(host: Host, v: nat, k: nat): (s: seq<byte>)
    ensures |s| == k
  {
    if host.BigEndian? then ToBE(v, k) else Reverse(ToBE(v, k))
  }

  /** The value of the variable stored in these octets. */
  function Load(host: Host, s: seq<byte>): nat {
    if host.BigEndian? then FromBE(s) else FromBE(Reverse(s))
  }

  function Swap16(v: uint16): uint16 {
    v % 256 * 256 + v / 256
  }

  function Swap32(v: uint32): uint32 {
    Swap16(v % TWO_16) * TWO_16 + Swap16(v / TWO_16)
  }

  /** `htons` and `ntohs`. */
  function Htons(host: Host, v: uint16): uint16 {
    if host.BigEndian? then v else Swap16(v)
  }

  /** `htonl` and `ntohl`. */
  function Htonl(host: Host, v: uint32): uint32 {
    if host.BigEndian? then v else Swap32(v)
  }

  /** `htonll` and `ntohll`; the two halves share no bits, so `|` adds them. */
  function Htonll(host: Host, v: uint64): uint64 {
    if Htonl(host, 1) == 1 then v
    else Htonl(host, v % TWO_32) * TWO_32 + Htonl(host, v / TWO_32)
  }

  lemma ToBE2(v: nat)
    ensures ToBE(v, 2) == [v / 256 % 256, v % 256]
  {
    assert ToBE(v / 256, 1) == ToBE(v / 256 / 256, 0) + [v / 256 % 256];
  }

  lemma FromBE2(s: seq<byte>)
    requires |s| == 2
    ensures FromBE(s) == s[0] as int * 256 + s[1]
  {
    assert FromBE(s[..1]) == FromBE(s[..1][..0]) * 256 + s[0];
  }

  lemma ReverseConcat(a: seq<byte>, b: seq<byte>)
    ensures Reverse(a + b) == Reverse(b) + Reverse(a)
  {
  }

  lemma ReverseTwice(s: seq<byte>)
    ensures Reverse(Reverse(s)) == s
  {
  }

  // A byte swap reverses the octets of a number.

  lemma Swap16Octets(v: uint16)
    ensures ToBE(Swap16(v), 2) == Reverse(ToBE(v, 2))
  {
    ToBE2(v);
    ToBE2(Swap16(v));
  }

  lemma Swap32Octets(v: uint32)
    ensures ToBE(Swap32(v), 4) == Reverse(ToBE(v, 4))
  {
    hide Swap16, ToBE, Reverse;
    var l, h := v % TWO_16, v / TWO_16;
    ToBETwoHalves(h, l);
    ToBETwoHalves(Swap16(l), Swap16(h));
    Swap16Octets(l);
    Swap16Octets(h);
    ReverseConcat(ToBE(h, 2), ToBE(l, 2));
  }

  lemma LittleEndianTest()
    ensures Swap32(1) != 1
  {
  }

  lemma Swap64Octets(v: uint64)
    ensures ToBE(Htonll(LittleEndian, v), 8) == Reverse(ToBE(v, 8))
  {
    hide Swap16, Swap32, ToBE, Reverse;
    LittleEndianTest();
    var l, h := v % TWO_32, v / TWO_32;
    assert Htonll(LittleEndian, v) == Swap32(l) * TWO_32 + Swap32(h);
    ToBETwoWords(h, l);
    ToBETwoWords(Swap32(l), Swap32(h));
    Swap32Octets(l);
    Swap32Octets(h);
    ReverseConcat(ToBE(h, 4), ToBE(l, 4));
  }

  /** A 16-bit field written through `htons` is in network order on every host. */
  lemma NetworkOrder16(host: Host, v: uint16)
    ensures Store(host, Htons(host, v), 2) == ToBE(v, 2)
  {
    hide Swap16, ToBE, Reverse;
    Swap16Octets(v);
    ReverseTwice(ToBE(v, 2));
  }

  /** A 64-bit field written through `htonll` is in network order on every host. */
  lemma NetworkOrder64(host: Host, v: uint64)
    ensures Store(host, Htonll(host, v), 8) == ToBE(v, 8)
  {
    hide Swap32, ToBE, Reverse;
    Swap64Octets(v);
    ReverseTwice(ToBE(v, 8));
  }

  lemma {:induction false} FromBEBound(s: seq<byte>)
    ensures FromBE(s) < Pow256(|s|)
  {
    if s != [] {
      FromBEBound(s[..|s| - 1]);
    }
  }

  lemma {:induction false} ToFromBE(s: seq<byte>)
    ensures ToBE(FromBE(s), |s|) == s
  {
    if s != [] {
      ToFromBE(s[..|s| - 1]);
      assert s == s[..|s| - 1] + [s[|s| - 1]];
    }
  }

  lemma LoadBound(host: Host, s: seq<byte>)
    ensures FromBE(s) < Pow256(|s|) && Load(host, s) < Pow256(|s|)
  {
    FromBEBound(s);
    FromBEBound(Reverse(s));
  }

  /** Reading a 16-bit field through `ntohs` gives its big-endian value on every host. */
  lemma ReadOrder16(host: Host, s: seq<byte>)
    requires |s| == 2
    ensures FromBE(s) < TWO_16 && Load(host, s) < TWO_16
    ensures Htons(host, Load(host, s)) == FromBE(s)
  {
    hide Swap16, ToBE, Reverse, FromBE, Pow256;
    Powers256();
    LoadBound(host, s);
    if host.LittleEndian? {
      var v := Load(host, s);
      Swap16Octets(v);
      ToFromBE(Reverse(s));
      ReverseTwice(s);
      assert ToBE(Swap16(v), 2) == s;
      FromToBE(Swap16(v), 2);
    }
  }

  /** Reading a 64-bit field through `ntohll` gives its big-endian value on every host. */
  lemma ReadOrder64(host: Host, s: seq<byte>)
    requires |s| == 8
    ensures FromBE(s) < TWO_64 && Load(host, s) < TWO_64
    ensures Htonll(host, Load(host, s)) == FromBE(s)
  {
    hide Swap32, ToBE, Reverse, FromBE, Pow256;
    LittleEndianTest();
    Powers256();
    LoadBound(host, s);
    if host.LittleEndian? {
      hide Htonll;
      var v := Load(host, s);
      Swap64Octets(v);
      ToFromBE(Reverse(s));
      ReverseTwice(s);
      assert ToBE(Htonll(host, v), 8) == s;
      FromToBE(Htonll(host, v), 8);
    }
  }
}
