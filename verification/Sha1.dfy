// The streaming SHA-1 of src/sha1.c: a context updated in place, proved to
// compute the one-shot digest of everything that was fed to it.

module Sha1 {
  import opened Bits
  import opened Bytes
  import opened Sha1Spec

  const SHA_SUCCESS := 0
  const SHA_NULL := 1
  const SHA_STATE_ERROR := 3
  /** The value stored in `Corrupted` when the 64-bit length counter wraps. */
  const LENGTH_WRAPPED := 1

  /** After `m`, its last octets are in `buf` and the full blocks before them folded into `h`. */
  ghost predicate Buffered(m: seq<byte>, buf: seq<byte>, h: Regs) {
    && |buf| <= |m| && (|m| - |buf|) % 64 == 0
    && buf == m[|m| - |buf|..]
    && h == HashBlocks(m[..|m| - |buf|])
  }

  lemma BufferAppend(m: seq<byte>, buf: seq<byte>, h: Regs, s: seq<byte>)
    requires Buffered(m, buf, h)
    ensures Buffered(m + s, buf + s, h)
  {
    hide HashBlocks;
    assert (m + s)[..|m| - |buf|] == m[..|m| - |buf|];
    assert buf + s == (m + s)[|m| - |buf|..];
  }

  lemma FlushBuffer(m: seq<byte>, buf: seq<byte>, h: Regs)
    requires Buffered(m, buf, h) && |buf| == 64
    ensures Buffered(m, [], Compress(h, buf))
  {
    hide Compress, HashBlocks;
    var full := m[..|m| - 64];
    assert m == full + buf && m[..|m| - 0] == m && m[|m| - 0..] == [];
    AppendBlock(full, buf);
  }

  lemma BufferedIndex(m: seq<byte>, buf: seq<byte>, h: Regs)
    requires Buffered(m, buf, h) && |buf| < 64
    ensures |m| % 64 == |buf|
  {
    hide HashBlocks;
    IndexInBlock(|m|, |buf|);
  }

  lemma IndexInBlock(n: nat, k: nat)
    requires k <= n && (n - k) % 64 == 0 && k < 64
    ensures n % 64 == k
  {
    assert n == 64 * ((n - k) / 64) + k;
  }

  lemma EmptyBuffer(m: seq<byte>, h: Regs)
    requires Buffered(m, [], h)
    ensures |m| % 64 == 0 && h == HashBlocks(m)
  {
    assert m[..|m| - 0] == m;
  }

  lemma LengthOctets(n: nat, high: uint32, low: uint32)
    requires high * TWO_32 + low == 8 * n
    ensures ToBE(8 * n, 8) == WordBytes(high) + WordBytes(low)
  {
    WordOctets(high);
    WordOctets(low);
    ToBETwoWords(high, low);
  }

  lemma WordOctets(w: word)
    ensures WordBytes(w) == ToBE(w, 4)
  {
    hide Shr, ToBE;
    ToBE4(w);
    ShiftBytes(w);
  }

  lemma RoundStep(h: Regs, blk: seq<byte>, t: nat, temp: word)
    requires |blk| == 64 && t < 80
    requires var r := Rounds(h, blk, t);
      temp == Wrap32(RotL(5, r.a) + F(t, r.b, r.c, r.d) + r.e + W(blk, t) + K(t))
    ensures var r := Rounds(h, blk, t);
      Rounds(h, blk, t + 1) == Regs(temp, r.a, RotL(30, r.b), r.c, r.d)
  {
    hide F, K, W, RotL, Wrap32;
  }

  class Sha1Context {
    const intermediateHash: array<word>
    const messageBlock: array<byte>
    var lengthLow: uint32
    var lengthHigh: uint32
    var messageBlockIndex: int
    var computed: bool
    var corrupted: int

    /** Every octet accepted since the last reset. */
    ghost var message: seq<byte>

    ghost predicate Shape()
      reads this
    {
      intermediateHash.Length == 5 && messageBlock.Length == 64
    }

    ghost function Hash(): Regs
      requires Shape()
      reads this, intermediateHash
    {
      Regs(intermediateHash[0], intermediateHash[1], intermediateHash[2], intermediateHash[3], intermediateHash[4])
    }

    /** `n` octets were absorbed: full blocks are folded into the hash, the rest is buffered. */
    ghost predicate Absorbed()
      requires Shape()
      reads this, intermediateHash, messageBlock
    {
      && |message| < TWO_61
      && lengthHigh * TWO_32 + lengthLow == 8 * |message|
      && 0 <= messageBlockIndex < 64
      && Buffered(message, messageBlock[..messageBlockIndex], Hash())
    }

    ghost predicate Finished()
      requires Shape()
      reads this, intermediateHash
    {
      |message| < TWO_61 && (PadBlocks(message); Hash() == HashBlocks(Pad(message)))
    }

    ghost predicate Valid()
      reads this, intermediateHash, messageBlock
    {
      && Shape()
      && (corrupted == 0 && !computed ==> Absorbed())
      && (corrupted == 0 && computed ==> Finished())
    }

    constructor ()
      ensures Valid() && message == [] && corrupted == 0 && !computed
      ensures fresh(intermediateHash) && fresh(messageBlock)
    {
      intermediateHash := new word[5];
      messageBlock := new byte[64];
      message := [];
      new;
      Reset();
    }

    method Reset()
      requires Shape()
      modifies this, intermediateHash
      ensures Valid() && message == [] && corrupted == 0 && !computed
    {
      lengthLow := 0;
      lengthHigh := 0;
      messageBlockIndex := 0;
      intermediateHash[0] := 0x67452301;
      intermediateHash[1] := 0xEFCDAB89;
      intermediateHash[2] := 0x98BADCFE;
      intermediateHash[3] := 0x10325476;
      intermediateHash[4] := 0xC3D2E1F0;
      computed := false;
      corrupted := 0;
      message := [];
    }

    /** The 80-word array W of one block, filled in place. */
    method MessageSchedule() returns (w: array<word>)
      requires Shape()
      ensures fresh(w) && w.Length == 80
      ensures forall t: nat :: t < 80 ==> w[t] == W(messageBlock[..], t)
    {
      hide BitOr, BitXor, RotL, ShiftLeft;
      ghost var blk := messageBlock[..];
      w := new word[80];
      for t := 0 to 16
        invariant messageBlock[..] == blk
        invariant forall i: nat :: i < t ==> w[i] == W(blk, i)
      {
        w[t] := ShiftLeft(messageBlock[t * 4], 24);
        w[t] := BitOr(w[t], ShiftLeft(messageBlock[t * 4 + 1], 16));
        w[t] := BitOr(w[t], ShiftLeft(messageBlock[t * 4 + 2], 8));
        w[t] := BitOr(w[t], messageBlock[t * 4 + 3]);
      }
      for t := 16 to 80
        invariant messageBlock[..] == blk
        invariant forall i: nat :: i < t ==> w[i] == W(blk, i)
      {
        w[t] := RotL(1, BitXor(BitXor(BitXor(w[t - 3], w[t - 8]), w[t - 14]), w[t - 16]));
      }
    }

    /** The four 20-round loops over the 80-word array amount to one compression. */
    method ProcessMessageBlock()
      requires Shape()
      modifies intermediateHash, this`messageBlockIndex
      ensures Hash() == Compress(old(Hash()), messageBlock[..])
      ensures messageBlockIndex == 0
    {
      hide BitAnd, BitOr, BitXor, BitNot, RotL, Wrap32, W;
      ghost var h, blk := Hash(), messageBlock[..];
      var w := MessageSchedule();
      assert messageBlock[..] == blk;
      assert forall t: nat :: t < 80 ==> w[t] == W(blk, t);
      var a: word, b: word, c: word := intermediateHash[0], intermediateHash[1], intermediateHash[2];
      var d: word, e: word := intermediateHash[3], intermediateHash[4];
      for t := 0 to 20
        modifies {}
        invariant Regs(a, b, c, d, e) == Rounds(h, blk, t)
      {
        var temp: word := Wrap32(RotL(5, a) + BitOr(BitAnd(b, c), BitAnd(BitNot(b), d)) + e + w[t] + 0x5A827999);
        RoundStep(h, blk, t, temp);
        e := d;
        d := c;
        c := RotL(30, b);
        b := a;
        a := temp;
      }
      for t := 20 to 40
        modifies {}
        invariant Regs(a, b, c, d, e) == Rounds(h, blk, t)
      {
        var temp: word := Wrap32(RotL(5, a) + BitXor(BitXor(b, c), d) + e + w[t] + 0x6ED9EBA1);
        RoundStep(h, blk, t, temp);
        e := d;
        d := c;
        c := RotL(30, b);
        b := a;
        a := temp;
      }
      for t := 40 to 60
        modifies {}
        invariant Regs(a, b, c, d, e) == Rounds(h, blk, t)
      {
        var temp: word := Wrap32(RotL(5, a) + BitOr(BitOr(BitAnd(b, c), BitAnd(b, d)), BitAnd(c, d)) + e + w[t] + 0x8F1BBCDC);
        RoundStep(h, blk, t, temp);
        e := d;
        d := c;
        c := RotL(30, b);
        b := a;
        a := temp;
      }
      for t := 60 to 80
        modifies {}
        invariant Regs(a, b, c, d, e) == Rounds(h, blk, t)
      {
        var temp: word := Wrap32(RotL(5, a) + BitXor(BitXor(b, c), d) + e + w[t] + 0xCA62C1D6);
        RoundStep(h, blk, t, temp);
        e := d;
        d := c;
        c := RotL(30, b);
        b := a;
        a := temp;
      }
      intermediateHash[0] := Wrap32(intermediateHash[0] + a);
      intermediateHash[1] := Wrap32(intermediateHash[1] + b);
      intermediateHash[2] := Wrap32(intermediateHash[2] + c);
      intermediateHash[3] := Wrap32(intermediateHash[3] + d);
      intermediateHash[4] := Wrap32(intermediateHash[4] + e);
      messageBlockIndex := 0;
    }

    /**
     * Absorbs `length` octets of `data`. Past 2^61 octets the length counter
     * wraps and the context is corrupted, although the call still succeeds.
     */
    method Input(data: array?<byte>, length: uint32) returns (r: int)
      requires Valid()
      requires data != null ==> length <= data.Length && data != messageBlock
      modifies this, intermediateHash, messageBlock
      ensures Valid()
      ensures length == 0 ==> r == SHA_SUCCESS
      ensures length != 0 && data == null ==> r == SHA_NULL
      ensures length == 0 || data == null ==>
                message == old(message) && computed == old(computed) && corrupted == old(corrupted)
      ensures length != 0 && data != null && old(computed) ==> r == corrupted == SHA_STATE_ERROR
      ensures length != 0 && data != null && !old(computed) && old(corrupted) != 0 ==>
                r == corrupted == old(corrupted) && !computed
      ensures length != 0 && data != null && !old(computed) && old(corrupted) == 0 ==>
                && r == SHA_SUCCESS && !computed
                && (if |old(message)| + length < TWO_61
                    then corrupted == 0 && message == old(message) + old(data[..length])
                    else corrupted == LENGTH_WRAPPED)
    {
      if length == 0 {
        return SHA_SUCCESS;
      }
      if data == null {
        return SHA_NULL;
      }
      if computed {
        corrupted := SHA_STATE_ERROR;
        return SHA_STATE_ERROR;
      }
      if corrupted != 0 {
        return corrupted;
      }
      var i := 0;
      while i < length && corrupted == 0
        invariant i <= length
        invariant Shape() && !computed && data[..] == old(data[..])
        invariant corrupted == 0 ==> Absorbed() && message == old(message) + data[..i]
        invariant corrupted != 0 ==> corrupted == LENGTH_WRAPPED && |old(message)| + length >= TWO_61
      {
        AbsorbByte(data[i]);
        assert data[..i + 1] == data[..i] + [data[i]];
        i := i + 1;
      }
      return SHA_SUCCESS;
    }

    /** The split 64-bit counter with its manual carry counts bits until it wraps. */
    method CountOctet(ghost n: nat)
      requires n < TWO_61 && corrupted == 0 && lengthHigh * TWO_32 + lengthLow == 8 * n
      modifies this`lengthLow, this`lengthHigh, this`corrupted
      ensures if n + 1 < TWO_61 then corrupted == 0 && lengthHigh * TWO_32 + lengthLow == 8 * (n + 1)
              else corrupted == LENGTH_WRAPPED && n + 1 == TWO_61
    {
      lengthLow := Wrap32(lengthLow + 8);
      if lengthLow == 0 {
        lengthHigh := Wrap32(lengthHigh + 1);
        if lengthHigh == 0 {
          corrupted := LENGTH_WRAPPED;
        }
      }
    }

    /** One iteration of the loop of `SHA1Input`. */
    method AbsorbByte(x: byte)
      requires Shape() && corrupted == 0 && Absorbed()
      modifies this, intermediateHash, messageBlock
      ensures computed == old(computed)
      ensures if |old(message)| + 1 < TWO_61
              then corrupted == 0 && Absorbed() && message == old(message) + [x]
              else corrupted == LENGTH_WRAPPED
    {
      hide HashBlocks, Compress, Buffered, Wrap32;
      ghost var buf := messageBlock[..messageBlockIndex];
      messageBlock[messageBlockIndex] := x;
      messageBlockIndex := messageBlockIndex + 1;
      CountOctet(|message|);
      BufferAppend(message, buf, Hash(), [x]);
      message := message + [x];
      assert messageBlock[..messageBlockIndex] == buf + [x];
      if messageBlockIndex == 64 {
        assert messageBlock[..] == messageBlock[..64];
        FlushBuffer(message, messageBlock[..], Hash());
        ProcessMessageBlock();
        assert messageBlock[..0] == [];
      }
    }

    /** The zero-filling loop of `SHA1PadMessage`; `m` is what the block continues. */
    method PadZeros(limit: int, ghost m: seq<byte>)
      requires Shape() && 0 <= messageBlockIndex <= limit <= 64
      requires Buffered(m, messageBlock[..messageBlockIndex], Hash())
      modifies this`messageBlockIndex, messageBlock
      ensures messageBlockIndex == limit
      ensures Buffered(m + Zeros(limit - old(messageBlockIndex)), messageBlock[..limit], Hash())
    {
      ghost var buf, n := messageBlock[..messageBlockIndex], messageBlockIndex;
      while messageBlockIndex < limit
        invariant n <= messageBlockIndex <= limit
        invariant messageBlock[..messageBlockIndex] == buf + Zeros(messageBlockIndex - n)
      {
        messageBlock[messageBlockIndex] := 0;
        messageBlockIndex := messageBlockIndex + 1;
      }
      BufferAppend(m, buf, Hash(), Zeros(limit - n));
    }

    /** Stores the octet 0x80 that starts the padding. */
    method PadStart()
      requires Shape() && 0 <= messageBlockIndex < 64
      requires Buffered(message, messageBlock[..messageBlockIndex], Hash())
      modifies this`messageBlockIndex, messageBlock
      ensures messageBlockIndex == old(messageBlockIndex) + 1
      ensures Buffered(message + [0x80], messageBlock[..messageBlockIndex], Hash())
    {
      ghost var buf := messageBlock[..messageBlockIndex];
      messageBlock[messageBlockIndex] := 0x80;
      messageBlockIndex := messageBlockIndex + 1;
      assert messageBlock[..messageBlockIndex] == buf + [0x80];
      BufferAppend(message, buf, Hash(), [0x80]);
    }

    /** The padding up to the length field: in the current block, or through it into a second one. */
    method PadToLength()
      requires Shape() && corrupted == 0 && Absorbed()
      modifies intermediateHash, messageBlock, this`messageBlockIndex
      ensures messageBlockIndex == 56
      ensures Buffered(message + [0x80] + Zeros(ZeroCount(|message|)), messageBlock[..56], Hash())
    {
      hide HashBlocks, Compress, Buffered;
      ghost var k, m := messageBlockIndex, message + [0x80];
      BufferedIndex(message, messageBlock[..k], Hash());
      if messageBlockIndex > 55 {
        PadThroughBlock();
      } else {
        PadStart();
        PadZeros(56, m);
      }
    }

    /** When the length does not fit the current block: zeros to its end, and on in a second one. */
    method PadThroughBlock()
      requires Shape() && 55 < messageBlockIndex < 64
      requires Buffered(message, messageBlock[..messageBlockIndex], Hash())
      modifies intermediateHash, messageBlock, this`messageBlockIndex
      ensures messageBlockIndex == 56
      ensures Buffered(message + [0x80] + Zeros(119 - old(messageBlockIndex)), messageBlock[..56], Hash())
    {
      hide HashBlocks, Compress, Buffered;
      ghost var k, m := messageBlockIndex, message + [0x80];
      PadStart();
      PadZeros(64, m);
      assert messageBlock[..64] == messageBlock[..];
      FlushBuffer(m + Zeros(63 - k), messageBlock[..], Hash());
      ProcessMessageBlock();
      assert messageBlock[..0] == [];
      PadZeros(56, m + Zeros(63 - k));
      assert m + Zeros(63 - k) + Zeros(56) == m + Zeros(119 - k);
    }

    /** Completes the message with the padding of RFC 3174 in one or two final blocks. */
    method PadMessage()
      requires Shape() && corrupted == 0 && Absorbed()
      modifies intermediateHash, messageBlock, this`messageBlockIndex
      ensures Finished()
    {
      hide HashBlocks, Compress, Buffered, ToBE, WordBytes;
      ghost var n := |message|;
      PadToLength();
      ghost var m, buf := message + [0x80] + Zeros(ZeroCount(n)), messageBlock[..56];
      StoreLength();
      LengthOctets(n, lengthHigh, lengthLow);
      assert messageBlock[..] == buf + ToBE(8 * n, 8);
      BufferAppend(m, buf, Hash(), ToBE(8 * n, 8));
      assert Pad(message) == m + ToBE(8 * n, 8);
      FlushBuffer(Pad(message), messageBlock[..], Hash());
      ProcessMessageBlock();
      EmptyBuffer(Pad(message), Hash());
    }

    /** Stores the message length as the last 8 octets of the block. */
    method StoreLength()
      requires Shape()
      modifies messageBlock
      ensures messageBlock[..56] == old(messageBlock[..56])
      ensures messageBlock[56..] == WordBytes(lengthHigh) + WordBytes(lengthLow)
    {
      messageBlock[56] := ShiftRight(lengthHigh, 24) % 256;
      messageBlock[57] := ShiftRight(lengthHigh, 16) % 256;
      messageBlock[58] := ShiftRight(lengthHigh, 8) % 256;
      messageBlock[59] := lengthHigh % 256;
      messageBlock[60] := ShiftRight(lengthLow, 24) % 256;
      messageBlock[61] := ShiftRight(lengthLow, 16) % 256;
      messageBlock[62] := ShiftRight(lengthLow, 8) % 256;
      messageBlock[63] := lengthLow % 256;
    }

    /** The digest of everything absorbed; asking again gives the same digest. */
    method Result(digest: array?<byte>) returns (r: int)
      requires Valid()
      requires digest != null ==> digest.Length >= 20 && digest != messageBlock
      modifies this, intermediateHash, messageBlock, digest
      ensures Valid() && message == old(message) && corrupted == old(corrupted)
      ensures digest == null ==> r == SHA_NULL && computed == old(computed)
      ensures digest != null && old(corrupted) != 0 ==>
                r == old(corrupted) && computed == old(computed) && digest[..] == old(digest[..])
      ensures digest != null && old(corrupted) == 0 ==>
                r == SHA_SUCCESS && computed && digest[..20] == Sha1(message)
    {
      hide HashBlocks, Pad, ShiftRight;
      if digest == null {
        return SHA_NULL;
      }
      if corrupted != 0 {
        return corrupted;
      }
      if !computed {
        PadMessage();
        for i := 0 to 64
          modifies messageBlock
          invariant Finished()
        {
          messageBlock[i] := 0;
        }
        lengthLow := 0;
        lengthHigh := 0;
        computed := true;
      }
      StoreDigest(digest);
      return SHA_SUCCESS;
    }

    /** Writes the hash words as 20 octets, most significant first. */
    method StoreDigest(digest: array<byte>)
      requires Shape() && digest.Length >= 20 && digest != messageBlock
      modifies digest
      ensures digest[..20] == Digest(Hash())
    {
      hide ShiftRight;
      ghost var d := Digest(Hash());
      for i := 0 to 20
        modifies digest
        invariant digest[..i] == d[..i]
      {
        digest[i] := ShiftRight(intermediateHash[i / 4], 8 * (3 - i % 4)) % 256;
        DigestAt(Hash(), i);
      }
    }
  }

  /** Octet i of the digest is octet i mod 4 of word i div 4. */
  lemma DigestAt(h: Regs, i: nat)
    requires i < 20
    ensures var words := [h.a, h.b, h.c, h.d, h.e];
      Digest(h)[i] == ShiftRight(words[i / 4], 8 * (3 - i % 4)) % 256
  {
    hide ShiftRight;
    NoShift(h.a);
    NoShift(h.b);
    NoShift(h.c);
    NoShift(h.d);
    NoShift(h.e);
  }

  lemma NoShift(w: word)
    ensures ShiftRight(w, 0) == w
  {
  }

  function Concat(chunks: seq<seq<byte>>): seq<byte> {
    if chunks == [] then [] else Concat(chunks[..|chunks| - 1]) + chunks[|chunks| - 1]
  }

  lemma ConcatNone(chunks: seq<seq<byte>>)
    ensures Concat(chunks[..0]) == []
  {
  }

  lemma ConcatNext(chunks: seq<seq<byte>>, i: nat)
    requires i < |chunks|
    ensures Concat(chunks[..i + 1]) == Concat(chunks[..i]) + chunks[i]
  {
    assert chunks[..i + 1][..i] == chunks[..i];
  }

  /**
   * Any way of feeding a message chunk by chunk gives the RFC 3174 digest of the
   * whole; a message of 2^61 octets or more is reported as corrupted instead.
   */
  method HashChunks(chunks: seq<seq<byte>>) returns (r: int, digest: seq<byte>)
    requires forall i :: 0 <= i < |chunks| ==> |chunks[i]| < TWO_32
    ensures |Concat(chunks)| < TWO_61 ==> r == SHA_SUCCESS && digest == Sha1(Concat(chunks))
    ensures |Concat(chunks)| >= TWO_61 ==> r == LENGTH_WRAPPED
  {
    hide Sha1, HashBlocks, Pad, Buffered, Concat;
    var context := new Sha1Context();
    ConcatNone(chunks);
    for i := 0 to |chunks|
      invariant fresh(context) && fresh(context.intermediateHash) && fresh(context.messageBlock)
      invariant context.Valid() && !context.computed
      invariant if |Concat(chunks[..i])| < TWO_61
                then context.corrupted == 0 && context.message == Concat(chunks[..i])
                else context.corrupted == LENGTH_WRAPPED
    {
      var chunk := chunks[i];
      ConcatNext(chunks, i);
      var data := new byte[|chunk|](j requires 0 <= j < |chunk| => chunk[j]);
      assert data[..|chunk|] == chunk;
      var _ := context.Input(data, |chunk|);
    }
    assert chunks[..|chunks|] == chunks;
    var out := new byte[20];
    r := context.Result(out);
    digest := out[..20];
  }
}
