// A stream socket and the loops of src/socket_ext.c that move whole buffers
// through it. The network may move any positive part of a request at a time.

module SocketExt {
  import opened Bytes

  /** `recv_handler_t`: called with the octets received so far and the extent of the last chunk. */
  type Handler = (seq<byte>, nat, nat) -> bool

  /** The handler argument `NULL`. */
  function NoHandler(received: seq<byte>, chunkOffset: nat, chunkLen: nat): bool {
    false
  }

  class Socket {
    /** Octets that will arrive before the peer closes its end. */
    var input: seq<byte>
    /** Octets handed to the network. */
    var output: seq<byte>
    /** Whether every system call on this socket succeeds. */
    const reliable: bool

    constructor (input: seq<byte>, reliable: bool)
      ensures this.input == input && output == [] && this.reliable == reliable
    {
      this.input, this.output, this.reliable := input, [], reliable;
    }

    /** `recv`: an error, the end of the stream, or any positive number of octets. */
    method Recv(buf: array<byte>, offset: nat, size: nat) returns (n: int)
      requires 0 < size && offset + size <= buf.Length
      modifies this`input, buf
      ensures -1 <= n <= size && n <= |old(input)|
      ensures n == 0 ==> old(input) == []
      ensures reliable ==> n >= 0
      ensures n < 0 ==> input == old(input) && buf[..] == old(buf[..])
      ensures n >= 0 ==> input == old(input[n..])
      ensures n >= 0 ==> buf[..] == old(buf[..offset] + input[..n] + buf[offset + n..])
    {
      var most := if |input| < size then |input| else size;
      assert reliable || -1 <= most;
      n :| -1 <= n <= most && (n == 0 ==> most == 0) && (reliable ==> n >= 0);
      if n >= 0 {
        forall i | 0 <= i < n {
          buf[offset + i] := input[i];
        }
        input := input[n..];
      }
    }

    /** `send`: an error, or any positive number of octets accepted by the network. */
    method Send(buf: seq<byte>) returns (n: int)
      requires buf != []
      modifies this`output
      ensures -1 <= n <= |buf| && n != 0
      ensures reliable ==> n > 0
      ensures output == old(output) + (if n < 0 then [] else buf[..n])
    {
      n :| -1 <= n <= |buf| && n != 0 && (reliable ==> n > 0);
      if n > 0 {
        output := output + buf[..n];
      }
    }

    /**
     * `recv_n`: receives until the buffer is full, the stream ends or the handler
     * is satisfied. The octets received are exactly those consumed from the stream.
     */
    method RecvN(buf: array<byte>, size: int, handler: Handler) returns (len: int)
      requires size <= buf.Length
      modifies this`input, buf
      ensures reliable ==> len >= 0
      ensures len >= 0 ==>
                && len <= |old(input)| && (len == 0 || len <= size)
                && buf[..len] == old(input[..len]) && input == old(input[len..])
                && buf[len..] == old(buf[len..])
      ensures len >= 0 && len < size && len < |old(input)| ==>
                exists k: nat, d: nat :: handler(old(input[..len]), k, d)
      ensures exists k: nat :: k <= |old(input)| && input == old(input[k..])
    {
      len := 0;
      while true
        invariant 0 <= len <= |old(input)| && (len == 0 || len <= size)
        invariant buf[..len] == old(input[..len]) && input == old(input[len..])
        invariant buf[len..] == old(buf[len..])
        decreases size - len
      {
        if len >= size {
          break;
        }
        var recvLen := Recv(buf, len, size - len);
        if recvLen < 0 {
          return recvLen;
        }
        if recvLen == 0 {
          break;
        }
        len := len + recvLen;
        if handler(buf[..len], len - recvLen, recvLen) {
          break;
        }
      }
    }

    /** `send_n`: sends the whole buffer in order, or a proper prefix of it before an error. */
    method SendN(buf: seq<byte>, size: int) returns (len: int)
      requires size <= |buf|
      modifies this`output
      ensures reliable ==> len >= 0
      ensures len >= 0 ==> len == (if size > 0 then size else 0) && output == old(output) + buf[..len]
      ensures len < 0 ==> exists k: nat :: k < size && output == old(output) + buf[..k]
    {
      len := 0;
      while true
        invariant 0 <= len && (len == 0 || len <= size) && len <= |buf|
        invariant output == old(output) + buf[..len]
        decreases size - len
      {
        if len >= size {
          break;
        }
        var sendLen := Send(buf[len..size]);
        if sendLen < 0 {
          return sendLen;
        }
        if sendLen == 0 {
          break;
        }
        assert buf[..len] + buf[len..size][..sendLen] == buf[..len + sendLen];
        len := len + sendLen;
      }
    }
  }
}
