// The answer to an accepted handshake: SHA-1, then base 64, in src/ws.c.

module Accept {
  import opened Bytes
  import opened Http
  import opened Headers
  import opened Handshake
  import opened SocketExt
  import opened Sha1Spec
  import Sha1
  import Base64

  const SHA1_HASH_SIZE := 20

  function Guid(): (r: seq<byte>)
    ensures |r| == 36 && 0 !in r
  {
    Ascii("258EAFA5-E914-47DA-") + Ascii("95CA-C5AB0DC85B11")
  }

  /** Sec-WebSocket-Accept of RFC 6455 section 4.2.2. */
  function AcceptKey(key: seq<byte>): seq<byte> {
    Base64.Encode(Sha1Spec.Sha1(key + Guid()))
  }

  /** The accept string is 27 characters of the alphabet and one `=`, and decodes to the digest. */
  lemma AcceptShape(key: seq<byte>)
    ensures var a := AcceptKey(key);
            && |a| == 28 && a[27] == Base64.PADDING
            && (forall i :: 0 <= i < 27 ==> Base64.ValueOf(a[i]).Some?)
            && Base64.Decode(a) == Some(Sha1Spec.Sha1(key + Guid()))
            && Base64.Output(Sha1Spec.Sha1(key + Guid())) == a
            && CString(a) == a
  {
    var digest := Sha1Spec.Sha1(key + Guid());
    EncodedDigest(digest);
    Base64.DecodeEncode(digest);
    Base64.StandardIffPartialGroup(digest);
    CStringWhole(AcceptKey(key));
  }

  lemma EncodedDigest(digest: seq<byte>)
    requires |digest| == SHA1_HASH_SIZE
    ensures var a := Base64.Encode(digest);
            && |a| == 28 && a[27] == Base64.PADDING && 0 !in a
            && forall i :: 0 <= i < 27 ==> Base64.ValueOf(a[i]).Some?
  {
    hide Base64.Body, Base64.ValueOf;
    var b := Base64.Body(digest);
    Base64.BodyLength(digest);
    assert |b| == 27;
    Base64.CharsValues(b);
    var a := Base64.Encode(digest);
    assert forall i :: 0 <= i < 27 ==> a[i] == Base64.Chars(b)[i] == Base64.Alphabet(b[i]);
  }

  const STATUS: seq<byte> := Ascii("HTTP/1.1 101 Switching") + Ascii(" Protocols") + CRLF

  function FieldOf(name: seq<byte>, value: seq<byte>): Field {
    Field(name, [], [SP], value, [])
  }

  /** The header fields of the answer. */
  function AnswerFields(accept: seq<byte>): (r: seq<Field>)
    ensures |r| == 3
  {
    [FieldOf(Ascii("Upgrade"), Ascii("websocket")),
     FieldOf(Ascii("Connection"), Ascii("Upgrade")),
     FieldOf(Ascii("Sec-WebSocket-Accept"), accept)]
  }

  /** The format of `ws_send_handshake_accept` with its argument filled in. */
  function AnswerText(accept: seq<byte>): seq<byte> {
    STATUS
    + Ascii("Upgrade: websocket") + CRLF
    + Ascii("Connection: Upgrade") + CRLF
    + Ascii("Sec-WebSocket-Accept: ") + accept + CRLF + CRLF
  }

  /** `snprintf` keeps what fits before the terminator. */
  function Fitting(text: seq<byte>, size: nat): seq<byte>
    requires size > 0
  {
    if |text| < size then text else text[..size - 1]
  }

  lemma FieldOctets(name: seq<byte>, value: seq<byte>, rest: seq<byte>)
    ensures FieldText(FieldOf(name, value), rest) == name + [COLON, SP] + value + rest
  {
  }

  /** The answer, and whatever is sent after it, is a status line, a header block and its body. */
  lemma AnswerIsBlock(accept: seq<byte>, body: seq<byte>)
    ensures AnswerText(accept) + body == STATUS + BlockText(AnswerFields(accept), body)
  {
    hide FieldText, FieldOf;
    var fields := AnswerFields(accept);
    var t3 := BlockText([], body);
    var t2 := BlockText(fields[2..], body);
    var t1 := BlockText(fields[1..], body);
    assert fields[1..][1..] == fields[2..] && fields[2..][1..] == [];
    assert t3 == CRLF + body;
    FieldOctets(Ascii("Sec-WebSocket-Accept"), accept, CRLF + t3);
    FieldOctets(Ascii("Connection"), Ascii("Upgrade"), CRLF + t2);
    FieldOctets(Ascii("Upgrade"), Ascii("websocket"), CRLF + t1);
    Captions();
  }

  lemma Captions()
    ensures Ascii("Upgrade") + [COLON, SP] + Ascii("websocket") == Ascii("Upgrade: websocket")
    ensures Ascii("Connection") + [COLON, SP] + Ascii("Upgrade") == Ascii("Connection: Upgrade")
    ensures Ascii("Sec-WebSocket-Accept") + [COLON, SP] == Ascii("Sec-WebSocket-Accept: ")
  {
  }

  lemma AnswerLength(accept: seq<byte>)
    ensures |AnswerText(accept)| == 101 + |accept|
  {
  }

  /**
   * A reader of header fields finds the three fields of the answer, the accept string in the
   * last, and then the octets sent after the handshake.
   */
  lemma AnswerRoundTrip(key: seq<byte>, body: seq<byte>)
    requires |body| < TWO_64 - 256
    ensures var a := AcceptKey(key);
            && |AnswerText(a)| < 256
            && BlockRead(AnswerText(a) + body, ScanFrom(AnswerText(a) + body, |STATUS|), AnswerFields(a), body)
  {
    hide BlockRead, ScanFrom, BlockText, AcceptKey, AnswerFields, AnswerText;
    var a := AcceptKey(key);
    AcceptShape(key);
    AnswerLength(a);
    AnswerIsBlock(a, body);
    FieldsWellFormed(a);
    var s := AnswerText(a) + body;
    assert s[|STATUS|..] == BlockText(AnswerFields(a), body);
    BlockRoundTrip(s, |STATUS|, AnswerFields(a), body);
  }

  predicate Visible(s: seq<byte>) {
    forall i :: 0 <= i < |s| ==> s[i] > SP
  }

  lemma VisibleField(name: seq<byte>, value: seq<byte>)
    requires Visible(name) && Visible(value) && name != [] && value != [] && COLON !in name
    ensures WellFormed(FieldOf(name, value))
  {
  }

  lemma FieldsWellFormed(accept: seq<byte>)
    requires |accept| == 28 && accept[27] == Base64.PADDING
    requires forall i :: 0 <= i < 27 ==> Base64.ValueOf(accept[i]).Some?
    ensures forall i :: 0 <= i < 3 ==> WellFormed(AnswerFields(accept)[i])
  {
    hide WellFormed, FieldOf, Visible;
    VisibleUpgrade();
    VisibleWebsocket();
    VisibleConnection();
    VisibleAcceptName();
    AcceptNameWithoutColon();
    VisibleAccept(accept);
    VisibleField(Ascii("Upgrade"), Ascii("websocket"));
    VisibleField(Ascii("Connection"), Ascii("Upgrade"));
    VisibleField(Ascii("Sec-WebSocket-Accept"), accept);
  }

  lemma VisibleUpgrade()
    ensures Visible(Ascii("Upgrade")) && COLON !in Ascii("Upgrade")
  {
  }

  lemma VisibleWebsocket()
    ensures Visible(Ascii("websocket"))
  {
  }

  lemma VisibleConnection()
    ensures Visible(Ascii("Connection")) && COLON !in Ascii("Connection")
  {
  }

  lemma VisibleAcceptName()
    ensures Visible(Ascii("Sec-WebSocket-Accept"))
  {
  }

  lemma AcceptNameWithoutColon()
    ensures COLON !in Ascii("Sec-WebSocket-Accept")
  {
  }

  lemma VisibleAccept(accept: seq<byte>)
    requires |accept| == 28 && accept[27] == Base64.PADDING
    requires forall i :: 0 <= i < 27 ==> Base64.ValueOf(accept[i]).Some?
    ensures Visible(accept)
  {
  }

  /** SHA-1 through the streaming context, in one call of `SHA1Input`. */
  method HashText(text: seq<byte>) returns (digest: array<byte>)
    requires |text| < TWO_32
    ensures fresh(digest) && digest.Length == SHA1_HASH_SIZE && digest[..] == Sha1Spec.Sha1(text)
  {
    hide Sha1Spec.Sha1, Sha1.Buffered, HashBlocks, Pad;
    var context := new Sha1.Sha1Context();
    var data := new byte[|text|](i requires 0 <= i < |text| => text[i]);
    assert data[..|text|] == text;
    var _ := context.Input(data, |text|);
    assert context.message == [] + text == text;
    digest := new byte[SHA1_HASH_SIZE];
    var _ := context.Result(digest);
    assert digest[..] == digest[..20];
  }

  /** The accept string in its 40-octet buffer. */
  method EncodeAccept(key: seq<byte>) returns (accept: array<byte>)
    requires 0 !in key && |key| + 36 < TWO_32
    ensures fresh(accept) && accept.Length == 2 * SHA1_HASH_SIZE
    ensures accept[..29] == AcceptKey(key) + [0]
  {
    hide Sha1Spec.Sha1, Base64.Output, Base64.Decode, Base64.ValueOf, Base64.Encode;
    CStringWhole(key + Guid());
    var keyHash := HashText(CString(key + Guid()));
    accept := new byte[2 * SHA1_HASH_SIZE];
    AcceptShape(key);
    assert Base64.NumChars(20) == 27;
    var acceptLen := Base64.EncodeInto(keyHash[..], accept, accept.Length - 1);
    assert accept[..28] == AcceptKey(key)[..28] == AcceptKey(key);
    accept[acceptLen] := 0;
  }

  /** `ws_send_handshake_accept` */
  method SendHandshakeAccept(sock: Socket, key: seq<byte>) returns (ok: bool)
    requires 0 !in key && |key| + 36 < TWO_32
    modifies sock`output
    ensures sock.reliable ==> ok
    ensures if ok then sock.output == old(sock.output) + AnswerText(AcceptKey(key))
            else exists k: nat :: k < |AnswerText(AcceptKey(key))|
                                  && sock.output == old(sock.output) + AnswerText(AcceptKey(key))[..k]
  {
    hide AnswerText, AcceptKey, BlockRead, AnswerFields;
    var accept := EncodeAccept(key);
    ghost var a := AcceptKey(key);
    AcceptShape(key);
    TextInBuffer(accept[..], a);
    AnswerLength(a);
    var response := Fitting(AnswerText(CString(accept[..])), 256);
    var r := sock.SendN(response, |response|);
    assert response[..|response|] == response;
    ok := r >= 0;
  }

  lemma {:induction false} TextInBuffer(s: seq<byte>, a: seq<byte>)
    requires CString(a) == a && |s| > |a| && s[..|a| + 1] == a + [0]
    ensures CString(s) == a
  {
    if a != [] {
      assert s[0] == (a + [0])[0] == a[0];
      assert s[1..][..|a|] == s[..|a| + 1][1..] == a[1..] + [0];
      TextInBuffer(s[1..], a[1..]);
    }
  }

  // ----- ws_accept -----

  /**
   * `ws_accept` once the header octets are received: the decision, and what of the answer is
   * on the wire.
   */
  method AcceptClient(sock: Socket, request: seq<byte>) returns (r: Outcome, sent: bool)
    requires 0 !in request && |request| + 36 < TWO_32
    modifies sock`output
    ensures r == Decision(request)
    ensures r.Refused? ==> !sent && sock.output == old(sock.output)
    ensures r.Accepted? && sock.reliable ==> sent
    ensures r.Accepted? && sent ==> sock.output == old(sock.output) + AnswerText(AcceptKey(r.key))
    ensures r.Accepted? && !sent ==>
              exists k: nat :: k < |AnswerText(AcceptKey(r.key))|
                               && sock.output == old(sock.output) + AnswerText(AcceptKey(r.key))[..k]
  {
    hide Decision, AnswerText, AcceptKey;
    r := ParseConnectRequest(request);
    sent := false;
    if r.Accepted? {
      KeyOfRequest(request);
      sent := SendHandshakeAccept(sock, r.key);
    }
  }

  /** An accepted key is a piece of the request. */
  lemma KeyOfRequest(s: seq<byte>)
    requires 0 !in s && Decision(s).Accepted?
    ensures 0 !in Decision(s).key && |Decision(s).key| <= |s|
  {
    hide ParseRequest, ScanFrom, KnownMethod;
    var line := ParseRequest(s).value;
    var calls := ScanFrom(s, line.next).calls;
    CallsStartInside(s, line.next);
    var views := ViewsOf(s, calls);
    forall i | 0 <= i < |views|
      ensures 0 !in views[i].value && |views[i].value| <= |s|
    {
      assert views[i] == ViewOf(s, calls[i]);
    }
    FoldKey(views, s);
  }

  lemma {:induction false} FoldKey(views: seq<FieldView>, s: seq<byte>)
    requires forall i :: 0 <= i < |views| ==> 0 !in views[i].value && |views[i].value| <= |s|
    ensures Fold(views).key.Some? ==> 0 !in Fold(views).key.value && |Fold(views).key.value| <= |s|
  {
    hide Classify, AsksUpgrade, ToWebsocket, VersionOf;
    if views != [] {
      FoldKey(views[..|views| - 1], s);
    }
  }
}
