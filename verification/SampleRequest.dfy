// The handshake request of RFC 6455, section 1.2, and its answer.

module SampleRequest {
  import opened Bytes
  import opened StringExt
  import opened Http
  import opened Headers
  import opened Handshake
  import opened Accept
  import opened RequestOctets
  import opened SampleAnswer
  import Rfc6455
  import Disagreements

  function Line(name: string, value: string): Field {
    Field(Ascii(name), [], [0x20], Ascii(value), [])
  }

  function SampleFields(): seq<Field> {
    [Line("Host", "server.example.com"),
     Line("Upgrade", "websocket"),
     Line("Connection", "Upgrade"),
     Line("Sec-WebSocket-Key", "dGhlIHNhbXBsZSBub25jZQ=="),
     Line("Origin", "http://example.com"),
     Line("Sec-WebSocket-Protocol", "chat, superchat"),
     Line("Sec-WebSocket-Version", "13")]
  }

  function Sample(): seq<byte> {
    Octets(Ascii("GET"), [0x20], Ascii("/chat"), [0x20], Ascii("1"), Ascii("1"), SampleFields(), [])
  }

  lemma NamesWritten()
    ensures Without(Ascii("Host"), {0x20, 0x09, 0x3A, 0x0D}) && Without(Ascii("Upgrade"), {0x20, 0x09, 0x3A, 0x0D})
    ensures Without(Ascii("Connection"), {0x20, 0x09, 0x3A, 0x0D}) && Without(Ascii("Origin"), {0x20, 0x09, 0x3A, 0x0D})
    ensures Without(Ascii("Sec-WebSocket-Key"), {0x20, 0x09, 0x3A, 0x0D})
    ensures Without(Ascii("Sec-WebSocket-Protocol"), {0x20, 0x09, 0x3A, 0x0D})
    ensures Without(Ascii("Sec-WebSocket-Version"), {0x20, 0x09, 0x3A, 0x0D})
  {
    hide Without;
    HostWritten();
    ConnectionWritten();
    KeyNameWritten();
    ProtocolNameWritten();
    VersionNameWritten();
  }

  lemma HostWritten()
    ensures Without(Ascii("Host"), {0x20, 0x09, 0x3A, 0x0D}) && Without(Ascii("Upgrade"), {0x20, 0x09, 0x3A, 0x0D})
  {
  }

  lemma ConnectionWritten()
    ensures Without(Ascii("Connection"), {0x20, 0x09, 0x3A, 0x0D}) && Without(Ascii("Origin"), {0x20, 0x09, 0x3A, 0x0D})
  {
  }

  lemma KeyNameWritten()
    ensures Without(Ascii("Sec-WebSocket-Key"), {0x20, 0x09, 0x3A, 0x0D})
  {
  }

  lemma ProtocolNameWritten()
    ensures Without(Ascii("Sec-WebSocket-Protocol"), {0x20, 0x09, 0x3A, 0x0D})
  {
  }

  lemma VersionNameWritten()
    ensures Without(Ascii("Sec-WebSocket-Version"), {0x20, 0x09, 0x3A, 0x0D})
  {
  }

  predicate PlainText(s: seq<byte>) {
    s != [] && Without(s, {0x0D}) && s[0] !in {0x20, 0x09} && s[|s| - 1] != 0x20
  }

  lemma ValuesWritten()
    ensures PlainText(Ascii("server.example.com")) && PlainText(Ascii("websocket")) && PlainText(Ascii("Upgrade"))
    ensures PlainText(Ascii("http://example.com")) && PlainText(Ascii("chat, superchat")) && PlainText(Ascii("13"))
  {
    hide PlainText;
    ServerWritten();
    WebsocketWritten();
    OriginWritten();
    ChatWritten();
  }

  lemma ServerWritten()
    ensures PlainText(Ascii("server.example.com"))
  {
  }

  lemma WebsocketWritten()
    ensures PlainText(Ascii("websocket")) && PlainText(Ascii("Upgrade")) && PlainText(Ascii("13"))
  {
  }

  lemma OriginWritten()
    ensures PlainText(Ascii("http://example.com"))
  {
  }

  lemma ChatWritten()
    ensures PlainText(Ascii("chat, superchat"))
  {
  }

  lemma KeyWritten()
    ensures PlainText(Ascii("dGhlIHNhbXBsZSBub25jZQ=="))
  {
  }

  lemma LineWritten(name: string, value: string)
    requires name != "" && Without(Ascii(name), {0x20, 0x09, 0x3A, 0x0D}) && PlainText(Ascii(value))
    requires |name| < 30 && |value| < 30
    ensures Written(Line(name, value)) && |LineOctets(Line(name, value))| < 70
  {
  }

  lemma SampleWritten()
    ensures forall i :: 0 <= i < 7 ==> Written(SampleFields()[i]) && |LineOctets(SampleFields()[i])| < 70
  {
    hide Ascii, Without, PlainText, Written, LineOctets, Line;
    NamesWritten();
    ValuesWritten();
    KeyWritten();
    LineWritten("Host", "server.example.com");
    LineWritten("Upgrade", "websocket");
    LineWritten("Connection", "Upgrade");
    LineWritten("Sec-WebSocket-Key", "dGhlIHNhbXBsZSBub25jZQ==");
    LineWritten("Origin", "http://example.com");
    LineWritten("Sec-WebSocket-Protocol", "chat, superchat");
    LineWritten("Sec-WebSocket-Version", "13");
  }

  lemma {:induction false} OctetsLength(fields: seq<Field>)
    requires forall i :: 0 <= i < |fields| ==> |LineOctets(fields[i])| < 70
    ensures |BlockOctets(fields, [])| <= 70 * |fields| + 2
  {
    if fields != [] {
      hide LineOctets;
      OctetsLength(fields[1..]);
    }
  }

  lemma FirstLetters()
    ensures Ascii("Host")[0] == 'H' as int && Ascii("Origin")[0] == 'O' as int
  {
  }

  /** What each name stands for. */
  lemma SampleClasses()
    ensures Classify(Ascii("Connection")) == Connection && Classify(Ascii("Upgrade")) == Upgrade
  {
    assert Ascii("Connection")[0] == 'C' as int && Ascii("Upgrade")[0] == 'U' as int;
  }

  lemma OtherClass(name: seq<byte>)
    requires name != [] && name[0] in {'H' as int, 'O' as int}
    ensures Classify(name) == Other
  {
    assert Ascii("Connection")[0] == 'C' as int && Ascii("Upgrade")[0] == 'U' as int;
    assert Ascii("Sec-WebSocket-Version")[0] == 'S' as int && Ascii("Sec-WebSocket-Key")[0] == 'S' as int;
  }

  lemma SocketClasses()
    ensures Classify(Ascii("Sec-WebSocket-Version")) == Version && Classify(Ascii("Sec-WebSocket-Key")) == Key
    ensures Classify(Ascii("Sec-WebSocket-Protocol")) == Other
  {
    var v, k, p := Ascii("Sec-WebSocket-Version"), Ascii("Sec-WebSocket-Key"), Ascii("Sec-WebSocket-Protocol");
    assert Ascii("Connection")[0] == 'C' as int && Ascii("Upgrade")[0] == 'U' as int;
    assert v[0] == k[0] == p[0] == 'S' as int;
    assert v[14] == 'V' as int && k[14] == 'K' as int && p[14] == 'P' as int;
  }

  lemma SampleValues(f: FieldView)
    requires f.whole && f.value == Ascii("13")
    ensures AsksUpgrade(Ascii("Upgrade")) && ToWebsocket(Ascii("websocket")) && VersionOf(f) == 13
  {
    hide HasToken;
    Rfc6455.Thirteen();
  }

  lemma SampleViews() returns (views: seq<FieldView>)
    ensures |SampleFields()| == 7 && views == FieldViews(SampleFields()) && |views| == 7
    ensures views[0].name == Ascii("Host")
    ensures views[1] == FieldView(Ascii("Upgrade"), Ascii("websocket"), true)
    ensures views[2] == FieldView(Ascii("Connection"), Ascii("Upgrade"), true)
    ensures views[3] == FieldView(Ascii("Sec-WebSocket-Key"), Ascii("dGhlIHNhbXBsZSBub25jZQ=="), true)
    ensures views[4].name == Ascii("Origin") && views[5].name == Ascii("Sec-WebSocket-Protocol")
    ensures views[6] == FieldView(Ascii("Sec-WebSocket-Version"), Ascii("13"), true)
  {
    hide Ascii;
    views := FieldViews(SampleFields());
  }

  lemma SampleFieldsAccepted()
    ensures Decide(Ascii("GET"), PackVersion(1, 1), Fold(FieldViews(SampleFields())))
         == Accepted(Ascii("dGhlIHNhbXBsZSBub25jZQ=="))
  {
    hide Ascii, Fold, Decide, Classify, AsksUpgrade, ToWebsocket, VersionOf, KnownMethod, Consistent, FieldViews, SampleFields;
    var views := SampleViews();
    SampleClasses();
    assert views[0].name[0] == 'H' as int && views[4].name[0] == 'O' as int by {
      FirstLetters();
    }
    OtherClass(views[0].name);
    OtherClass(views[4].name);
    SocketClasses();
    SampleValues(views[6]);
    MethodsKnown(0);
    SingleFieldsAreConsistent(views);
    assert views[1] in views && views[2] in views && views[3] in views && views[6] in views;
    AcceptedIff(Ascii("GET"), PackVersion(1, 1), views, Ascii("dGhlIHNhbXBsZSBub25jZQ=="));
  }

  lemma SampleLine()
    ensures Without(Ascii("GET"), {0x20, 0x0D}) && Without(Ascii("/chat"), {0x20, 0x0D})
    ensures Figures(Ascii("1")) && AllDigits(Ascii("1")) && DecimalValue(Ascii("1")) == 1
  {
    Disagreements.OneDigit(Ascii("1"));
  }

  /** The request is accepted with its key, and answered with the accept string of section 1.3. */
  lemma SampleHandshake()
    ensures Decision(Sample()) == Accepted(Ascii("dGhlIHNhbXBsZSBub25jZQ=="))
    ensures AcceptKey(Decision(Sample()).key) == Ascii("s3pPLMBiTxaQ9kYGzzhZRbK+xOo=")
  {
    hide Ascii, Decision, Without, Written, LineOctets, BlockOctets, KnownMethod, DecimalValue, PackVersion, FieldViews, Fold,
         Decide, SampleFields, Figures, Only, AcceptKey;
    SampleAccept();
    SampleLine();
    SampleWritten();
    var views := SampleViews();
    OctetsLength(SampleFields());
    MethodsKnown(0);
    assert Only([0x20], {0x20}) by {
      OneSpace();
    }
    SampleFieldsAccepted();
    OctetsDecided(Ascii("GET"), [0x20], Ascii("/chat"), [0x20], Ascii("1"), Ascii("1"), SampleFields(), []);
  }

  lemma OneSpace()
    ensures Only([0x20], {0x20})
  {
  }
}
