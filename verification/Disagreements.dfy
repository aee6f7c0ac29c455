// Requests on which src/ws.c and RFC 6455 disagree, one in each direction.

module Disagreements {
  import opened Bytes
  import opened StringExt
  import opened Http
  import Headers
  import opened Handshake
  import opened Accept
  import opened Rfc6455
  import Base64

  /** `GET / HTTP/major.minor` with these fields. */
  function RequestOf(major: seq<byte>, minor: seq<byte>, fields: seq<Headers.Field>): seq<byte> {
    RequestText(Ascii("GET"), [SP], Ascii("/"), [SP], major, minor, Headers.BlockText(fields, []))
  }

  lemma {:induction false} BlockLength(fields: seq<Headers.Field>)
    requires forall i :: 0 <= i < |fields| ==> Headers.LineLength(fields[i]) < 100
    ensures |Headers.BlockText(fields, [])| <= 102 * |fields| + 2
  {
    if fields != [] {
      BlockLength(fields[1..]);
    }
  }

  /** The decision on such a request is that of its version and fields. */
  lemma DecisionOf(major: seq<byte>, minor: seq<byte>, fields: seq<Headers.Field>)
    requires |major| == |minor| == 1 && AllDigits(major) && AllDigits(minor) && |fields| <= 5
    requires forall i :: 0 <= i < |fields| ==> Headers.WellFormed(fields[i]) && Headers.LineLength(fields[i]) < 100
    ensures Decision(RequestOf(major, minor, fields))
         == Decide(Ascii("GET"), PackVersion(major[0] - ZERO, minor[0] - ZERO), Fold(FieldViews(fields)))
  {
    hide Decision, Headers.BlockText, Headers.WellFormed, KnownMethod, DecimalValue, FieldViews, Fold, Decide, PackVersion;
    BlockLength(fields);
    MethodsKnown(0);
    OneDigit(major);
    OneDigit(minor);
    ConnectRoundTrip(Ascii("GET"), [SP], Ascii("/"), [SP], major, minor, fields, []);
  }

  lemma OneDigit(s: seq<byte>)
    requires |s| == 1 && AllDigits(s)
    ensures DecimalValue(s) == s[0] - ZERO
  {
    assert s[..0] == [];
  }

  function OddFields(): seq<Headers.Field> {
    [FieldOf(Ascii("C"), Ascii("U")), FieldOf(Ascii("U"), Ascii("w")), FieldOf(Ascii("S"), Ascii("13")),
     FieldOf(Ascii("Sec-WebSocket-K"), Ascii("x"))]
  }

  lemma OddFieldsFormed()
    ensures forall i :: 0 <= i < 4 ==> Headers.WellFormed(OddFields()[i]) && Headers.LineLength(OddFields()[i]) < 100
  {
    hide Headers.WellFormed, Visible;
    VisibleLetters();
    VisibleShortKey();
    VisibleField(Ascii("C"), Ascii("U"));
    VisibleField(Ascii("U"), Ascii("w"));
    VisibleField(Ascii("S"), Ascii("13"));
    VisibleField(Ascii("Sec-WebSocket-K"), Ascii("x"));
  }

  lemma OddClasses()
    ensures Classify(Ascii("C")) == Connection && Classify(Ascii("U")) == Upgrade && Classify(Ascii("S")) == Version
  {
    assert Ascii("Connection")[0] == 'C' as int && Ascii("Upgrade")[0] == 'U' as int;
    assert Ascii("Sec-WebSocket-Version")[0] == 'S' as int;
  }

  lemma OddKeyClass()
    ensures Classify(Ascii("Sec-WebSocket-K")) == Key
  {
    assert Ascii("Connection")[0] == 'C' as int && Ascii("Upgrade")[0] == 'U' as int;
    assert Ascii("Sec-WebSocket-Version")[14] == 'V' as int && Ascii("Sec-WebSocket-K")[14] == 'K' as int;
  }

  /** Names and values of one letter, an old version, no Host and no valid key: the source accepts what RFC 6455 refuses. */
  lemma WronglyAccepted()
    ensures Decision(RequestOf(Ascii("0"), Ascii("9"), OddFields())) == Accepted(Ascii("x"))
    ensures !Demanded(Ascii("GET"), 0, 9, FieldViews(OddFields()), Ascii("x"))
  {
    hide Decision, Headers.WellFormed, Fold, Decide, RequestOf, FieldViews, OddFields, Headers.LineLength, Demanded;
    OddFieldsFormed();
    var views := OddViews();
    DecisionOf(Ascii("0"), Ascii("9"), OddFields());
    OddAccepted(views);
    assert !Demanded(Ascii("GET"), 0, 9, views, Ascii("x")) by {
      OldVersionRefused(views);
    }
  }

  lemma OddViews() returns (views: seq<FieldView>)
    ensures views == [TextField("C", Ascii("U")), TextField("U", Ascii("w")), TextField("S", Ascii("13")),
                      TextField("Sec-WebSocket-K", Ascii("x"))]
    ensures |OddFields()| == 4 && views == FieldViews(OddFields())
  {
    views := [TextField("C", Ascii("U")), TextField("U", Ascii("w")), TextField("S", Ascii("13")),
              TextField("Sec-WebSocket-K", Ascii("x"))];
  }

  lemma OldVersionRefused(fs: seq<FieldView>)
    ensures !Demanded(Ascii("GET"), 0, 9, fs, Ascii("x"))
  {
  }

  lemma OddAccepted(views: seq<FieldView>)
    requires views == [TextField("C", Ascii("U")), TextField("U", Ascii("w")), TextField("S", Ascii("13")),
                       TextField("Sec-WebSocket-K", Ascii("x"))]
    ensures Decide(Ascii("GET"), PackVersion(0, 9), Fold(views)) == Accepted(Ascii("x"))
  {
    hide Fold, Decide, Classify, AsksUpgrade, ToWebsocket, VersionOf, KnownMethod, Consistent, PackVersion;
    OddClasses();
    OddKeyClass();
    OddValues(views[2]);
    MethodsKnown(0);
    VersionBound(0, 9);
    SingleFieldsAreConsistent(views);
    assert views[0] in views && views[1] in views && views[2] in views && views[3] in views;
    AcceptedIff(Ascii("GET"), PackVersion(0, 9), views, Ascii("x"));
  }

  lemma OddValues(f: FieldView)
    requires f.whole && f.value == Ascii("13")
    ensures AsksUpgrade(Ascii("U")) && ToWebsocket(Ascii("w")) && VersionOf(f) == 13
  {
    Thirteen();
  }

  /** A request that RFC 6455 accepts, its Upgrade field a list. */
  function ListFields(): seq<Headers.Field> {
    [FieldOf(Ascii("Host"), Ascii("x")), FieldOf(Ascii("Connection"), Ascii("Upgrade")),
     FieldOf(Ascii("Upgrade"), Ascii("websocket, h2c")), FieldOf(Ascii("Sec-WebSocket-Version"), Ascii("13")),
     FieldOf(Ascii("Sec-WebSocket-Key"), SomeNonce())]
  }

  /** The source refuses it. */
  lemma WronglyRefused()
    ensures Demanded(Ascii("GET"), 1, 1, FieldViews(ListFields()), SomeNonce())
    ensures Decision(RequestOf(Ascii("1"), Ascii("1"), ListFields())).Refused?
  {
    hide Decision, Headers.WellFormed, Fold, Decide, Classify, RequestOf, Demanded, Nonce, Headers.LineLength, ListFields,
         Five, TextField, FieldViews, Classes, DemandsConnection, DemandsUpgrade, DemandsVersion, DemandsKey, ToWebsocket,
         PackVersion, SomeNonce;
    ListFieldsFormed();
    var c, u, v, k := ListViews();
    DecisionOf(Ascii("1"), Ascii("1"), ListFields());
    ListReadings(c, u, v, k);
    FiveDemanded(c, u, v, k, SomeNonce());
    ListRefused(c, u, v, k);
  }

  lemma ListViews() returns (c: FieldView, u: FieldView, v: FieldView, k: FieldView)
    ensures c == TextField("Connection", Ascii("Upgrade")) && u == TextField("Upgrade", Ascii("websocket, h2c"))
    ensures v == TextField("Sec-WebSocket-Version", Ascii("13")) && k == TextField("Sec-WebSocket-Key", SomeNonce())
    ensures |ListFields()| == 5 && FieldViews(ListFields()) == Five(c, u, v, k)
  {
    hide SomeNonce;
    c, u := TextField("Connection", Ascii("Upgrade")), TextField("Upgrade", Ascii("websocket, h2c"));
    v, k := TextField("Sec-WebSocket-Version", Ascii("13")), TextField("Sec-WebSocket-Key", SomeNonce());
  }

  lemma ListReadings(c: FieldView, u: FieldView, v: FieldView, k: FieldView)
    requires c == TextField("Connection", Ascii("Upgrade")) && u == TextField("Upgrade", Ascii("websocket, h2c"))
    requires v == TextField("Sec-WebSocket-Version", Ascii("13")) && k == TextField("Sec-WebSocket-Key", SomeNonce())
    ensures Classes(c, u, v, k) && !ToWebsocket(u.value)
    ensures DemandsConnection(c) && DemandsUpgrade(u) && DemandsVersion(v) && DemandsKey(k, SomeNonce())
  {
    hide Classify, HasItem, Headers.RfcValue, Nonce;
    NamedClass(c);
    NamedClass(u);
    NamedClass(v);
    NamedKeyClass(k);
    UpgradeItem(c.value);
    ListItem();
    Thirteen();
    NonceIsTrimmed(SomeNonce());
  }

  lemma ListItem()
    ensures HasItem(Ascii("websocket, h2c"), "websocket")
  {
    var s := Ascii("websocket, h2c");
    assert s[0..9] == Ascii("websocket");
    assert BlankRun(s, 0, 0) && BlankRun(s, 9, 9) && s[9] == 0x2C;
    assert forall k :: 0 <= k < 9 ==> s[k] == Ascii("websocket")[k];
    SameLetters(s[0..9], Ascii("websocket"));
    assert ItemAt(s, 0, 9);
  }

  /** Whatever the key, an Upgrade field that the source does not read makes it refuse. */
  lemma ListRefused(c: FieldView, u: FieldView, v: FieldView, k: FieldView)
    requires Classes(c, u, v, k) && !ToWebsocket(u.value)
    ensures Decide(Ascii("GET"), PackVersion(1, 1), Fold(Five(c, u, v, k))).Refused?
  {
    hide Fold, Classify, ToWebsocket, AsksUpgrade, VersionOf, PackVersion, Five;
    FiveConsistent(c, u, v, k);
    FiveFields(c, u, v, k);
    HostClass();
    FoldCollects(Five(c, u, v, k));
  }

  lemma ListFieldsFormed()
    ensures forall i :: 0 <= i < 5 ==> Headers.WellFormed(ListFields()[i]) && Headers.LineLength(ListFields()[i]) < 100
  {
    hide Headers.WellFormed, Visible;
    VisibleUpgrade();
    VisibleConnection();
    VisibleLetters();
    VisibleHost();
    VisibleVersionName();
    VersionNameWithoutColon();
    VisibleKeyName();
    VisibleKey();
    VisibleField(Ascii("Host"), Ascii("x"));
    VisibleField(Ascii("Connection"), Ascii("Upgrade"));
    ListFieldFormed();
    VisibleField(Ascii("Sec-WebSocket-Version"), Ascii("13"));
    VisibleField(Ascii("Sec-WebSocket-Key"), SomeNonce());
  }

  lemma ListFieldFormed()
    ensures Headers.WellFormed(FieldOf(Ascii("Upgrade"), Ascii("websocket, h2c")))
  {
  }

  lemma VisibleLetters()
    ensures Visible(Ascii("C")) && Visible(Ascii("U")) && Visible(Ascii("S")) && Visible(Ascii("w")) && Visible(Ascii("x"))
    ensures COLON !in Ascii("C") && COLON !in Ascii("U") && COLON !in Ascii("S") && Visible(Ascii("13"))
  {
  }

  lemma VisibleShortKey()
    ensures Visible(Ascii("Sec-WebSocket-K")) && COLON !in Ascii("Sec-WebSocket-K")
  {
  }

  lemma VisibleHost()
    ensures Visible(Ascii("Host")) && COLON !in Ascii("Host")
  {
  }

  lemma VisibleVersionName()
    ensures Visible(Ascii("Sec-WebSocket-Version"))
  {
  }

  lemma VersionNameWithoutColon()
    ensures COLON !in Ascii("Sec-WebSocket-Version")
  {
  }

  lemma VisibleKeyName()
    ensures Visible(Ascii("Sec-WebSocket-Key")) && COLON !in Ascii("Sec-WebSocket-Key")
  {
  }

  lemma VisibleKey()
    ensures Visible(SomeNonce()) && 0 < |SomeNonce()| < 50
  {
    hide Base64.Body;
    Base64.BodyLength(Zeros(16));
  }
}
