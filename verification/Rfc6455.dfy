// What section 4.2.1 of RFC 6455 demands of a client's handshake, and on which
// header fields the tests of src/ws.c amount to that.

module Rfc6455 {
  import opened Bytes
  import opened StringExt
  import opened Http
  import opened Headers
  import opened Handshake
  import Base64

  // ----- the demand -----

  predicate Named(f: FieldView, name: string) {
    SameText(f.name, Ascii(name))
  }

  /** Spaces and tabs. */
  predicate BlankRun(s: seq<byte>, i: nat, j: nat)
    requires i <= j <= |s|
  {
    forall k :: i <= k < j ==> s[k] == 0x20 || s[k] == 0x09
  }

  /** Only blanks stand between `i` and the comma or the start before it. */
  predicate CommaBefore(s: seq<byte>, i: nat)
    requires i <= |s|
  {
    exists a :: 0 <= a <= i && (a == 0 || s[a - 1] == 0x2C) && BlankRun(s, a, i)
  }

  /** Only blanks stand between `j` and the comma or the end after it. */
  predicate CommaAfter(s: seq<byte>, j: nat)
    requires j <= |s|
  {
    exists b :: j <= b <= |s| && (b == |s| || s[b] == 0x2C) && BlankRun(s, j, b)
  }

  /** `s[i..j]` is an item of a comma-separated list without blanks in it, as section 7 of RFC 7230 defines it. */
  predicate ItemAt(s: seq<byte>, i: nat, j: nat) {
    && i < j <= |s|
    && (forall k :: i <= k < j ==> s[k] != 0x2C && s[k] != 0x20 && s[k] != 0x09)
    && CommaBefore(s, i) && CommaAfter(s, j)
  }

  ghost predicate HasItem(s: seq<byte>, text: string) {
    exists i: nat, j: nat :: ItemAt(s, i, j) && SameText(s[i..j], Ascii(text))
  }

  ghost predicate DemandsConnection(f: FieldView) {
    Named(f, "Connection") && HasItem(f.value, "Upgrade")
  }

  ghost predicate DemandsUpgrade(f: FieldView) {
    Named(f, "Upgrade") && HasItem(f.value, "websocket")
  }

  predicate DemandsVersion(f: FieldView) {
    Named(f, "Sec-WebSocket-Version") && RfcValue(f.value) == Ascii("13")
  }

  predicate DemandsKey(f: FieldView, key: seq<byte>) {
    Named(f, "Sec-WebSocket-Key") && RfcValue(f.value) == key
  }

  /** The key is the base 64 encoding of 16 octets. */
  predicate Nonce(key: seq<byte>) {
    Base64.Decode(key).Some? && |Base64.Decode(key).value| == 16
  }

  predicate HttpAtLeast11(major: nat, minor: nat) {
    major > 1 || (major == 1 && minor >= 1)
  }

  predicate HasHost(fs: seq<FieldView>) {
    exists i :: 0 <= i < |fs| && Named(fs[i], "Host")
  }

  /** The opening handshake of section 4.2.1: items 1 to 6. */
  ghost predicate Demanded(name: seq<byte>, major: nat, minor: nat, fs: seq<FieldView>, key: seq<byte>) {
    && name == Ascii("GET") && HttpAtLeast11(major, minor)
    && HasHost(fs)
    && (exists f :: f in fs && DemandsUpgrade(f))
    && (exists f :: f in fs && DemandsConnection(f))
    && (exists f :: f in fs && DemandsKey(f, key)) && Nonce(key)
    && (exists f :: f in fs && DemandsVersion(f))
  }

  // ----- the source's reading of a field -----

  ghost predicate ReadsConnection(f: FieldView) {
    Classify(f.name) == Connection && AsksUpgrade(f.value)
  }

  predicate ReadsUpgrade(f: FieldView) {
    Classify(f.name) == Upgrade && ToWebsocket(f.value)
  }

  predicate ReadsVersion(f: FieldView) {
    Classify(f.name) == Version && VersionOf(f) == WS_PROTOCOL_VERSION
  }

  predicate ReadsKey(f: FieldView, key: seq<byte>) {
    Classify(f.name) == Key && f.value == key
  }

  /** The source takes from a field what the standard takes from it; of keys only the valid ones matter. */
  ghost predicate SameReading(f: FieldView) {
    && (ReadsConnection(f) <==> DemandsConnection(f))
    && (ReadsUpgrade(f) <==> DemandsUpgrade(f))
    && (ReadsVersion(f) <==> DemandsVersion(f))
    && forall key :: Nonce(key) ==> (ReadsKey(f, key) <==> DemandsKey(f, key))
  }

  predicate ProperPrefix(a: seq<byte>, b: string) {
    Begins(a, Ascii(b)) && |a| < |b|
  }

  /**
   * The families of fields on which the two differ are shut out: names and values that are proper
   * prefixes (case aside) of the ones expected, an upgrade token set off by blanks instead of
   * commas, `websocket` in a list or with a tab after it, other spellings of 13 or a tab after it,
   * and a tab after a key.
   */
  ghost predicate Plain(f: FieldView) {
    match Classify(f.name)
    case Connection =>
      if Named(f, "Connection")
      then !ProperPrefix(f.value, "Upgrade") && (HasToken(f.value, Ascii("Upgrade")) ==> HasItem(f.value, "Upgrade"))
      else !AsksUpgrade(f.value)
    case Upgrade =>
      if Named(f, "Upgrade")
      then !ProperPrefix(f.value, "websocket") && (HasItem(f.value, "websocket") ==> |f.value| == 9)
      else !ToWebsocket(f.value)
    case Version =>
      if Named(f, "Sec-WebSocket-Version")
      then VersionOf(f) == WS_PROTOCOL_VERSION || RfcValue(f.value) == Ascii("13") ==> f.value == Ascii("13")
      else VersionOf(f) != WS_PROTOCOL_VERSION
    case Key =>
      if Named(f, "Sec-WebSocket-Key")
      then Nonce(RfcValue(f.value)) ==> f.value == [] || !IsHSpace(f.value[|f.value| - 1])
      else !Nonce(f.value)
    case Other => true
  }

  /** A name in full is never mistaken for another one. */
  lemma NamedClass(f: FieldView)
    ensures Named(f, "Connection") ==> Classify(f.name) == Connection
    ensures Named(f, "Upgrade") ==> Classify(f.name) == Upgrade
    ensures Named(f, "Sec-WebSocket-Version") ==> Classify(f.name) == Version
  {
    assert Ascii("Connection")[0] == 'C' as int && Ascii("Upgrade")[0] == 'U' as int;
    assert Ascii("Sec-WebSocket-Version")[0] == 'S' as int;
  }

  lemma NamedKeyClass(f: FieldView)
    ensures Named(f, "Sec-WebSocket-Key") ==> Classify(f.name) == Key
  {
    assert Ascii("Connection")[0] == 'C' as int && Ascii("Upgrade")[0] == 'U' as int;
    assert Ascii("Sec-WebSocket-Key")[0] == 'S' as int;
    assert Ascii("Sec-WebSocket-Key")[14] == 'K' as int && Ascii("Sec-WebSocket-Version")[14] == 'V' as int;
  }

  lemma ItemAtIsToken(s: seq<byte>, i: nat, j: nat)
    requires ItemAt(s, i, j)
    ensures TokenAt(s, i, j)
  {
    var a :| 0 <= a <= i && (a == 0 || s[a - 1] == 0x2C) && BlankRun(s, a, i);
    var b :| j <= b <= |s| && (b == |s| || s[b] == 0x2C) && BlankRun(s, j, b);
    assert i > a ==> s[i - 1] == 0x20 || s[i - 1] == 0x09;
    assert b > j ==> s[j] == 0x20 || s[j] == 0x09;
  }

  lemma ItemIsToken(s: seq<byte>, text: string)
    ensures HasItem(s, text) ==> HasToken(s, Ascii(text))
  {
    if HasItem(s, text) {
      var i: nat, j: nat :| ItemAt(s, i, j) && SameText(s[i..j], Ascii(text));
      ItemAtIsToken(s, i, j);
    }
  }

  /** A value without delimiters is a list of one item. */
  lemma OneItem(s: seq<byte>, text: string)
    requires s != [] && SameText(s, Ascii(text)) && forall k :: 0 <= k < |s| ==> NotDelimiter(s[k])
    ensures HasItem(s, text)
  {
    assert s[0..|s|] == s;
    assert BlankRun(s, 0, 0) && BlankRun(s, |s|, |s|);
    assert ItemAt(s, 0, |s|);
  }

  lemma SameLetters(s: seq<byte>, t: seq<byte>)
    requires SameText(s, t) && forall k :: 0 <= k < |t| ==> 'a' as int <= Lower(t[k]) <= 'z' as int
    ensures forall k :: 0 <= k < |s| ==> NotDelimiter(s[k])
  {
  }

  lemma UpgradeItem(s: seq<byte>)
    ensures SameText(s, Ascii("Upgrade")) ==> HasItem(s, "Upgrade")
  {
    if SameText(s, Ascii("Upgrade")) {
      SameLetters(s, Ascii("Upgrade"));
      OneItem(s, "Upgrade");
    }
  }

  lemma WebsocketItem(s: seq<byte>)
    ensures SameText(s, Ascii("websocket")) ==> HasItem(s, "websocket")
  {
    if SameText(s, Ascii("websocket")) {
      SameLetters(s, Ascii("websocket"));
      OneItem(s, "websocket");
    }
  }

  lemma ItemFits(s: seq<byte>, text: string)
    requires HasItem(s, text) && |s| == |text|
    ensures SameText(s, Ascii(text))
  {
    var i: nat, j: nat :| ItemAt(s, i, j) && SameText(s[i..j], Ascii(text));
    assert i == 0 && j == |s| && s[0..|s|] == s;
  }

  lemma Thirteen()
    ensures Atoin(Ascii("13")) == 13 && RfcValue(Ascii("13")) == Ascii("13")
  {
    TwoDigits(Ascii("13"));
  }

  /** Base 64 ends in no blank. */
  lemma {:induction false} DecodableEnd(s: seq<byte>)
    requires Base64.Decode(s).Some? && s != []
    ensures !IsHSpace(s[|s| - 1])
  {
    if |s| > 4 {
      DecodableEnd(s[4..]);
    }
  }

  lemma NonceIsTrimmed(key: seq<byte>)
    requires Nonce(key)
    ensures key != [] && RfcValue(key) == key
  {
    if key != [] {
      DecodableEnd(key);
    }
  }

  lemma ConnectionPlain(f: FieldView)
    requires Classify(f.name) == Connection
    ensures Plain(f) <==> (ReadsConnection(f) <==> DemandsConnection(f))
  {
    hide HasItem, HasToken, Classify;
    ItemIsToken(f.value, "Upgrade");
    UpgradeItem(f.value);
    if HasItem(f.value, "Upgrade") {
      ItemLength(f.value, "Upgrade");
    }
  }

  lemma UpgradePlain(f: FieldView)
    requires Classify(f.name) == Upgrade
    ensures Plain(f) <==> (ReadsUpgrade(f) <==> DemandsUpgrade(f))
  {
    hide HasItem, HasToken, Classify;
    WebsocketItem(f.value);
    if HasItem(f.value, "websocket") && |f.value| <= 9 {
      ItemLength(f.value, "websocket");
      ItemFits(f.value, "websocket");
    }
  }

  lemma ItemLength(s: seq<byte>, text: string)
    requires HasItem(s, text)
    ensures |s| >= |text|
  {
  }

  lemma VersionPlain(f: FieldView)
    requires Classify(f.name) == Version && f.whole
    ensures Plain(f) <==> (ReadsVersion(f) <==> DemandsVersion(f))
  {
    hide Classify, Atoin, RfcValue;
    Thirteen();
    NumberIsTrimmed(f.value);
  }

  lemma NumberIsTrimmed(s: seq<byte>)
    ensures Atoin(s) == WS_PROTOCOL_VERSION ==> RfcValue(s) == s
  {
  }

  lemma KeyPlain(f: FieldView)
    requires Classify(f.name) == Key
    ensures Plain(f) <==> forall key :: Nonce(key) ==> (ReadsKey(f, key) <==> DemandsKey(f, key))
  {
    hide Classify, Nonce;
    var v, w := f.value, RfcValue(f.value);
    if Nonce(v) {
      NonceIsTrimmed(v);
    }
    if v != [] && !IsHSpace(v[|v| - 1]) {
      assert w == v;
    }
    assert Nonce(v) ==> (ReadsKey(f, v) <==> true);
    assert Nonce(w) ==> (ReadsKey(f, w) <==> v == w) && (DemandsKey(f, w) <==> Named(f, "Sec-WebSocket-Key"));
  }

  /** The source reads a field as the standard does exactly when the field is plain. */
  lemma PlainIff(f: FieldView)
    requires f.whole
    ensures SameReading(f) <==> Plain(f)
  {
    hide Classify, AsksUpgrade, ToWebsocket, HasItem, Nonce, RfcValue, Plain;
    NamedClass(f);
    NamedKeyClass(f);
    match Classify(f.name)
    case Connection => ConnectionPlain(f);
    case Upgrade => UpgradePlain(f);
    case Version => VersionPlain(f);
    case Key => KeyPlain(f);
    case Other => OtherPlain(f);
  }

  lemma OtherPlain(f: FieldView)
    requires Classify(f.name) == Other
    ensures Plain(f)
  {
    hide Classify;
  }

  // ----- the source's reading of a request -----

  ghost predicate AllPlain(fs: seq<FieldView>) {
    forall f :: f in fs ==> f.whole && Plain(f)
  }

  /** What the source and the standard both ask of a request of plain fields. */
  ghost predicate Shared(name: seq<byte>, fs: seq<FieldView>, key: seq<byte>) {
    && name == Ascii("GET")
    && (exists f :: f in fs && DemandsUpgrade(f))
    && (exists f :: f in fs && DemandsConnection(f))
    && (exists f :: f in fs && ReadsKey(f, key))
    && (exists f :: f in fs && DemandsVersion(f))
  }

  lemma PlainReadings(fs: seq<FieldView>, key: seq<byte>)
    requires AllPlain(fs)
    ensures (exists f :: f in fs && ReadsUpgrade(f)) <==> exists f :: f in fs && DemandsUpgrade(f)
    ensures (exists f :: f in fs && ReadsConnection(f)) <==> exists f :: f in fs && DemandsConnection(f)
    ensures (exists f :: f in fs && ReadsVersion(f)) <==> exists f :: f in fs && DemandsVersion(f)
    ensures Nonce(key) ==> ((exists f :: f in fs && ReadsKey(f, key)) <==> exists f :: f in fs && DemandsKey(f, key))
  {
    hide Plain, ReadsUpgrade, ReadsConnection, ReadsVersion, ReadsKey;
    hide DemandsUpgrade, DemandsConnection, DemandsVersion, DemandsKey, Nonce;
    forall f | f in fs
      ensures SameReading(f)
    {
      PlainIff(f);
    }
  }

  /**
   * On a request of plain fields that do not contradict each other, the decision agrees with the
   * standard exactly when, the shared tests passed, the major version modulo 256 is below 2 if and only
   * if the version is at least 1.1, there is a Host field, and the key is one of 16 octets: the
   * checks that the source makes of the version, and the three that it does not make.
   */
  lemma AgreementIff(name: seq<byte>, major: nat, minor: nat, fs: seq<FieldView>, key: seq<byte>)
    requires KnownMethod(name) && Consistent(fs) && AllPlain(fs) && key != []
    ensures (Decide(name, PackVersion(major, minor), Fold(fs)) == Accepted(key) <==> Demanded(name, major, minor, fs, key))
       <==> (Shared(name, fs, key) ==>
               (major % 256 < 2 <==> HttpAtLeast11(major, minor) && HasHost(fs) && Nonce(key)))
  {
    hide KnownMethod, Consistent, AllPlain, Decide, Fold, Classify, AsksUpgrade, ToWebsocket, VersionOf, Nonce, HasHost;
    hide DemandsUpgrade, DemandsConnection, DemandsVersion, DemandsKey, HttpAtLeast11, PackVersion;
    AcceptedIff(name, PackVersion(major, minor), fs, key);
    PlainReadings(fs, key);
    VersionBound(major, minor);
  }

  lemma VersionBound(major: nat, minor: nat)
    ensures PackVersion(major, minor) < 0x0200 <==> major % 256 < 2
  {
  }

  // ----- why no other field is plain -----

  function TextField(name: string, value: seq<byte>): FieldView {
    FieldView(Ascii(name), value, true)
  }

  /** A Host field and one field of each of the other classes. */
  function Five(c: FieldView, u: FieldView, v: FieldView, k: FieldView): seq<FieldView> {
    [TextField("Host", Ascii("x")), c, u, v, k]
  }

  predicate Classes(c: FieldView, u: FieldView, v: FieldView, k: FieldView) {
    Classify(c.name) == Connection && Classify(u.name) == Upgrade && Classify(v.name) == Version && Classify(k.name) == Key
  }

  lemma HostClass()
    ensures Classify(Ascii("Host")) == Other && Named(TextField("Host", Ascii("x")), "Host")
  {
    assert Ascii("Host")[0] == 'H' as int && Ascii("Connection")[0] == 'C' as int && Ascii("Upgrade")[0] == 'U' as int;
    assert Ascii("Sec-WebSocket-Version")[0] == 'S' as int && Ascii("Sec-WebSocket-Key")[0] == 'S' as int;
  }

  lemma FiveConsistent(c: FieldView, u: FieldView, v: FieldView, k: FieldView)
    requires Classes(c, u, v, k)
    ensures Consistent(Five(c, u, v, k)) && HasHost(Five(c, u, v, k))
  {
    hide Classify, Named, Consistent;
    HostClass();
    SingleFieldsAreConsistent(Five(c, u, v, k));
    assert Five(c, u, v, k)[0] == TextField("Host", Ascii("x"));
  }

  lemma FiveFields(c: FieldView, u: FieldView, v: FieldView, k: FieldView)
    ensures forall f :: f in Five(c, u, v, k) <==> f == TextField("Host", Ascii("x")) || f == c || f == u || f == v || f == k
  {
  }

  ghost predicate AcceptedAs11(fs: seq<FieldView>, key: seq<byte>) {
    Decide(Ascii("GET"), PackVersion(1, 1), Fold(fs)) == Accepted(key)
  }

  lemma FiveAccepted(c: FieldView, u: FieldView, v: FieldView, k: FieldView, key: seq<byte>)
    requires Classes(c, u, v, k) && key != []
    ensures AcceptedAs11(Five(c, u, v, k), key) <==> ReadsConnection(c) && ReadsUpgrade(u) && ReadsVersion(v) && ReadsKey(k, key)
  {
    hide Classify, AsksUpgrade, ToWebsocket, VersionOf, Fold, Decide, KnownMethod, Consistent, HasHost, PackVersion, Five;
    HostClass();
    FiveFields(c, u, v, k);
    FiveConsistent(c, u, v, k);
    MethodsKnown(0);
    VersionBound(1, 1);
    AcceptedIff(Ascii("GET"), PackVersion(1, 1), Five(c, u, v, k), key);
  }

  lemma FiveDemanded(c: FieldView, u: FieldView, v: FieldView, k: FieldView, key: seq<byte>)
    requires Classes(c, u, v, k) && Nonce(key)
    ensures Demanded(Ascii("GET"), 1, 1, Five(c, u, v, k), key)
       <==> DemandsConnection(c) && DemandsUpgrade(u) && DemandsVersion(v) && DemandsKey(k, key)
  {
    hide Classify, HasItem, RfcValue, Nonce, HasHost, Five, Named, Consistent;
    HostClass();
    FiveFields(c, u, v, k);
    FiveConsistent(c, u, v, k);
    forall f | f in Five(c, u, v, k)
      ensures Named(f, "Connection") ==> f == c
      ensures Named(f, "Upgrade") ==> f == u
      ensures Named(f, "Sec-WebSocket-Version") ==> f == v
      ensures Named(f, "Sec-WebSocket-Key") ==> f == k
    {
      NamedClass(f);
      NamedKeyClass(f);
    }
  }

  /** A valid key. */
  function SomeNonce(): (key: seq<byte>)
    ensures Nonce(key)
  {
    Base64.DecodeEncode(Zeros(16));
    Base64.Encode(Zeros(16))
  }

  /** Four fields that both readings accept. */
  lemma GoodFields() returns (c: FieldView, u: FieldView, v: FieldView, k: FieldView)
    ensures Classes(c, u, v, k) && c.whole && u.whole && v.whole && k.whole
    ensures Plain(c) && Plain(u) && Plain(v) && Plain(k)
    ensures ReadsConnection(c) && ReadsUpgrade(u) && ReadsVersion(v) && ReadsKey(k, SomeNonce())
    ensures DemandsConnection(c) && DemandsUpgrade(u) && DemandsVersion(v) && DemandsKey(k, SomeNonce())
  {
    hide Classify, HasItem, HasToken, RfcValue, Nonce, Atoin, Plain;
    c, u := TextField("Connection", Ascii("Upgrade")), TextField("Upgrade", Ascii("websocket"));
    v, k := TextField("Sec-WebSocket-Version", Ascii("13")), TextField("Sec-WebSocket-Key", SomeNonce());
    NamedClass(c);
    NamedClass(u);
    NamedClass(v);
    NamedKeyClass(k);
    UpgradeItem(c.value);
    WebsocketItem(u.value);
    Thirteen();
    NonceIsTrimmed(SomeNonce());
    ConnectionPlain(c);
    UpgradePlain(u);
    VersionPlain(v);
    assert Plain(k) by {
      KeyIsPlain(k);
    }
  }

  lemma KeyIsPlain(k: FieldView)
    requires Classify(k.name) == Key && Named(k, "Sec-WebSocket-Key") && Nonce(k.value)
    ensures Plain(k)
  {
    hide Classify, Nonce;
    NonceIsTrimmed(k.value);
  }

  /** `fs` is a request's fields, all plain but perhaps `f`, with a Host field, and `key` is valid. */
  ghost predicate Company(f: FieldView, fs: seq<FieldView>, key: seq<byte>) {
    && f in fs && (forall g :: g in fs && g != f ==> g.whole && Plain(g))
    && Consistent(fs) && HasHost(fs) && Nonce(key)
  }

  ghost predicate AgreesOn(fs: seq<FieldView>, key: seq<byte>) {
    AcceptedAs11(fs, key) <==> Demanded(Ascii("GET"), 1, 1, fs, key)
  }

  /** With a field that is not plain the two can disagree. */
  lemma Disagreement(f: FieldView) returns (fs: seq<FieldView>, key: seq<byte>)
    requires f.whole && !Plain(f)
    ensures Company(f, fs, key) && !AgreesOn(fs, key)
  {
    hide Classify, HasItem, HasToken, AsksUpgrade, ToWebsocket, VersionOf, RfcValue, Nonce, Five, Demanded, AcceptedAs11, Consistent,
         HasHost, Plain;
    var c, u, v, k := GoodFields();
    key := SomeNonce();
    NonceIsTrimmed(key);
    HostIsPlain();
    match Classify(f.name) {
      case Connection =>
        ConnectionPlain(f);
        c := f;
      case Upgrade =>
        UpgradePlain(f);
        u := f;
      case Version =>
        VersionPlain(f);
        v := f;
      case Key =>
        KeyPlain(f);
        key :| Nonce(key) && (ReadsKey(f, key) <==> !DemandsKey(f, key));
        NonceIsTrimmed(key);
        k := f;
      case Other =>
        OtherPlain(f);
    }
    fs := Five(c, u, v, k);
    FiveFields(c, u, v, k);
    FiveConsistent(c, u, v, k);
    FiveAccepted(c, u, v, k, key);
    FiveDemanded(c, u, v, k, key);
  }

  lemma HostIsPlain()
    ensures Plain(TextField("Host", Ascii("x"))) && TextField("Host", Ascii("x")).whole
  {
    hide Classify;
    HostClass();
    OtherPlain(TextField("Host", Ascii("x")));
  }

  /**
   * A field is plain exactly when the source agrees with the standard on every GET request of
   * version 1.1 with a Host field and a valid key in which all other fields are plain: none of the
   * conditions on a field can be dropped, and no other is missing.
   */
  lemma PlainIffNeverMisread(f: FieldView)
    requires f.whole
    ensures Plain(f) <==> forall fs, key :: Company(f, fs, key) ==> AgreesOn(fs, key)
  {
    hide Plain, Company, AgreesOn;
    if Plain(f) {
      forall fs, key | Company(f, fs, key)
        ensures AgreesOn(fs, key)
      {
        CompanyAgrees(f, fs, key);
      }
    } else {
      var fs, key := Disagreement(f);
    }
  }

  lemma CompanyAgrees(f: FieldView, fs: seq<FieldView>, key: seq<byte>)
    requires f.whole && Plain(f) && Company(f, fs, key)
    ensures AgreesOn(fs, key)
  {
    hide Plain, Consistent, HasHost, Nonce, Demanded, Decide, Fold, Shared, PackVersion, KnownMethod;
    NonceIsTrimmed(key);
    MethodsKnown(0);
    AgreementIff(Ascii("GET"), 1, 1, fs, key);
  }
}
