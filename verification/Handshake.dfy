// The opening handshake of src/ws.c: what a header field does to the handshake
// state, when a request is accepted, and the answer of RFC 6455 section 4.2.2.

module Handshake {
  import opened Bytes
  import opened StringExt
  import opened Scanning
  import opened Http
  import opened Headers

  const WS_PROTOCOL_VERSION := 13

  // ----- comparing text without regard to case -----

  function Lower(c: byte): byte {
    if 'A' as int <= c <= 'Z' as int then c + 32 else c
  }

  /** `strncasecmp(a, b, |a|) == 0` for texts: `a` begins `b`. */
  predicate Begins(a: seq<byte>, b: seq<byte>) {
    |a| <= |b| && forall i :: 0 <= i < |a| ==> Lower(a[i]) == Lower(b[i])
  }

  /** `strcasecmp(a, b) == 0` */
  predicate SameText(a: seq<byte>, b: seq<byte>) {
    |a| == |b| && Begins(a, b)
  }

  predicate IsDelimiter(c: byte) { c == ',' as int || c == SP || c == HTAB }
  predicate NotDelimiter(c: byte) { !IsDelimiter(c) }

  /** `s[i..j]` is one of the tokens that the delimiters separate. */
  predicate TokenAt(s: seq<byte>, i: nat, j: nat) {
    && i < j <= |s|
    && (forall k :: i <= k < j ==> NotDelimiter(s[k]))
    && (i == 0 || IsDelimiter(s[i - 1]))
    && (j == |s| || IsDelimiter(s[j]))
  }

  /** One of the tokens is the given text. */
  ghost predicate HasToken(s: seq<byte>, text: seq<byte>) {
    exists i: nat, j: nat :: TokenAt(s, i, j) && SameText(s[i..j], text)
  }

  /** Letters match in either case and every other octet itself alone. */
  lemma LowerIff(a: byte, b: byte)
    ensures Lower(a) == Lower(b) <==>
            a == b || (0x41 <= a <= 0x5A && b == a + 0x20) || (0x41 <= b <= 0x5A && a == b + 0x20)
  {
  }

  /** A comma, a space or a tab. */
  predicate Separates(c: byte) {
    c == 0x2C || c == 0x20 || c == 0x09
  }

  /** `t` stands in a text between commas, spaces, tabs or its ends, and has none of them in it. */
  predicate Between(a: seq<byte>, t: seq<byte>, b: seq<byte>) {
    && t != [] && (forall k :: 0 <= k < |t| ==> !Separates(t[k]))
    && (a == [] || Separates(a[|a| - 1])) && (b == [] || Separates(b[0]))
  }

  lemma BetweenIsToken(s: seq<byte>, a: seq<byte>, t: seq<byte>, b: seq<byte>, text: seq<byte>)
    requires s == a + t + b && Between(a, t, b) && SameText(t, text)
    ensures HasToken(s, text)
  {
    var i, j := |a|, |a| + |t|;
    assert s[i..j] == t;
    assert forall k :: i <= k < j ==> s[k] == t[k - i];
    assert a != [] ==> s[i - 1] == a[|a| - 1];
    assert b != [] ==> s[j] == b[0];
    assert TokenAt(s, i, j);
  }

  lemma TokenIsBetween(s: seq<byte>, i: nat, j: nat)
    requires TokenAt(s, i, j)
    ensures s == s[..i] + s[i..j] + s[j..] && Between(s[..i], s[i..j], s[j..])
  {
    assert forall k :: i <= k < j ==> s[i..j][k - i] == s[k];
  }

  /** A text has a token exactly when it stands between commas, spaces, tabs or the ends. */
  lemma HasTokenIff(s: seq<byte>, text: seq<byte>)
    ensures HasToken(s, text) <==> exists a, t, b :: s == a + t + b && Between(a, t, b) && SameText(t, text)
  {
    hide SameText, Between;
    if HasToken(s, text) {
      var i: nat, j: nat :| TokenAt(s, i, j) && SameText(s[i..j], text);
      TokenIsBetween(s, i, j);
      assert s == s[..i] + s[i..j] + s[j..] && Between(s[..i], s[i..j], s[j..]) && SameText(s[i..j], text);
    }
    if a, t, b :| s == a + t + b && Between(a, t, b) && SameText(t, text) {
      BetweenIsToken(s, a, t, b, text);
    }
  }

  /** So an upgrade is asked for after whatever and a comma, and blanks. */
  lemma UpgradeAfterComma(a: seq<byte>, blanks: seq<byte>)
    requires forall k :: 0 <= k < |blanks| ==> blanks[k] == 0x20 || blanks[k] == 0x09
    ensures AsksUpgrade(a + [0x2C] + blanks + Ascii("Upgrade"))
    ensures |blanks| > 0 ==> AsksUpgrade(a + blanks + Ascii("Upgrade"))
  {
    hide HasToken;
    var t := Ascii("Upgrade");
    var s := a + [0x2C] + blanks + t;
    assert s == (a + [0x2C] + blanks) + t + [];
    BetweenIsToken(s, a + [0x2C] + blanks, t, [], t);
    if |blanks| > 0 {
      assert a + blanks + t == (a + blanks) + t + [];
      BetweenIsToken(a + blanks + t, a + blanks, t, [], t);
    }
  }

  // ----- one header field -----

  /**
   * A field as the string functions see it. `whole` is false for a value that leaves the
   * buffer: it is then read up to the end of the text, and `atoin` starts before it.
   */
  datatype FieldView = FieldView(name: seq<byte>, value: seq<byte>, whole: bool)

  function ViewOf(s: seq<byte>, h: Header): FieldView
    requires StartsInside(s, h)
  {
    if h.value.ptr + h.value.length <= |s| then FieldView(Content(s, h.name), Content(s, h.value), true)
    else FieldView(Content(s, h.name), s[h.value.ptr..], false)
  }

  datatype Class = Connection | Upgrade | Version | Key | Other

  /** What the chain of comparisons makes of a field name. */
  function Classify(name: seq<byte>): Class {
    if Begins(name, Ascii("Connection")) then Connection
    else if Begins(name, Ascii("Upgrade")) then Upgrade
    else if Begins(name, Ascii("Sec-WebSocket-Version")) then Version
    else if Begins(name, Ascii("Sec-WebSocket-Key")) then Key
    else Other
  }

  ghost predicate AsksUpgrade(value: seq<byte>) {
    Begins(value, Ascii("Upgrade")) || HasToken(value, Ascii("Upgrade"))
  }

  predicate ToWebsocket(value: seq<byte>) {
    Begins(value, Ascii("websocket"))
  }

  /** A value that leaves the buffer starts after its colon or a tab, which is no digit. */
  function VersionOf(f: FieldView): int {
    if f.whole then Atoin(f.value) else 0
  }

  datatype State = State(hasUpgrade: bool, toWebsocket: bool, version: int, key: Option<seq<byte>>)

  const INITIAL := State(false, false, 0, None)

  /** The effect of one field on the handshake state. */
  ghost function Apply(st: State, f: FieldView): State {
    match Classify(f.name)
    case Connection => st.(hasUpgrade := st.hasUpgrade || AsksUpgrade(f.value))
    case Upgrade => st.(toWebsocket := ToWebsocket(f.value))
    case Version => st.(version := VersionOf(f))
    case Key => st.(key := Some(f.value))
    case Other => st
  }

  /** The effect of all fields in order. */
  ghost function Fold(fs: seq<FieldView>): State {
    if fs == [] then INITIAL else Apply(Fold(fs[..|fs| - 1]), fs[|fs| - 1])
  }

  /** `ws_http_handshake_state` */
  class HandshakeState {
    var hasUpgradeConnection: bool
    var upgradeToWebsocket: bool
    var websocketVersion: int
    var websocketKey: Option<seq<byte>>

    constructor ()
      ensures Value() == INITIAL
    {
      hasUpgradeConnection, upgradeToWebsocket, websocketVersion, websocketKey := false, false, 0, None;
    }

    ghost function Value(): State
      reads this
    {
      State(hasUpgradeConnection, upgradeToWebsocket, websocketVersion, websocketKey)
    }

    /** `on_handshake_header` */
    method OnHeader(f: FieldView)
      modifies this
      ensures Value() == Apply(old(Value()), f)
    {
      if Begins(f.name, Ascii("Connection")) {
        if Begins(f.value, Ascii("Upgrade")) {
          hasUpgradeConnection := true;
        } else {
          var found := FindToken(f.value, Ascii("Upgrade"));
          if found {
            hasUpgradeConnection := true;
          }
        }
      } else if Begins(f.name, Ascii("Upgrade")) {
        upgradeToWebsocket := Begins(f.value, Ascii("websocket"));
      } else if Begins(f.name, Ascii("Sec-WebSocket-Version")) {
        if f.whole {
          websocketVersion := AtoinFromRight(f.value);
        } else {
          websocketVersion := 0;
        }
      } else if Begins(f.name, Ascii("Sec-WebSocket-Key")) {
        websocketKey := Some(f.value);
      }
    }
  }

  /** The `strtok_r` loop: skips delimiters, then takes a token, until one is the text. */
  method FindToken(s: seq<byte>, text: seq<byte>) returns (found: bool)
    ensures found <==> HasToken(s, text)
  {
    hide SkipTo, SameText;
    var p := 0;
    while true
      invariant p <= |s| && (p == 0 || p == |s| || IsDelimiter(s[p]))
      invariant forall i: nat, j: nat :: i < p && TokenAt(s, i, j) ==> !SameText(s[i..j], text)
      decreases |s| - p
    {
      var i := Skip(s, p, |s|, IsDelimiter);
      NoTokenInDelimiters(s, p, i);
      if i == |s| {
        return false;
      }
      var j := Skip(s, i, |s|, NotDelimiter);
      assert NotDelimiter(s[i]) && TokenAt(s, i, j);
      if SameText(s[i..j], text) {
        return true;
      }
      OneToken(s, i, j);
      p := j;
    }
  }

  lemma NoTokenInDelimiters(s: seq<byte>, p: nat, i: nat)
    requires p <= i <= |s| && forall k :: p <= k < i ==> IsDelimiter(s[k])
    ensures forall a: nat, b: nat :: p <= a < i ==> !TokenAt(s, a, b)
  {
    forall a: nat, b: nat | p <= a < i
      ensures !TokenAt(s, a, b)
    {
      assert IsDelimiter(s[a]);
    }
  }

  /** Two tokens that start in the same run are the same. */
  lemma OneToken(s: seq<byte>, i: nat, j: nat)
    requires TokenAt(s, i, j)
    ensures forall a: nat, b: nat :: i <= a < j && TokenAt(s, a, b) ==> a == i && b == j
  {
  }

  // ----- the whole request -----

  datatype Error = HttpRequest | HttpMethod | HttpVersion | WebsocketVersion | NoUpgrade | NoKey

  datatype Outcome = Accepted(key: seq<byte>) | Refused(error: Error)

  /** The checks of `ws_parse_connect_request`, in their order. */
  function Decide(name: seq<byte>, version: int, st: State): Outcome {
    if !(name <= Ascii("GET")) then Refused(HttpMethod)
    else if version > 0x01FF then Refused(HttpVersion)
    else if st.version != WS_PROTOCOL_VERSION then Refused(WebsocketVersion)
    else if !st.hasUpgrade || !st.toWebsocket then Refused(NoUpgrade)
    else if st.key == None || st.key.value == [] then Refused(NoKey)
    else Accepted(st.key.value)
  }

  function ViewsOf(s: seq<byte>, calls: seq<Header>): (r: seq<FieldView>)
    requires forall i :: 0 <= i < |calls| ==> StartsInside(s, calls[i])
    ensures |r| == |calls|
    ensures forall i :: 0 <= i < |calls| ==> r[i] == ViewOf(s, calls[i])
  {
    seq(|calls|, i requires 0 <= i < |calls| => ViewOf(s, calls[i]))
  }

  /** The decision on a request text. */
  ghost function Decision(s: seq<byte>): Outcome {
    match ParseRequest(s)
    case None => Refused(HttpRequest)
    case Some(line) =>
      var scan := ScanFrom(s, line.next);
      if scan.next == None then Refused(HttpRequest)
      else
        CallsStartInside(s, line.next);
        Decide(s[..line.name.length], line.version, Fold(ViewsOf(s, scan.calls)))
  }

  /** `ws_parse_connect_request` */
  method ParseConnectRequest(s: seq<byte>) returns (r: Outcome)
    ensures r == Decision(s)
  {
    hide ParseRequest, ScanFrom, Apply;
    var line := ParseRequestLine(s);
    if line == None {
      return Refused(HttpRequest);
    }
    RequestNameInside(s);
    var start := line.value.next;
    var calls, next := ParseHeaders(s, start);
    CallsStartInside(s, start);
    var state := new HandshakeState();
    ghost var views := ViewsOf(s, calls);
    for i := 0 to |calls|
      modifies state
      invariant state.Value() == Fold(views[..i])
    {
      assert views[..i + 1][..i] == views[..i];
      state.OnHeader(ViewOf(s, calls[i]));
    }
    assert views[..|calls|] == views;
    if next == None {
      return Refused(HttpRequest);
    }
    var name := s[..line.value.name.length];
    if !(name <= Ascii("GET")) {
      return Refused(HttpMethod);
    } else if line.value.version > 0x01FF {
      return Refused(HttpVersion);
    } else if state.websocketVersion != WS_PROTOCOL_VERSION {
      return Refused(WebsocketVersion);
    } else if !state.hasUpgradeConnection || !state.upgradeToWebsocket {
      return Refused(NoUpgrade);
    } else if state.websocketKey == None || state.websocketKey.value == [] {
      return Refused(NoKey);
    }
    return Accepted(state.websocketKey.value);
  }

  lemma RequestNameInside(s: seq<byte>)
    ensures ParseRequest(s).Some? ==> ParseRequest(s).value.name.ptr == 0 && ParseRequest(s).value.name.length <= |s|
    ensures ParseRequest(s).Some? ==> KnownMethod(s[..ParseRequest(s).value.name.length])
  {
    hide SkipTo, KnownMethod, ParseVersion;
  }

  /** Although the scanner accepts tokens that merely contain a method, only GET itself gets through. */
  lemma OnlyGet(name: seq<byte>)
    requires KnownMethod(name) && name <= Ascii("GET")
    ensures name == Ascii("GET")
  {
    var i :| 0 <= i < |METHODS| && OccursIn(Ascii(METHODS[i]), name, |name|);
    assert |Ascii(METHODS[i])| >= 3;
  }

  // ----- the order of the fields -----

  /** Two fields that set the same part of the state set it to the same value. */
  ghost predicate Agree(f: FieldView, g: FieldView) {
    Classify(f.name) == Classify(g.name) ==>
      match Classify(f.name)
      case Upgrade => ToWebsocket(f.value) == ToWebsocket(g.value)
      case Version => VersionOf(f) == VersionOf(g)
      case Key => f.value == g.value
      case Connection => true
      case Other => true
  }

  ghost predicate Consistent(fs: seq<FieldView>) {
    forall f, g :: f in fs && g in fs ==> Agree(f, g)
  }

  ghost predicate OrderFree(fs: seq<FieldView>) {
    forall gs: seq<FieldView> :: multiset(gs) == multiset(fs) ==> Fold(gs) == Fold(fs)
  }

  /** `st` is what the fields say, each part taken from any field that sets it. */
  ghost predicate Collected(st: State, fs: seq<FieldView>) {
    && (st.hasUpgrade <==> exists f :: f in fs && Classify(f.name) == Connection && AsksUpgrade(f.value))
    && (forall f :: f in fs && Classify(f.name) == Upgrade ==> st.toWebsocket == ToWebsocket(f.value))
    && (forall f :: f in fs && Classify(f.name) == Version ==> st.version == VersionOf(f))
    && (forall f :: f in fs && Classify(f.name) == Key ==> st.key == Some(f.value))
    && ((forall f :: f in fs ==> Classify(f.name) != Upgrade) ==> !st.toWebsocket)
    && ((forall f :: f in fs ==> Classify(f.name) != Version) ==> st.version == 0)
    && ((forall f :: f in fs ==> Classify(f.name) != Key) ==> st.key == None)
  }

  lemma {:induction false} FoldCollects(fs: seq<FieldView>)
    requires Consistent(fs)
    ensures Collected(Fold(fs), fs)
  {
    if fs != [] {
      hide Apply, Agree, Collected;
      var init, f := fs[..|fs| - 1], fs[|fs| - 1];
      FoldCollects(init);
      CollectLast(Fold(init), init, f);
      assert fs == init + [f];
    }
  }

  lemma CollectLast(st: State, fs: seq<FieldView>, f: FieldView)
    requires Collected(st, fs) && Consistent(fs + [f])
    ensures Collected(Apply(st, f), fs + [f])
  {
    hide Begins, HasToken, AsksUpgrade, ToWebsocket, VersionOf, Classify;
    var all := fs + [f];
    assert f in all;
    assert forall g :: g in all <==> g in fs || g == f;
    assert forall g :: g in fs ==> Agree(f, g);
  }

  lemma CollectedOnce(st1: State, st2: State, fs: seq<FieldView>, gs: seq<FieldView>)
    requires Collected(st1, fs) && Collected(st2, gs) && forall f :: f in fs <==> f in gs
    ensures st1 == st2
  {
    hide Begins, AsksUpgrade, ToWebsocket, VersionOf, Classify;
  }

  lemma SameElements(fs: seq<FieldView>, gs: seq<FieldView>)
    requires multiset(gs) == multiset(fs)
    ensures forall f :: f in gs <==> f in fs
  {
    forall f
      ensures f in gs <==> f in fs
    {
      assert f in gs <==> f in multiset(gs);
      assert f in fs <==> f in multiset(fs);
    }
  }

  lemma ConsistentInAnyOrder(fs: seq<FieldView>, gs: seq<FieldView>)
    requires Consistent(fs) && multiset(gs) == multiset(fs)
    ensures Fold(gs) == Fold(fs)
  {
    hide Agree, Fold, Collected;
    SameElements(fs, gs);
    FoldCollects(fs);
    FoldCollects(gs);
    CollectedOnce(Fold(fs), Fold(gs), fs, gs);
  }

  /** A field can be moved to the end, where its effect prevails. */
  lemma MoveLast(fs: seq<FieldView>, i: nat) returns (gs: seq<FieldView>)
    requires i < |fs|
    ensures multiset(gs) == multiset(fs) && gs != [] && gs[|gs| - 1] == fs[i]
    ensures Fold(gs) == Apply(Fold(gs[..|gs| - 1]), fs[i])
  {
    var rest := fs[..i] + fs[i + 1..];
    gs := rest + [fs[i]];
    assert fs == fs[..i] + [fs[i]] + fs[i + 1..];
    assert gs[..|gs| - 1] == rest;
  }

  lemma LastPrevails(st1: State, st2: State, f: FieldView, g: FieldView)
    requires Apply(st1, f) == Apply(st2, g)
    ensures Agree(f, g)
  {
    hide Begins, AsksUpgrade, ToWebsocket, VersionOf, Classify;
  }

  /** The order of the header fields does not matter exactly when no two fields contradict each other. */
  lemma OrderFreeIffConsistent(fs: seq<FieldView>)
    ensures OrderFree(fs) <==> Consistent(fs)
  {
    hide Agree, Apply, Fold;
    if Consistent(fs) {
      forall gs: seq<FieldView> | multiset(gs) == multiset(fs)
        ensures Fold(gs) == Fold(fs)
      {
        ConsistentInAnyOrder(fs, gs);
      }
    }
    if OrderFree(fs) {
      forall f, g | f in fs && g in fs
        ensures Agree(f, g)
      {
        var i :| 0 <= i < |fs| && fs[i] == f;
        var j :| 0 <= j < |fs| && fs[j] == g;
        var fLast := MoveLast(fs, i);
        var gLast := MoveLast(fs, j);
        assert Fold(fLast) == Fold(gLast);
        LastPrevails(Fold(fLast[..|fLast| - 1]), Fold(gLast[..|gLast| - 1]), f, g);
      }
    }
  }

  /** In particular when no part of the state is set twice. */
  lemma SingleFieldsAreConsistent(fs: seq<FieldView>)
    requires forall i, j :: 0 <= i < j < |fs| && Classify(fs[i].name) == Classify(fs[j].name) ==>
               Classify(fs[i].name) == Connection || Classify(fs[i].name) == Other
    ensures Consistent(fs)
  {
    hide Classify, ToWebsocket, VersionOf;
    forall f, g | f in fs && g in fs
      ensures Agree(f, g)
    {
      var i :| 0 <= i < |fs| && fs[i] == f;
      var j :| 0 <= j < |fs| && fs[j] == g;
      assert i < j || j < i || i == j;
    }
  }

  /** A request with consistent fields is accepted exactly when it meets section 4.2.1 of RFC 6455 as the source reads it. */
  lemma AcceptedIff(name: seq<byte>, version: int, fs: seq<FieldView>, key: seq<byte>)
    requires KnownMethod(name) && Consistent(fs) && key != []
    ensures Decide(name, version, Fold(fs)) == Accepted(key) <==>
              && name == Ascii("GET") && version < 0x0200
              && (exists f :: f in fs && Classify(f.name) == Version && VersionOf(f) == WS_PROTOCOL_VERSION)
              && (exists f :: f in fs && Classify(f.name) == Connection && AsksUpgrade(f.value))
              && (exists f :: f in fs && Classify(f.name) == Upgrade && ToWebsocket(f.value))
              && (exists f :: f in fs && Classify(f.name) == Key && f.value == key)
  {
    hide Fold, Apply, Begins, AsksUpgrade, ToWebsocket, VersionOf, Classify, KnownMethod, Consistent;
    FoldCollects(fs);
    if name <= Ascii("GET") {
      OnlyGet(name);
    }
  }

  /** Two versions in one request: which one counts depends on the order. */
  lemma TwoVersionsOrder(versions: seq<FieldView>)
    requires versions == [FieldView(Ascii("Sec-WebSocket-Version"), Ascii("13"), true),
                          FieldView(Ascii("Sec-WebSocket-Version"), Ascii("8"), true)]
    ensures !OrderFree(versions)
  {
    hide OrderFree;
    var f, g := versions[0], versions[1];
    assert Ascii("Sec-WebSocket-Version")[0] == 'S' as int;
    assert DecimalValue(Ascii("8")) == 8 by {
      assert Ascii("8")[..0] == [];
    }
    TwoDigits(Ascii("13"));
    assert f in versions && g in versions && !Agree(f, g);
    OrderFreeIffConsistent(versions);
  }

  lemma TwoDigits(s: seq<byte>)
    requires |s| == 2 && AllDigits(s)
    ensures DecimalValue(s) == (s[0] - ZERO) * 10 + (s[1] - ZERO)
  {
    assert s[..1][..0] == [] && DecimalValue(s[..1]) == DecimalValue([]) * 10 + (s[..1][0] - ZERO);
  }

  // ----- requests written by the grammar -----

  /** The fields of a rendered request as the callback sees them. */
  function FieldViews(fields: seq<Field>): (r: seq<FieldView>)
    ensures |r| == |fields|
    ensures forall i :: 0 <= i < |fields| ==> r[i] == FieldView(fields[i].name, fields[i].value, true)
  {
    seq(|fields|, i requires 0 <= i < |fields| => FieldView(fields[i].name, fields[i].value, true))
  }

  lemma DeliveredViews(s: seq<byte>, scan: Scan, fields: seq<Field>, body: seq<byte>)
    requires BlockRead(s, scan, fields, body)
    requires forall i :: 0 <= i < |scan.calls| ==> StartsInside(s, scan.calls[i])
    ensures ViewsOf(s, scan.calls) == FieldViews(fields)
  {
    hide Content;
    forall i | 0 <= i < |fields|
      ensures ViewOf(s, scan.calls[i]) == FieldViews(fields)[i]
    {
      assert Delivered(s, scan.calls[i], fields[i]);
    }
  }

  /**
   * On a request in the grammar, with any header fields and any body, the decision is that of
   * its method, version and fields.
   */
  lemma ConnectRoundTrip(name: seq<byte>, gap1: seq<byte>, target: seq<byte>, gap2: seq<byte>,
                         major: seq<byte>, minor: seq<byte>, fields: seq<Field>, body: seq<byte>)
    requires Token(name) && Token(target) && Spaces(gap1) && Spaces(gap2) && Number(major) && Number(minor)
    requires forall i :: 0 <= i < |fields| ==> WellFormed(fields[i])
    requires |RequestText(name, gap1, target, gap2, major, minor, BlockText(fields, body))| < TWO_64
    ensures Decision(RequestText(name, gap1, target, gap2, major, minor, BlockText(fields, body)))
         == if KnownMethod(name)
            then Decide(name, PackVersion(DecimalValue(major), DecimalValue(minor)), Fold(FieldViews(fields)))
            else Refused(HttpRequest)
  {
    hide ParseRequest, ScanFrom, RequestText, BlockText, WellFormed, KnownMethod, PackVersion, DecimalValue, Fold,
         Decide, ViewsOf, FieldViews, Spaces;
    var rest := BlockText(fields, body);
    var s := RequestText(name, gap1, target, gap2, major, minor, rest);
    RequestRoundTrip(name, gap1, target, gap2, major, minor, rest);
    if ParseRequest(s).Some? {
      var line := ParseRequest(s).value;
      RequestNameInside(s);
      assert s[..line.name.length] == name;
      BlockRoundTrip(s, line.next, fields, body);
      CallsStartInside(s, line.next);
      DeliveredViews(s, ScanFrom(s, line.next), fields, body);
    }
  }
}
