// Requests written out in octets, without the scanners' own notions of blanks, digits and line ends.

module RequestOctets {
  import opened Bytes
  import opened StringExt
  import opened Http
  import opened Headers
  import opened Handshake

  predicate Only(s: seq<byte>, octets: set<byte>) {
    forall i :: 0 <= i < |s| ==> s[i] in octets
  }

  predicate Without(s: seq<byte>, octets: set<byte>) {
    forall i :: 0 <= i < |s| ==> s[i] !in octets
  }

  predicate Figures(s: seq<byte>) {
    s != [] && forall i :: 0 <= i < |s| ==> 0x30 <= s[i] <= 0x39
  }

  /** A field with spaces and tabs around its colon, and spaces at its end. */
  predicate Written(f: Field) {
    && f.name != [] && Without(f.name, {0x20, 0x09, 0x3A, 0x0D})
    && Only(f.gap, {0x20, 0x09}) && Only(f.lead, {0x20, 0x09})
    && f.value != [] && Without(f.value, {0x0D})
    && f.value[0] !in {0x20, 0x09} && f.value[|f.value| - 1] != 0x20
    && Only(f.trail, {0x20})
  }

  function LineOctets(f: Field): seq<byte> {
    f.name + f.gap + [0x3A] + f.lead + f.value + f.trail + [0x0D, 0x0A]
  }

  function BlockOctets(fields: seq<Field>, body: seq<byte>): seq<byte> {
    if fields == [] then [0x0D, 0x0A] + body else LineOctets(fields[0]) + BlockOctets(fields[1..], body)
  }

  /** `HTTP/major.minor` and the line end. */
  function VersionOctets(major: seq<byte>, minor: seq<byte>): seq<byte> {
    [0x48, 0x54, 0x54, 0x50, 0x2F] + major + [0x2E] + minor + [0x0D, 0x0A]
  }

  function Octets(name: seq<byte>, gap1: seq<byte>, target: seq<byte>, gap2: seq<byte>,
                  major: seq<byte>, minor: seq<byte>, fields: seq<Field>, body: seq<byte>): seq<byte>
  {
    name + gap1 + target + gap2 + VersionOctets(major, minor) + BlockOctets(fields, body)
  }

  lemma WrittenFormed(f: Field)
    requires Written(f)
    ensures WellFormed(f)
  {
  }

  lemma FieldIs(f: Field, rest: seq<byte>)
    ensures FieldText(f, CRLF + rest) == LineOctets(f) + rest
  {
  }

  lemma {:induction false} BlockIs(fields: seq<Field>, body: seq<byte>)
    ensures BlockText(fields, body) == BlockOctets(fields, body)
  {
    if fields != [] {
      hide FieldText, LineOctets;
      BlockIs(fields[1..], body);
      FieldIs(fields[0], BlockText(fields[1..], body));
    }
  }

  lemma VersionIs(major: seq<byte>, minor: seq<byte>, rest: seq<byte>)
    ensures Ascii("HTTP/") + VersionText(major, minor, rest) == VersionOctets(major, minor) + rest
  {
    assert Ascii("HTTP/") == [0x48, 0x54, 0x54, 0x50, 0x2F];
  }

  lemma TextIs(name: seq<byte>, gap1: seq<byte>, target: seq<byte>, gap2: seq<byte>,
               major: seq<byte>, minor: seq<byte>, fields: seq<Field>, body: seq<byte>)
    ensures RequestText(name, gap1, target, gap2, major, minor, BlockText(fields, body))
         == Octets(name, gap1, target, gap2, major, minor, fields, body)
  {
    hide VersionText, VersionOctets, BlockText, BlockOctets, Ascii;
    BlockIs(fields, body);
    VersionIs(major, minor, BlockText(fields, body));
  }

  /**
   * A request written in octets is decided by its method, version and fields, whatever blanks,
   * fields and body it has.
   */
  lemma OctetsDecided(name: seq<byte>, gap1: seq<byte>, target: seq<byte>, gap2: seq<byte>,
                      major: seq<byte>, minor: seq<byte>, fields: seq<Field>, body: seq<byte>)
    requires name != [] && Without(name, {0x20, 0x0D}) && target != [] && Without(target, {0x20, 0x0D})
    requires gap1 != [] && Only(gap1, {0x20}) && gap2 != [] && Only(gap2, {0x20}) && Figures(major) && Figures(minor)
    requires forall i :: 0 <= i < |fields| ==> Written(fields[i])
    requires |Octets(name, gap1, target, gap2, major, minor, fields, body)| < 0x1_0000_0000_0000_0000
    ensures AllDigits(major) && AllDigits(minor)
    ensures Decision(Octets(name, gap1, target, gap2, major, minor, fields, body))
         == if KnownMethod(name)
            then Decide(name, PackVersion(DecimalValue(major), DecimalValue(minor)), Fold(FieldViews(fields)))
            else Refused(HttpRequest)
  {
    hide Decision, RequestText, BlockText, Octets, Written, WellFormed, KnownMethod, DecimalValue, Fold, Decide, FieldViews,
         PackVersion;
    TextIs(name, gap1, target, gap2, major, minor, fields, body);
    forall i | 0 <= i < |fields|
      ensures WellFormed(fields[i])
    {
      WrittenFormed(fields[i]);
    }
    ConnectRoundTrip(name, gap1, target, gap2, major, minor, fields, body);
  }

  /** The first token passes exactly when one of the eight method names stands in it. */
  lemma KnownMethodIff(token: seq<byte>)
    ensures KnownMethod(token) <==>
            exists i, j :: 0 <= i <= j <= |token| && IsMethod(token[i..j])
  {
    hide Ascii;
    if KnownMethod(token) {
      var k :| 0 <= k < |METHODS| && OccursIn(Ascii(METHODS[k]), token, |token|);
      var i: nat :| i + |Ascii(METHODS[k])| <= |token| && MatchAt(token, Ascii(METHODS[k]), i);
      assert token[i..i + |Ascii(METHODS[k])|] == Ascii(METHODS[k]);
    }
    if i, j :| 0 <= i <= j <= |token| && IsMethod(token[i..j]) {
      var k := MethodIndex(token[i..j]);
      MethodInsideToken(token[..i], k, token[j..]);
      assert token == token[..i] + token[i..j] + token[j..];
    }
  }

  predicate IsMethod(m: seq<byte>) {
    m in {Ascii("GET"), Ascii("HEAD"), Ascii("POST"), Ascii("PUT"), Ascii("DELETE"), Ascii("CONNECT"), Ascii("OPTIONS"),
          Ascii("TRACE")}
  }

  lemma MethodIndex(m: seq<byte>) returns (k: nat)
    requires IsMethod(m)
    ensures k < |METHODS| && m == Ascii(METHODS[k])
  {
    hide Ascii;
    k := if m == Ascii("GET") then 0 else if m == Ascii("HEAD") then 1 else if m == Ascii("POST") then 2
         else if m == Ascii("PUT") then 3 else if m == Ascii("DELETE") then 4 else if m == Ascii("CONNECT") then 5
         else if m == Ascii("OPTIONS") then 6 else 7;
  }
}
