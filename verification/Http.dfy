// The request line and header field scanners of src/http.c, and what they make
// of messages written by the grammar of RFC 7230.

module Http {
  import opened Bytes
  import opened StringExt
  import opened Scanning

  const CR: byte := 0x0D
  const LF: byte := 0x0A
  const SP: byte := 0x20
  const HTAB: byte := 0x09
  const COLON: byte := ':' as int
  const DOT: byte := '.' as int

  /** A piece of the buffer: `ptr` is an index, `length` a `size_t`. */
  datatype Fragment = Fragment(ptr: nat, length: nat)

  /** The octets of a fragment that lies inside the buffer. */
  function Content(s: seq<byte>, f: Fragment): seq<byte>
    requires f.ptr + f.length <= |s|
  {
    s[f.ptr..f.ptr + f.length]
  }

  predicate IsSpace(c: byte) { c == SP }
  predicate IsHSpace(c: byte) { c == SP || c == HTAB }
  predicate NotSpace(c: byte) { c != SP }
  predicate NameOctet(c: byte) { !IsHSpace(c) && c != COLON }

  // ----- scanning -----

  predicate CrlfAt(s: seq<byte>, i: nat) {
    i + 1 < |s| && s[i] == CR && s[i + 1] == LF
  }

  /** `strstr(s + from, "\r\n")`. */
  function FindCrlf(s: seq<byte>, from: nat): (r: Option<nat>)
    ensures r.Some? ==> from <= r.value && CrlfAt(s, r.value)
    decreases |s| - from
  {
    if from + 1 >= |s| then None else if CrlfAt(s, from) then Some(from) else FindCrlf(s, from + 1)
  }

  lemma {:induction false} FindFirstCrlf(s: seq<byte>, from: nat, e: nat)
    requires from <= e && CrlfAt(s, e)
    requires forall i :: from <= i < e ==> s[i] != CR
    ensures FindCrlf(s, from) == Some(e)
    decreases e - from
  {
    if from < e {
      FindFirstCrlf(s, from + 1, e);
    }
  }

  // ----- the request line -----

  const METHODS: seq<string> := ["GET", "HEAD", "POST", "PUT", "DELETE", "CONNECT", "OPTIONS", "TRACE"]

  datatype RequestLine = RequestLine(name: Fragment, target: Fragment, version: int, next: nat)

  /** One of the eight method names occurs in the first token. */
  predicate KnownMethod(token: seq<byte>) {
    exists i :: 0 <= i < |METHODS| && OccursIn(Ascii(METHODS[i]), token, |token|)
  }

  /** `((major & 0xFF) << 8) | (minor & 0xFF)`. */
  function PackVersion(major: int, minor: int): int {
    major % 256 * 256 + minor % 256
  }

  lemma HttpWithinLine(s: seq<byte>, p: nat, end: nat)
    requires p < end && CrlfAt(s, end) && MatchAt(s, Ascii("HTTP/"), p)
    ensures p + 5 <= end
  {
    forall j | p <= j < p + 5
      ensures s[j] != CR
    {
      assert s[j] == s[p..p + 5][j - p] == Ascii("HTTP/")[j - p];
    }
  }

  /** The version number after `HTTP/`, up to the end of the line. */
  function ParseVersion(s: seq<byte>, v: nat, end: nat): Option<int>
    requires v <= end < |s|
  {
    var p := SkipTo(s, v, end, IsDigit);
    if p == v then None
    else
      var major := Atoin(s[v..p]);
      var minor := if p < end && s[p] == DOT then Atoin(s[p + 1..SkipTo(s, p + 1, end, IsDigit)]) else 0;
      Some(PackVersion(major, minor))
  }

  /** What `http_parse_request_line` finds in a text. */
  function ParseRequest(s: seq<byte>): Option<RequestLine> {
    match FindCrlf(s, 0)
    case None => None
    case Some(end) =>
      var m := SkipTo(s, 0, end, NotSpace);
      if s[m] != SP || m == 0 || !KnownMethod(s[..m]) then None
      else
        var t := SkipTo(s, m, end, IsSpace);
        var u := SkipTo(s, t, end, NotSpace);
        if t == end || u == t then None
        else
          var h := SkipTo(s, u, end, IsSpace);
          if h == end || !MatchAt(s, Ascii("HTTP/"), h) then None
          else
            HttpWithinLine(s, h, end);
            match ParseVersion(s, h + 5, end)
            case None => None
            case Some(version) => Some(RequestLine(Fragment(0, m), Fragment(t, u - t), version, end + 2))
  }

  /** The loop over the method names. */
  method FindMethod(token: seq<byte>) returns (known: bool)
    ensures known == KnownMethod(token)
  {
    var i := 0;
    while i < |METHODS|
      invariant i <= |METHODS|
      invariant forall j :: 0 <= j < i ==> !OccursIn(Ascii(METHODS[j]), token, |token|)
    {
      var found := Strnstr(token, Ascii(METHODS[i]), |token|);
      if found.Some? {
        return true;
      }
      i := i + 1;
    }
    return false;
  }

  /** The end of `http_parse_request_line`: the two version numbers. */
  method ParseVersionAt(s: seq<byte>, v: nat, end: nat) returns (r: Option<int>)
    requires v <= end < |s|
    ensures r == ParseVersion(s, v, end)
  {
    hide SkipTo, Atoin;
    var p := Skip(s, v, end, IsDigit);
    if p == v {
      return None;
    }
    var major := AtoinFromRight(s[v..p]);
    var minor := 0;
    if p < end && s[p] == DOT {
      p := p + 1;
      var w := p;
      p := Skip(s, p, end, IsDigit);
      if p > w {
        minor := AtoinFromRight(s[w..p]);
      } else {
        NoDigits(s[w..p]);
      }
    }
    return Some(PackVersion(major, minor));
  }

  lemma NoDigits(s: seq<byte>)
    requires s == []
    ensures Atoin(s) == 0
  {
  }

  /** `http_parse_request_line` on a NUL-terminated text. */
  method ParseRequestLine(s: seq<byte>) returns (r: Option<RequestLine>)
    ensures r == ParseRequest(s)
  {
    hide SkipTo, KnownMethod, ParseVersion;
    var found := FindCrlf(s, 0);
    if found == None {
      return None;
    }
    var end := found.value;
    var m := Skip(s, 0, end, NotSpace);
    if s[m] != SP || m == 0 {
      return None;
    }
    var known := FindMethod(s[..m]);
    if !known {
      return None;
    }
    var t := Skip(s, m, end, IsSpace);
    if t == end {
      return None;
    }
    var u := Skip(s, t, end, NotSpace);
    if u == t {
      return None;
    }
    var p := Skip(s, u, end, IsSpace);
    if p == end || !MatchAt(s, Ascii("HTTP/"), p) {
      return None;
    }
    HttpWithinLine(s, p, end);
    var version := ParseVersionAt(s, p + 5, end);
    if version == None {
      return None;
    }
    return Some(RequestLine(Fragment(0, m), Fragment(t, u - t), version.value, end + 2));
  }

  // ----- request lines written by the grammar of RFC 7230, section 3.1.1 -----

  /** A method name or a target: what one of the scans can deliver. */
  predicate Token(t: seq<byte>) {
    t != [] && SP !in t && CR !in t
  }

  predicate Spaces(t: seq<byte>) {
    t != [] && forall i :: 0 <= i < |t| ==> t[i] == SP
  }

  predicate Number(t: seq<byte>) {
    t != [] && AllDigits(t)
  }

  const CRLF: seq<byte> := [CR, LF]

  /** HTTP-version CRLF, and whatever follows the line. */
  function VersionText(major: seq<byte>, minor: seq<byte>, rest: seq<byte>): seq<byte> {
    major + ([DOT] + (minor + (CRLF + rest)))
  }

  /** method SP request-target SP HTTP-version CRLF, with any number of spaces for each SP. */
  function RequestText(name: seq<byte>, gap1: seq<byte>, target: seq<byte>, gap2: seq<byte>,
                       major: seq<byte>, minor: seq<byte>, rest: seq<byte>): seq<byte>
  {
    name + (gap1 + (target + (gap2 + (Ascii("HTTP/") + VersionText(major, minor, rest)))))
  }

  /** Wrapping around at 2^32 does not change the low octet. */
  lemma LowOctetOfWrapped(t: seq<byte>)
    requires Number(t)
    ensures Atoin(t) % 256 == DecimalValue(t) % 256
  {
    var d := DecimalValue(t);
    var q := WrapQuotient(d);
    assert Atoin(t) == d - (q * 0x100_0000) * 256;
    LowOctet(d, q * 0x100_0000);
  }

  lemma LowOctet(d: int, k: int)
    ensures (d - k * 256) % 256 == d % 256
  {
    var q := d / 256;
    assert d - k * 256 == (q - k) * 256 + d % 256;
  }

  lemma PackWrapped(major: seq<byte>, minor: seq<byte>)
    requires Number(major) && Number(minor)
    ensures PackVersion(Atoin(major), Atoin(minor)) == PackVersion(DecimalValue(major), DecimalValue(minor))
  {
    hide Atoin, DecimalValue;
    LowOctetOfWrapped(major);
    LowOctetOfWrapped(minor);
  }

  /** Where the scans of a version stop. */
  lemma VersionParts(s: seq<byte>, v: nat, end: nat, major: seq<byte>, minor: seq<byte>, rest: seq<byte>) returns (p: nat)
    requires v <= end < |s| && s[v..] == VersionText(major, minor, rest)
    requires Number(major) && Number(minor) && end == v + |major| + 1 + |minor|
    ensures p == v + |major| && SkipTo(s, v, end, IsDigit) == p && s[v..p] == major
    ensures p < end && s[p] == DOT && SkipTo(s, p + 1, end, IsDigit) == end && s[p + 1..end] == minor
  {
    hide SkipTo;
    p := v + |major|;
    SkipPart(s, v, end, major, [DOT] + (minor + (CRLF + rest)), IsDigit);
    Peel(s, p, [DOT], minor + (CRLF + rest));
    SkipPart(s, p + 1, end, minor, CRLF + rest, IsDigit);
  }

  lemma VersionAt(s: seq<byte>, v: nat, end: nat, major: seq<byte>, minor: seq<byte>, rest: seq<byte>)
    requires v <= end < |s| && s[v..] == VersionText(major, minor, rest)
    requires Number(major) && Number(minor) && end == v + |major| + 1 + |minor|
    ensures ParseVersion(s, v, end) == Some(PackVersion(DecimalValue(major), DecimalValue(minor)))
  {
    hide SkipTo, Atoin, PackVersion, DecimalValue, VersionText;
    var p := VersionParts(s, v, end, major, minor, rest);
    PackWrapped(major, minor);
  }

  lemma LineEnd(s: seq<byte>, line: seq<byte>, rest: seq<byte>)
    requires s == line + (CRLF + rest) && CR !in line
    ensures FindCrlf(s, 0) == Some(|line|)
  {
    FindFirstCrlf(s, 0, |line|);
  }

  /** Where the scans of a request line in the grammar stop. */
  lemma RequestParts(s: seq<byte>, end: nat, name: seq<byte>, gap1: seq<byte>, target: seq<byte>, gap2: seq<byte>, rest: seq<byte>)
    returns (m: nat, t: nat, u: nat, h: nat)
    requires Token(name) && Token(target) && Spaces(gap1) && Spaces(gap2)
    requires s == name + (gap1 + (target + (gap2 + rest)))
    requires rest != [] && rest[0] != SP && |name| + |gap1| + |target| + |gap2| <= end <= |s|
    ensures m == |name| && t == m + |gap1| && u == t + |target| && h == u + |gap2|
    ensures SkipTo(s, 0, end, NotSpace) == m && s[m] == SP && s[..m] == name
    ensures SkipTo(s, m, end, IsSpace) == t
    ensures SkipTo(s, t, end, NotSpace) == u && s[t..u] == target
    ensures SkipTo(s, u, end, IsSpace) == h && s[h..] == rest
  {
    hide SkipTo;
    var r3 := gap2 + rest;
    var r2 := target + r3;
    assert s[0..] == s;
    m := |name|;
    SkipPart(s, 0, end, name, gap1 + r2, NotSpace);
    Peel(s, 0, name, gap1 + r2);
    t := m + |gap1|;
    SkipPart(s, m, end, gap1, r2, IsSpace);
    u := t + |target|;
    SkipPart(s, t, end, target, r3, NotSpace);
    h := u + |gap2|;
    SkipPart(s, u, end, gap2, rest, IsSpace);
  }

  /** A request line in the grammar is found whole, whatever follows it. */
  lemma RequestRoundTrip(name: seq<byte>, gap1: seq<byte>, target: seq<byte>, gap2: seq<byte>,
                         major: seq<byte>, minor: seq<byte>, rest: seq<byte>)
    requires Token(name) && Token(target) && Spaces(gap1) && Spaces(gap2) && Number(major) && Number(minor)
    ensures var s := RequestText(name, gap1, target, gap2, major, minor, rest);
            var r := ParseRequest(s);
            && (r.Some? <==> KnownMethod(name))
            && (r.Some? ==>
                  var line := r.value;
                  && line.name.ptr + line.name.length <= |s| && Content(s, line.name) == name
                  && line.target.ptr + line.target.length <= |s| && Content(s, line.target) == target
                  && line.version == PackVersion(DecimalValue(major), DecimalValue(minor))
                  && line.next <= |s| && s[line.next..] == rest)
  {
    hide SkipTo, KnownMethod, ParseVersion, PackVersion, DecimalValue, AllDigits, VersionText, ParseRequest;
    var s := RequestText(name, gap1, target, gap2, major, minor, rest);
    var version := VersionText(major, minor, rest);
    RequestLineEnd(name, gap1, target, gap2, major, minor, rest);
    var end := FindCrlf(s, 0).value;
    var m, t, u, h := RequestParts(s, end, name, gap1, target, gap2, Ascii("HTTP/") + version);
    assert MatchAt(s, Ascii("HTTP/"), h) && s[h + 5..] == version by {
      Peel(s, h, Ascii("HTTP/"), version);
    }
    VersionAt(s, h + 5, end, major, minor, rest);
    RequestFrom(s, end, m, t, u, h);
  }

  /** How the scans determine the result. */
  lemma RequestFrom(s: seq<byte>, end: nat, m: nat, t: nat, u: nat, h: nat)
    requires FindCrlf(s, 0) == Some(end) && 0 < m < t < u < h < end
    requires SkipTo(s, 0, end, NotSpace) == m && s[m] == SP
    requires SkipTo(s, m, end, IsSpace) == t
    requires SkipTo(s, t, end, NotSpace) == u
    requires SkipTo(s, u, end, IsSpace) == h && MatchAt(s, Ascii("HTTP/"), h)
    requires h + 5 <= end && ParseVersion(s, h + 5, end).Some?
    ensures ParseRequest(s) ==
            if KnownMethod(s[..m])
            then Some(RequestLine(Fragment(0, m), Fragment(t, u - t), ParseVersion(s, h + 5, end).value, end + 2))
            else None
  {
    hide SkipTo, KnownMethod, ParseVersion;
  }

  lemma RequestLineEnd(name: seq<byte>, gap1: seq<byte>, target: seq<byte>, gap2: seq<byte>,
                       major: seq<byte>, minor: seq<byte>, rest: seq<byte>)
    requires Token(name) && Token(target) && Spaces(gap1) && Spaces(gap2) && Number(major) && Number(minor)
    ensures var s := RequestText(name, gap1, target, gap2, major, minor, rest);
            var end := |name| + |gap1| + |target| + |gap2| + 5 + |major| + 1 + |minor|;
            && FindCrlf(s, 0) == Some(end)
            && end + 2 <= |s| && s[end + 2..] == rest
  {
    var s := RequestText(name, gap1, target, gap2, major, minor, rest);
    var line := name + gap1 + target + gap2 + Ascii("HTTP/") + major + [DOT] + minor;
    assert s == line + (CRLF + rest);
    LineEnd(s, line, rest);
    Tail(s, line, rest);
  }

  lemma Tail(s: seq<byte>, line: seq<byte>, rest: seq<byte>)
    requires s == line + (CRLF + rest)
    ensures s[|line| + 2..] == rest
  {
  }

  /** The packed version gives both numbers back exactly when each fits an octet. */
  lemma VersionRecovered(major: nat, minor: nat)
    ensures PackVersion(major, minor) / 256 == major && PackVersion(major, minor) % 256 == minor
       <==> major < 256 && minor < 256
  {
  }

  /** The eight method names are accepted. */
  lemma MethodsKnown(i: nat)
    requires i < |METHODS|
    ensures Token(Ascii(METHODS[i])) && KnownMethod(Ascii(METHODS[i]))
  {
    var t := Ascii(METHODS[i]);
    assert MatchAt(t, t, 0);
    assert 0 + |t| <= |t|;
  }

  /** So is any token that merely contains one of them. */
  lemma MethodInsideToken(before: seq<byte>, i: nat, after: seq<byte>)
    requires i < |METHODS|
    ensures KnownMethod(before + Ascii(METHODS[i]) + after)
  {
    var sub := Ascii(METHODS[i]);
    var t := before + sub + after;
    assert t[|before|..|before| + |sub|] == sub;
    assert MatchAt(t, sub, |before|);
  }
}
