// UTF-8 of RFC 3629 section 4, which JSON texts and WebSocket text frames must
// be in, and what escaping and quoting do to it.

module Utf8 {
  import opened Bytes
  import opened StringExt
  import opened Json
  import opened Events

  predicate Continuation(c: byte) {
    0x80 <= c <= 0xBF
  }

  /** The second octet of a sequence, which its first octet restricts. */
  predicate Second(lead: byte, c: byte) {
    if lead == 0xE0 then 0xA0 <= c <= 0xBF
    else if lead == 0xED then 0x80 <= c <= 0x9F
    else if lead == 0xF0 then 0x90 <= c <= 0xBF
    else if lead == 0xF4 then 0x80 <= c <= 0x8F
    else Continuation(c)
  }

  /** The length of the sequence at the start of a text, or 0 if there is none. */
  function HeadLength(s: seq<byte>): (n: nat)
    ensures n <= |s|
  {
    if s == [] then 0
    else if s[0] < 0x80 then 1
    else if 0xC2 <= s[0] <= 0xDF then
      if |s| >= 2 && Second(s[0], s[1]) then 2 else 0
    else if 0xE0 <= s[0] <= 0xEF then
      if |s| >= 3 && Second(s[0], s[1]) && Continuation(s[2]) then 3 else 0
    else if 0xF0 <= s[0] <= 0xF4 then
      if |s| >= 4 && Second(s[0], s[1]) && Continuation(s[2]) && Continuation(s[3]) then 4 else 0
    else 0
  }

  predicate ValidUtf8(s: seq<byte>) {
    s == [] || (HeadLength(s) > 0 && ValidUtf8(s[HeadLength(s)..]))
  }

  // ----- scalar values -----

  /** The Unicode scalar values: code points but for surrogates. */
  predicate Scalar(n: nat) {
    n < 0xD800 || 0xE000 <= n < 0x11_0000
  }

  function Encoded(ns: seq<nat>): seq<byte>
    requires forall i :: 0 <= i < |ns| ==> Scalar(ns[i])
  {
    if ns == [] then [] else assert Scalar(ns[0]); Json.Utf8(ns[0]) + Encoded(ns[1..])
  }

  lemma HeadOfScalar(n: nat, t: seq<byte>)
    requires Scalar(n)
    ensures HeadLength(Json.Utf8(n) + t) == |Json.Utf8(n)|
  {
    var s := Json.Utf8(n);
    assert forall i :: 0 <= i < |s| ==> (s + t)[i] == s[i];
  }

  lemma Digits64(a: nat, b: nat)
    requires b < 64
    ensures (a * 64 + b) / 64 == a && (a * 64 + b) % 64 == b
  {
  }

  lemma TwoOctets(a: nat, b: nat)
    requires 2 <= a < 32 && b < 64
    ensures Json.Utf8(a * 64 + b) == [0xC0 + a, 0x80 + b]
  {
  }

  lemma ThreeOctets(a: nat, b: nat, c: nat)
    requires a < 16 && b < 64 && c < 64 && a * 64 + b >= 32
    ensures Json.Utf8((a * 64 + b) * 64 + c) == [0xE0 + a, 0x80 + b, 0x80 + c]
  {
    Digits64(a, b);
    Digits64(a * 64 + b, c);
    assert (a * 4096 + b * 64 + c) / 4096 == a;
  }

  lemma FourOctets(a: nat, b: nat, c: nat, d: nat)
    requires a < 8 && b < 64 && c < 64 && d < 64 && a * 64 + b >= 16
    ensures Json.Utf8(((a * 64 + b) * 64 + c) * 64 + d) == [0xF0 + a, 0x80 + b, 0x80 + c, 0x80 + d]
  {
    var n := ((a * 64 + b) * 64 + c) * 64 + d;
    Digits64(a, b);
    Digits64(a * 64 + b, c);
    Digits64((a * 64 + b) * 64 + c, d);
    assert n / 4096 == a * 64 + b && n / 0x4_0000 == a;
  }

  lemma ScalarAtHead(s: seq<byte>) returns (n: nat)
    requires HeadLength(s) > 0
    ensures Scalar(n) && s[..HeadLength(s)] == Json.Utf8(n)
  {
    hide Json.Utf8;
    var k := HeadLength(s);
    var b0: int := s[0];
    if k == 1 {
      n := b0;
      OneOctet(n);
    } else if k == 2 {
      var b1: int := s[1];
      n := (b0 - 0xC0) * 64 + (b1 - 0x80);
      TwoOctets(b0 - 0xC0, b1 - 0x80);
    } else if k == 3 {
      var b1: int, b2: int := s[1], s[2];
      n := ((b0 - 0xE0) * 64 + (b1 - 0x80)) * 64 + (b2 - 0x80);
      ThreeOctets(b0 - 0xE0, b1 - 0x80, b2 - 0x80);
    } else {
      var b1: int, b2: int, b3: int := s[1], s[2], s[3];
      n := (((b0 - 0xF0) * 64 + (b1 - 0x80)) * 64 + (b2 - 0x80)) * 64 + (b3 - 0x80);
      FourOctets(b0 - 0xF0, b1 - 0x80, b2 - 0x80, b3 - 0x80);
    }
  }

  lemma OneOctet(n: nat)
    requires n < 0x80
    ensures Json.Utf8(n) == [n]
  {
  }

  /** The encodings of scalar values are valid, */
  lemma {:induction false} EncodedValid(ns: seq<nat>)
    requires forall i :: 0 <= i < |ns| ==> Scalar(ns[i])
    ensures ValidUtf8(Encoded(ns))
  {
    if ns != [] {
      hide HeadLength, Json.Utf8;
      EncodedValid(ns[1..]);
      HeadOfScalar(ns[0], Encoded(ns[1..]));
      Utf8NotEmpty(ns[0]);
      assert (Json.Utf8(ns[0]) + Encoded(ns[1..]))[|Json.Utf8(ns[0])|..] == Encoded(ns[1..]);
    }
  }

  lemma Utf8NotEmpty(n: nat)
    requires n < 0x20_0000
    ensures Json.Utf8(n) != []
  {
  }

  /** and every valid text is one. */
  lemma {:induction false} ValidEncodes(s: seq<byte>) returns (ns: seq<nat>)
    requires ValidUtf8(s)
    ensures (forall i :: 0 <= i < |ns| ==> Scalar(ns[i])) && s == Encoded(ns)
    decreases |s|
  {
    hide HeadLength, Json.Utf8;
    if s == [] {
      ns := [];
    } else {
      var n := ScalarAtHead(s);
      var later := ValidEncodes(s[HeadLength(s)..]);
      ns := [n] + later;
      assert s == s[..HeadLength(s)] + s[HeadLength(s)..] && ns[1..] == later;
    }
  }

  /** UTF-8 are the texts that encode Unicode scalar values. */
  lemma ValidIffEncodes(s: seq<byte>)
    ensures ValidUtf8(s) <==> exists ns: seq<nat> :: (forall i :: 0 <= i < |ns| ==> Scalar(ns[i])) && s == Encoded(ns)
  {
    hide ValidUtf8;
    if ValidUtf8(s) {
      var ns := ValidEncodes(s);
    }
    if ns: seq<nat> :| (forall i :: 0 <= i < |ns| ==> Scalar(ns[i])) && s == Encoded(ns) {
      EncodedValid(ns);
    }
  }

  predicate AllAscii(s: seq<byte>) {
    forall i :: 0 <= i < |s| ==> s[i] < 0x80
  }

  /** An octet below 0x80 belongs to no longer sequence. */
  lemma HeadBeforeAscii(s: seq<byte>, c: byte, t: seq<byte>)
    requires s != [] && c < 0x80
    ensures HeadLength(s + [c] + t) == HeadLength(s)
  {
    var w := s + [c] + t;
    assert w[|s|] == c && forall i :: 0 <= i < |s| ==> w[i] == s[i];
  }

  /** So a text can be cut there. */
  lemma {:induction false} CutAtAscii(s: seq<byte>, c: byte, t: seq<byte>)
    requires c < 0x80
    ensures ValidUtf8(s + [c] + t) <==> ValidUtf8(s) && ValidUtf8(t)
    decreases |s|
  {
    var w := s + [c] + t;
    if s == [] {
      assert w[0] == c && w[1..] == t;
    } else {
      hide HeadLength;
      HeadBeforeAscii(s, c, t);
      var n := HeadLength(s);
      if n > 0 {
        assert w[n..] == s[n..] + [c] + t;
        CutAtAscii(s[n..], c, t);
      }
    }
  }

  lemma {:induction false} AsciiPrefix(a: seq<byte>, t: seq<byte>)
    requires AllAscii(a)
    ensures ValidUtf8(a + t) <==> ValidUtf8(t)
  {
    if a == [] {
      assert a + t == t;
    } else {
      var w := a + t;
      assert w[0] == a[0] && w[1..] == a[1..] + t;
      AsciiPrefix(a[1..], t);
    }
  }

  lemma AsciiText(a: seq<byte>)
    requires AllAscii(a)
    ensures ValidUtf8(a)
  {
    AsciiPrefix(a, []);
    assert a + [] == a;
  }

  lemma QuoteCut(s: seq<byte>, t: seq<byte>)
    ensures ValidUtf8([QUOTE] + s + [QUOTE] + t) <==> ValidUtf8(s) && ValidUtf8(t)
  {
    assert [QUOTE] + s + [QUOTE] + t == [QUOTE] + (s + [QUOTE] + t);
    AsciiPrefix([QUOTE], s + [QUOTE] + t);
    CutAtAscii(s, QUOTE, t);
  }

  // ----- escaping -----

  /** How many octets from 0x80 up a text starts with. */
  function HighRun(s: seq<byte>): (n: nat)
    ensures n <= |s| && (forall i :: 0 <= i < n ==> s[i] >= 0x80) && (n < |s| ==> s[n] < 0x80)
  {
    if s == [] || s[0] < 0x80 then 0 else 1 + HighRun(s[1..])
  }

  /** Escaping leaves such octets alone. */
  lemma {:induction false} EscapeHigh(s: seq<byte>, n: nat)
    requires n <= |s| && forall i :: 0 <= i < n ==> s[i] >= 0x80
    ensures Escape(s) == s[..n] + Escape(s[n..])
    decreases n
  {
    hide EscapeOctet;
    if n > 0 {
      var t := s[1..];
      EscapeHigh(t, n - 1);
      EscapedHigh(s[0]);
      assert t[n - 1..] == s[n..];
      assert s[..n] == [s[0]] + t[..n - 1];
    } else {
      assert s[0..] == s;
    }
  }

  lemma EscapedHigh(c: byte)
    requires c >= 0x80
    ensures EscapeOctet(c) == [c]
  {
  }

  /** Escaping replaces an octet below 0x80 by such octets. */
  lemma EscapedAscii(c: byte)
    requires c < 0x80
    ensures AllAscii(EscapeOctet(c)) && EscapeOctet(c) != []
  {
  }

  /** A text can be cut at an escaped octet as it can at the octet itself. */
  lemma CutAtEscaped(p: seq<byte>, c: byte, t: seq<byte>)
    requires c < 0x80
    ensures ValidUtf8(p + (EscapeOctet(c) + t)) <==> ValidUtf8(p) && ValidUtf8(t)
  {
    hide ValidUtf8, EscapeOctet;
    EscapedAscii(c);
    var e := EscapeOctet(c);
    assert p + (e + t) == p + [e[0]] + (e[1..] + t);
    CutAtAscii(p, e[0], e[1..] + t);
    AsciiPrefix(e[1..], t);
  }

  lemma EscapeAt(s: seq<byte>, n: nat)
    requires n < |s| && forall i :: 0 <= i < n ==> s[i] >= 0x80
    ensures Escape(s) == s[..n] + (EscapeOctet(s[n]) + Escape(s[n + 1..]))
  {
    hide EscapeOctet;
    EscapeHigh(s, n);
    assert s[n..][1..] == s[n + 1..];
  }

  /** So escaping keeps every longer sequence, and spoils none. */
  lemma {:induction false} EscapeKeepsUtf8(s: seq<byte>)
    ensures ValidUtf8(Escape(s)) <==> ValidUtf8(s)
    decreases |s|
  {
    hide ValidUtf8, EscapeOctet, Escape;
    var n := HighRun(s);
    if n == |s| {
      EscapeHigh(s, n);
      NothingEscaped(s[n..]);
      assert Escape(s) == s[..n] + [] == s;
    } else {
      EscapeAt(s, n);
      CutAtEscaped(s[..n], s[n], Escape(s[n + 1..]));
      EscapeKeepsUtf8(s[n + 1..]);
      assert s == s[..n] + [s[n]] + s[n + 1..];
      CutAtAscii(s[..n], s[n], s[n + 1..]);
    }
  }

  lemma NothingEscaped(s: seq<byte>)
    requires s == []
    ensures Escape(s) == []
  {
  }

  // ----- objects -----

  predicate Utf8Field(f: Field) {
    ValidUtf8(f.0) && (f.1.StringValue? ==> ValidUtf8(f.1.s))
  }

  lemma NumberText(n: int)
    ensures AllAscii(IntegerText(n))
  {
  }

  lemma ValueUtf8(v: Value, rest: seq<byte>)
    ensures v.StringValue? ==> (ValidUtf8(ValueText(v) + rest) <==> ValidUtf8(v.s) && ValidUtf8(rest))
    ensures !v.StringValue? ==> (ValidUtf8(ValueText(v) + rest) <==> ValidUtf8(rest))
  {
    hide ValidUtf8, Escape, Digits;
    match v
    case StringValue(s) =>
      QuoteCut(Escape(s), rest);
      EscapeKeepsUtf8(s);
    case IntegerValue(n) =>
      NumberText(n);
      AsciiPrefix(IntegerText(n), rest);
    case BoolValue(b) => AsciiPrefix(Ascii(if b then "true" else "false"), rest);
    case NullValue => AsciiPrefix(Ascii("null"), rest);
  }

  lemma MemberUtf8(f: Field, rest: seq<byte>)
    ensures ValidUtf8(MemberText(f) + rest) <==> Utf8Field(f) && ValidUtf8(rest)
  {
    hide ValidUtf8, Escape, ValueText;
    var value := ValueText(f.1) + rest;
    assert MemberText(f) + rest == [QUOTE] + Escape(f.0) + [QUOTE] + (Ascii(": ") + value);
    QuoteCut(Escape(f.0), Ascii(": ") + value);
    EscapeKeepsUtf8(f.0);
    AsciiPrefix(Ascii(": "), value);
    ValueUtf8(f.1, rest);
  }

  lemma {:induction false} MembersUtf8(fs: seq<Field>, rest: seq<byte>)
    requires fs != []
    ensures ValidUtf8(MembersText(fs) + rest) <==> (forall i :: 0 <= i < |fs| ==> Utf8Field(fs[i])) && ValidUtf8(rest)
  {
    hide ValidUtf8, MemberText, Utf8Field;
    if |fs| == 1 {
      MemberUtf8(fs[0], rest);
    } else {
      var later := MembersText(fs[1..]) + rest;
      assert MembersText(fs) + rest == MemberText(fs[0]) + (Ascii(", ") + later);
      MemberUtf8(fs[0], Ascii(", ") + later);
      AsciiPrefix(Ascii(", "), later);
      MembersUtf8(fs[1..], rest);
      assert fs == [fs[0]] + fs[1..];
    }
  }

  lemma ObjectUtf8(fs: seq<Field>)
    requires fs != []
    ensures ValidUtf8(ObjectText(fs)) <==> forall i :: 0 <= i < |fs| ==> Utf8Field(fs[i])
  {
    hide ValidUtf8, MembersText, Utf8Field;
    assert ObjectText(fs) == Ascii("{") + (MembersText(fs) + Ascii("}"));
    AsciiPrefix(Ascii("{"), MembersText(fs) + Ascii("}"));
    MembersUtf8(fs, Ascii("}"));
    AsciiText(Ascii("}"));
  }

  // ----- events -----

  predicate Utf8Pointer(p: CPointer) {
    p.Some? ==> ValidUtf8(CString(p.value))
  }

  /** The strings that the object of an event announces are UTF-8. */
  predicate Utf8Event(target: Target, e: Event) {
    match e
    case LogEvent(user, query, command, _, _, database, _) =>
      && Utf8Pointer(user) && Utf8Pointer(if query != None then query else command)
      && (target.HasQueryId() ==> Utf8Pointer(database))
    case ErrorEvent(message, _, _) => Utf8Pointer(message)
    case _ => true
  }

  lemma PointerUtf8(name: string, p: CPointer)
    requires PlainName(name)
    ensures Utf8Field(Named(name, PointerValue(p))) <==> Utf8Pointer(p)
  {
    hide ValidUtf8;
    AsciiText(Ascii(name));
  }

  lemma NumberUtf8(name: string, n: int64)
    requires PlainName(name)
    ensures Utf8Field(Named(name, IntegerValue(n)))
  {
    hide ValidUtf8;
    AsciiText(Ascii(name));
  }

  lemma TypeUtf8(kind: string)
    requires PlainName(kind)
    ensures Utf8Field(Named("type", StringValue(Ascii(kind))))
  {
    hide ValidUtf8;
    AsciiText(Ascii("type"));
    AsciiText(Ascii(kind));
  }

  lemma LogFieldsUtf8(target: Target, e: Event, time: int64)
    requires e.LogEvent?
    ensures (forall i :: 0 <= i < |Fields(target, e, time)| ==> Utf8Field(Fields(target, e, time)[i]))
        <==> Utf8Event(target, e)
  {
    hide Utf8Field, Named, PointerValue, AsLongLong, Utf8Pointer;
    var queryStr := if e.query != None then e.query else e.command;
    var fs := Fields(target, e, time);
    TypeUtf8("query_start");
    PointerUtf8("user", e.user);
    PointerUtf8("query", queryStr);
    NumberUtf8("time", time);
    NumberUtf8("rows", AsLongLong(e.rows));
    NumberUtf8("query_id", AsLongLong(e.queryId));
    NumberUtf8("query_id", e.counter);
    PointerUtf8("database", e.database);
    assert fs[1] == Named("user", PointerValue(e.user)) && fs[2] == Named("query", PointerValue(queryStr));
    assert target.HasQueryId() ==> fs[6] == Named("database", PointerValue(e.database));
  }

  lemma FieldsUtf8(target: Target, e: Event, time: int64)
    ensures (forall i :: 0 <= i < |Fields(target, e, time)| ==> Utf8Field(Fields(target, e, time)[i]))
        <==> Utf8Event(target, e)
  {
    hide Utf8Field, Named, PointerValue, AsLongLong, Utf8Pointer;
    var fs := Fields(target, e, time);
    NumberUtf8("time", time);
    match e {
      case LogEvent(_, _, _, _, _, _, _) => LogFieldsUtf8(target, e, time);
      case ErrorEvent(message, errorCode, queryId) =>
        TypeUtf8("query_error");
        NumberUtf8("query_id", AsLongLong(queryId));
        NumberUtf8("error_code", errorCode);
        PointerUtf8("error_message", message);
        assert fs[|fs| - 1] == Named("error_message", PointerValue(message));
      case ResultEvent(rows, queryId) =>
        TypeUtf8("query_result");
        NumberUtf8("query_id", AsLongLong(queryId));
        NumberUtf8("rows", AsLongLong(rows));
      case OtherEvent =>
    }
  }

  /** The text of an event is UTF-8 exactly when the strings it announces are. */
  lemma EventUtf8(target: Target, e: Event, time: int64)
    ensures ValidUtf8(EventText(target, e, time)) <==> Utf8Event(target, e)
  {
    hide Fields, ObjectText, Utf8Event, Utf8Field, ValidUtf8;
    FieldsEmpty(target, e, time);
    FieldsUtf8(target, e, time);
    if e.OtherEvent? {
      AsciiText(Ascii("{}"));
    } else {
      ObjectUtf8(Fields(target, e, time));
    }
  }
}
