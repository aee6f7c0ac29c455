// The JSON emission of src/json.c, against a decoder for the texts of RFC 8259.

module Json {
  import opened Bytes
  import opened StrBuf
  import opened StringExt

  const QUOTE: byte := '\"' as int
  const BACKSLASH: byte := '\\' as int
  const PERCENT: byte := '%' as int

  // ----- strings -----

  /** The octet that stands after the backslash, for the octets the source escapes. */
  function EscapeLetter(c: byte): Option<byte> {
    if c == '\"' as int then Some('\"' as int)
    else if c == '\\' as int then Some('\\' as int)
    else if c == 0x08 then Some('b' as int)
    else if c == 0x0C then Some('f' as int)
    else if c == 0x0A then Some('n' as int)
    else if c == 0x0D then Some('r' as int)
    else if c == 0x09 then Some('t' as int)
    else None
  }

  function EscapeOctet(c: byte): seq<byte> {
    match EscapeLetter(c)
    case Some(l) => [BACKSLASH, l]
    case None => [c]
  }

  function Escape(s: seq<byte>): seq<byte> {
    if s == [] then [] else EscapeOctet(s[0]) + Escape(s[1..])
  }

  function Quoted(s: seq<byte>): seq<byte> {
    [QUOTE] + Escape(s) + [QUOTE]
  }

  /** A null pointer is written as the literal null. */
  function StringText(s: Option<seq<byte>>): seq<byte> {
    match s
    case None => Ascii("null")
    case Some(t) => Quoted(CString(t))
  }

  // ----- a decoder: RFC 8259 section 7 -----

  function HexValue(c: byte): Option<nat> {
    if '0' as int <= c <= '9' as int then Some(c - '0' as int)
    else if 'a' as int <= c <= 'f' as int then Some(c - 'a' as int + 10)
    else if 'A' as int <= c <= 'F' as int then Some(c - 'A' as int + 10)
    else None
  }

  function Hex4(s: seq<byte>): Option<nat> {
    if |s| < 4 then None
    else match (HexValue(s[0]), HexValue(s[1]), HexValue(s[2]), HexValue(s[3]))
      case (Some(a), Some(b), Some(c), Some(d)) => Some(a * 4096 + b * 256 + c * 16 + d)
      case _ => None
  }

  /** The UTF-8 encoding of a code point below 2^21. */
  function Utf8(n: nat): seq<byte>
    requires n < 0x20_0000
  {
    if n < 0x80 then [n]
    else if n < 0x800 then [0xC0 + n / 64, 0x80 + n % 64]
    else if n < 0x1_0000 then [0xE0 + n / 4096, 0x80 + n / 64 % 64, 0x80 + n % 64]
    else [0xF0 + n / 0x4_0000, 0x80 + n / 4096 % 64, 0x80 + n / 64 % 64, 0x80 + n % 64]
  }

  /** What follows the `u` of an escape: the decoded octets and how many octets were used. */
  function UnicodeEscape(s: seq<byte>): (r: Option<(seq<byte>, nat)>)
    ensures r.Some? ==> r.value.1 <= |s|
  {
    match Hex4(s)
    case None => None
    case Some(n) =>
      if n >= 0x1_0000 || 0xDC00 <= n < 0xE000 then None
      else if n < 0xD800 || n >= 0xE000 then Some((Utf8(n), 4))
      else if |s| >= 10 && s[4] == BACKSLASH && s[5] == 'u' as int then
        (match Hex4(s[6..])
         case Some(m) =>
           if 0xDC00 <= m < 0xE000 then Some((Utf8(0x1_0000 + (n - 0xD800) * 1024 + (m - 0xDC00)), 10)) else None
         case None => None)
      else None
  }

  function Unescape(l: byte): Option<byte> {
    if l == '\"' as int || l == '\\' as int || l == '/' as int then Some(l)
    else if l == 'b' as int then Some(0x08)
    else if l == 'f' as int then Some(0x0C)
    else if l == 'n' as int then Some(0x0A)
    else if l == 'r' as int then Some(0x0D)
    else if l == 't' as int then Some(0x09)
    else None
  }

  /** Decodes up to the closing quote; gives the string and what follows the quote. */
  function DecodeChars(s: seq<byte>): (r: Option<(seq<byte>, seq<byte>)>)
    ensures r.Some? ==> |r.value.1| < |s|
    decreases |s|
  {
    if s == [] || s[0] < 0x20 then None
    else if s[0] == QUOTE then Some(([], s[1..]))
    else if s[0] != BACKSLASH then Prepend([s[0]], DecodeChars(s[1..]))
    else if |s| == 1 then None
    else if s[1] == 'u' as int then
      (match UnicodeEscape(s[2..])
       case Some(u) => Prepend(u.0, DecodeChars(s[2 + u.1..]))
       case None => None)
    else
      match Unescape(s[1])
      case Some(c) => Prepend([c], DecodeChars(s[2..]))
      case None => None
  }

  function Prepend(p: seq<byte>, r: Option<(seq<byte>, seq<byte>)>): (q: Option<(seq<byte>, seq<byte>)>)
    ensures q.Some? <==> r.Some?
    ensures q.Some? ==> q.value.1 == r.value.1
  {
    match r
    case Some(t) => Some((p + t.0, t.1))
    case None => None
  }

  function DecodeString(s: seq<byte>): (r: Option<(seq<byte>, seq<byte>)>)
    ensures r.Some? ==> |r.value.1| < |s|
  {
    if s != [] && s[0] == QUOTE then DecodeChars(s[1..]) else None
  }

  predicate CleanOctet(c: byte) {
    c >= 0x20 || c in {0x08, 0x09, 0x0A, 0x0C, 0x0D}
  }

  /** No control characters besides the five the source escapes. */
  predicate Clean(s: seq<byte>) {
    forall i :: 0 <= i < |s| ==> CleanOctet(s[i])
  }

  lemma UnescapeLetter(c: byte)
    ensures EscapeLetter(c).Some? ==>
              && CleanOctet(c)
              && EscapeLetter(c).value != 'u' as int && Unescape(EscapeLetter(c).value) == Some(c)
    ensures EscapeLetter(c).None? ==> c != QUOTE && c != BACKSLASH && (CleanOctet(c) <==> c >= 0x20)
  {
  }

  lemma DecodeOctet(c: byte, t: seq<byte>)
    ensures DecodeChars(EscapeOctet(c) + t) == if CleanOctet(c) then Prepend([c], DecodeChars(t)) else None
  {
    hide Unescape, EscapeLetter, UnicodeEscape;
    UnescapeLetter(c);
    var s := EscapeOctet(c) + t;
    if EscapeLetter(c).Some? {
      assert s == [BACKSLASH, EscapeLetter(c).value] + t && s[2..] == t;
    } else {
      assert s == [c] + t && s[1..] == t;
    }
  }

  /**
   * Decoding an emitted string stops at its closing quote and gives the string
   * back, exactly when it holds no control character that the source leaves raw.
   */
  lemma {:induction false} DecodeEscaped(s: seq<byte>, rest: seq<byte>)
    ensures DecodeChars(Escape(s) + [QUOTE] + rest) == if Clean(s) then Some((s, rest)) else None
  {
    if s == [] {
      assert Escape(s) + [QUOTE] + rest == [QUOTE] + rest;
    } else {
      hide DecodeChars, EscapeOctet, CleanOctet;
      var c, tail := s[0], s[1..];
      var t := Escape(tail) + [QUOTE] + rest;
      assert s == [c] + tail;
      DecodeEscaped(tail, rest);
      assert Escape(s) + [QUOTE] + rest == EscapeOctet(c) + t;
      DecodeOctet(c, t);
      assert Clean(s) <==> CleanOctet(c) && Clean(tail);
    }
  }

  lemma QuotedRoundTrip(s: seq<byte>, rest: seq<byte>)
    ensures DecodeString(Quoted(s) + rest) == if Clean(s) then Some((s, rest)) else None
  {
    hide Escape, DecodeChars;
    DecodeEscaped(s, rest);
    assert (Quoted(s) + rest)[1..] == Escape(s) + [QUOTE] + rest;
  }

  // ----- integers -----

  type int64 = x: int | -0x8000_0000_0000_0000 <= x < 0x8000_0000_0000_0000

  const MAX_LONGLONG_SIZE := 40

  /** Decimal printing, `%lld`. */
  function IntegerText(n: int): seq<byte> {
    if n < 0 then ['-' as int] + Digits(-n) else Digits(n)
  }

  /** The 40-octet buffer of the source holds every 64-bit number and its NUL. */
  lemma IntegerTextFits(n: int64)
    ensures |IntegerText(n)| + 1 <= 21 < MAX_LONGLONG_SIZE
  {
    Pow10Of19();
    if n < 0 {
      DigitCount(-(n as int), 19);
    } else {
      DigitCount(n, 19);
    }
  }

  lemma Pow10Of19()
    ensures Pow10(19) > 0x8000_0000_0000_0000
  {
    assert Pow10(6) == 10 * Pow10(5) == 100 * Pow10(4) == 1000 * Pow10(3) == 1000_000;
    assert Pow10(12) == 10 * Pow10(11) == 100 * Pow10(10) == 1000 * Pow10(9);
    assert Pow10(9) == 10 * Pow10(8) == 100 * Pow10(7) == 1000 * Pow10(6);
    assert Pow10(18) == 10 * Pow10(17) == 100 * Pow10(16) == 1000 * Pow10(15);
    assert Pow10(15) == 10 * Pow10(14) == 100 * Pow10(13) == 1000 * Pow10(12);
    assert Pow10(19) == 10 * Pow10(18);
  }

  /** How many octets at the start of `s` are digits. */
  function DigitRun(s: seq<byte>): (n: nat)
    ensures n <= |s| && AllDigits(s[..n])
    ensures n < |s| ==> !IsDigit(s[n])
  {
    if s == [] || !IsDigit(s[0]) then 0
    else
      var n := DigitRun(s[1..]);
      assert s[..n + 1] == [s[0]] + s[1..][..n];
      n + 1
  }

  /** The integers among the numbers of RFC 8259 section 6; fractions and exponents are refused. */
  function DecodeInteger(s: seq<byte>): (r: Option<(int, seq<byte>)>)
    ensures r.Some? ==> |r.value.1| < |s|
  {
    var negative := s != [] && s[0] == '-' as int;
    var t := if negative then s[1..] else s;
    var n := DigitRun(t);
    if n == 0 || (n > 1 && t[0] == ZERO) then None
    else if n < |t| && t[n] in {'.' as int, 'e' as int, 'E' as int} then None
    else
      var v: int := DecimalValue(t[..n]);
      Some((if negative then -v else v, t[n..]))
  }

  predicate EndsNumber(rest: seq<byte>) {
    rest == [] || (!IsDigit(rest[0]) && rest[0] !in {'.' as int, 'e' as int, 'E' as int})
  }

  lemma {:induction false} DigitRunOf(s: seq<byte>, rest: seq<byte>)
    requires AllDigits(s) && EndsNumber(rest)
    ensures DigitRun(s + rest) == |s|
  {
    if s == [] {
      assert s + rest == rest;
    } else {
      assert (s + rest)[1..] == s[1..] + rest;
      DigitRunOf(s[1..], rest);
    }
  }

  lemma IntegerRoundTrip(n: int, rest: seq<byte>)
    requires EndsNumber(rest)
    ensures DecodeInteger(IntegerText(n) + rest) == Some((n, rest))
  {
    hide Digits, DigitRun, DecimalValue;
    var d := Digits(if n < 0 then -n else n);
    ValueOfDigits(if n < 0 then -n else n);
    DigitRunOf(d, rest);
    var s := IntegerText(n) + rest;
    var t := d + rest;
    assert n < 0 ==> s[1..] == t;
    assert n >= 0 ==> s == t && IsDigit(s[0]);
    assert t[..|d|] == d && t[|d|..] == rest;
  }

  // ----- formatted emission -----

  /** The variadic arguments; a double is represented by the text snprintf gives it. */
  datatype Arg = BoolArg(b: bool) | DoubleArg(text: seq<byte>) | IntegerArg(n: int64) | StringArg(s: Option<seq<byte>>)

  function ArgText(a: Arg): seq<byte> {
    match a
    case BoolArg(b) => Ascii(if b then "true" else "false")
    case DoubleArg(text) => text
    case IntegerArg(n) => IntegerText(n)
    case StringArg(s) => StringText(s)
  }

  predicate IsConversion(c: byte) {
    c in {'b' as int, 'f' as int, 'i' as int, 'l' as int, 'L' as int, 's' as int}
  }

  predicate Accepts(c: byte, a: Arg) {
    if c == 'b' as int then a.BoolArg? else if c == 'f' as int then a.DoubleArg?
    else if c == 's' as int then a.StringArg? else a.IntegerArg?
  }

  /** Every conversion of the format finds an argument of its type, as `va_arg` demands. */
  predicate ArgsMatch(format: seq<byte>, args: seq<Arg>)
    decreases |format|
  {
    if format == [] then true
    else if format[0] == PERCENT && |format| > 1 then
      if IsConversion(format[1]) then
        args != [] && Accepts(format[1], args[0]) && ArgsMatch(format[2..], args[1..])
      else ArgsMatch(format[2..], args)
    else ArgsMatch(format[1..], args)
  }

  /** What `json_encode` appends; an unknown conversion appends nothing. */
  function Expand(format: seq<byte>, args: seq<Arg>): seq<byte>
    requires ArgsMatch(format, args)
    decreases |format|
  {
    if format == [] then []
    else if format[0] == PERCENT && |format| > 1 then
      if IsConversion(format[1]) then ArgText(args[0]) + Expand(format[2..], args[1..])
      else Expand(format[2..], args)
    else [format[0]] + Expand(format[1..], args)
  }

  /** `strbuf_append`, as the emitters use it. */
  method Put(json: StrBuf, text: seq<byte>) returns (error: int)
    requires json.Valid()
    modifies json, json.str
    ensures json.Valid() && (json.str == old(json.str) || fresh(json.str))
    ensures error == SUCCESS && json.Text() == old(json.Text()) + text
  {
    error := json.Append(text);
  }

  /** `json_encode_string`. */
  method EncodeString(json: StrBuf, str: Option<seq<byte>>)
    requires json.Valid()
    modifies json, json.str
    ensures json.Valid() && (json.str == old(json.str) || fresh(json.str))
    ensures json.Text() == old(json.Text()) + StringText(str)
  {
    hide Escape, EscapeOctet;
    if str == None {
      var _ := Put(json, Ascii("null"));
      return;
    }
    var s := CString(str.value);
    ghost var start := json.Text();
    var error := Put(json, [QUOTE]);
    var i := 0;
    EscapeSuffix(s, 0);
    while i < |s|
      invariant i <= |s| && json.Valid() && (json.str == old(json.str) || fresh(json.str))
      invariant json.Text() + Escape(s[i..]) == start + [QUOTE] + Escape(s)
    {
      EscapeSuffix(s, i);
      ghost var before, piece, after := json.Text(), EscapeOctet(s[i]), Escape(s[i + 1..]);
      error := Put(json, EscapeOctet(s[i]));
      assert before + (piece + after) == before + piece + after;
      if error != 0 {
        return;
      }
      i := i + 1;
    }
    EscapeSuffix(s, |s|);
    assert json.Text() == start + [QUOTE] + Escape(s);
    error := Put(json, [QUOTE]);
    assert start + [QUOTE] + Escape(s) + [QUOTE] == start + Quoted(s);
  }

  lemma EscapeSuffix(s: seq<byte>, i: nat)
    requires i <= |s|
    ensures s[0..] == s
    ensures i == |s| ==> Escape(s[i..]) == []
    ensures i < |s| ==> Escape(s[i..]) == EscapeOctet(s[i]) + Escape(s[i + 1..])
  {
    assert i < |s| ==> s[i..][1..] == s[i + 1..];
  }

  /** One conversion of `json_encode`. */
  method EncodeArg(json: StrBuf, arg: Arg)
    requires json.Valid()
    modifies json, json.str
    ensures json.Valid() && (json.str == old(json.str) || fresh(json.str))
    ensures json.Text() == old(json.Text()) + ArgText(arg)
  {
    match arg
    case BoolArg(b) => var _ := Put(json, Ascii(if b then "true" else "false"));
    case DoubleArg(text) => var _ := Put(json, text);
    case IntegerArg(n) => var _ := Put(json, IntegerText(n));
    case StringArg(str) => EncodeString(json, str);
  }

  /** `json_encode`: the format is copied with every conversion replaced by its argument. */
  method Encode(json: StrBuf, format: seq<byte>, args: seq<Arg>)
    requires json.Valid() && ArgsMatch(format, args)
    modifies json, json.str
    ensures json.Valid() && (json.str == old(json.str) || fresh(json.str))
    ensures json.Text() == old(json.Text()) + Expand(format, args)
  {
    hide ArgText, Expand, ArgsMatch, IsConversion;
    ghost var start := json.Text();
    var i, k := 0, 0;
    assert format[0..] == format && args[0..] == args;
    while i < |format|
      invariant i <= |format| && k <= |args|
      invariant json.Valid() && (json.str == old(json.str) || fresh(json.str))
      invariant ArgsMatch(format[i..], args[k..])
      invariant json.Text() + Expand(format[i..], args[k..]) == start + Expand(format, args)
    {
      ghost var before := json.Text();
      ExpandAt(format, args, i, k);
      if format[i] == PERCENT && i + 1 < |format| {
        i := i + 1;
        if IsConversion(format[i]) {
          ghost var after := Expand(format[i + 1..], args[k + 1..]);
          EncodeArg(json, args[k]);
          assert before + (ArgText(args[k]) + after) == before + ArgText(args[k]) + after;
          k := k + 1;
        }
      } else {
        ghost var after := Expand(format[i + 1..], args[k..]);
        var _ := Put(json, [format[i]]);
        assert before + ([format[i]] + after) == before + [format[i]] + after;
      }
      i := i + 1;
    }
    NothingToExpand(format[|format|..], args[k..]);
  }

  lemma NothingToExpand(format: seq<byte>, args: seq<Arg>)
    requires format == []
    ensures ArgsMatch(format, args) && Expand(format, args) == []
  {
  }

  lemma ExpandAt(format: seq<byte>, args: seq<Arg>, i: nat, k: nat)
    requires i < |format| && k <= |args| && ArgsMatch(format[i..], args[k..])
    ensures format[i] == PERCENT && i + 1 < |format| && IsConversion(format[i + 1]) ==>
              && k < |args| && ArgsMatch(format[i + 2..], args[k + 1..])
              && Expand(format[i..], args[k..]) == ArgText(args[k]) + Expand(format[i + 2..], args[k + 1..])
    ensures format[i] == PERCENT && i + 1 < |format| && !IsConversion(format[i + 1]) ==>
              && ArgsMatch(format[i + 2..], args[k..])
              && Expand(format[i..], args[k..]) == Expand(format[i + 2..], args[k..])
    ensures !(format[i] == PERCENT && i + 1 < |format|) ==>
              && ArgsMatch(format[i + 1..], args[k..])
              && Expand(format[i..], args[k..]) == [format[i]] + Expand(format[i + 1..], args[k..])
  {
    hide ArgText, IsConversion;
    var f := format[i..];
    assert f[1..] == format[i + 1..];
    assert |f| > 1 ==> f[2..] == format[i + 2..];
    assert k < |args| ==> args[k..][1..] == args[k + 1..];
  }

  // ----- objects of strings, integers and literals: RFC 8259 sections 2 to 4 -----

  datatype Value = StringValue(s: seq<byte>) | IntegerValue(n: int) | BoolValue(b: bool) | NullValue

  predicate IsBlank(c: byte) {
    c in {0x20, 0x09, 0x0A, 0x0D}
  }

  function SkipBlanks(s: seq<byte>): (r: seq<byte>)
    ensures |r| <= |s|
  {
    if s != [] && IsBlank(s[0]) then SkipBlanks(s[1..]) else s
  }

  function StartsWith(s: seq<byte>, p: seq<byte>): bool {
    |p| <= |s| && s[..|p|] == p
  }

  function DecodeValue(s: seq<byte>): (r: Option<(Value, seq<byte>)>)
    ensures r.Some? ==> |r.value.1| < |s|
  {
    if s == [] then None
    else if s[0] == QUOTE then
      match DecodeString(s) case Some(t) => Some((StringValue(t.0), t.1)) case None => None
    else if StartsWith(s, Ascii("null")) then Some((NullValue, s[4..]))
    else if StartsWith(s, Ascii("true")) then Some((BoolValue(true), s[4..]))
    else if StartsWith(s, Ascii("false")) then Some((BoolValue(false), s[5..]))
    else
      match DecodeInteger(s) case Some(t) => Some((IntegerValue(t.0), t.1)) case None => None
  }

  type Field = (seq<byte>, Value)

  /** `"name" : value` with blanks where the grammar allows them. */
  function DecodeMember(s: seq<byte>): (r: Option<(Field, seq<byte>)>)
    ensures r.Some? ==> |r.value.1| < |s|
  {
    match DecodeString(s)
    case None => None
    case Some(name) =>
      var t := SkipBlanks(name.1);
      if t == [] || t[0] != ':' as int then None
      else
        match DecodeValue(SkipBlanks(t[1..]))
        case None => None
        case Some(v) => Some(((name.0, v.0), v.1))
  }

  /** Members separated by commas up to the closing brace. */
  function DecodeMembers(s: seq<byte>): (r: Option<(seq<Field>, seq<byte>)>)
    decreases |s|
  {
    match DecodeMember(s)
    case None => None
    case Some(m) =>
      var t := SkipBlanks(m.1);
      if t == [] then None
      else if t[0] == '}' as int then Some(([m.0], t[1..]))
      else if t[0] != ',' as int then None
      else
        match DecodeMembers(SkipBlanks(t[1..]))
        case None => None
        case Some(rest) => Some(([m.0] + rest.0, rest.1))
  }

  function DecodeObject(s: seq<byte>): Option<(seq<Field>, seq<byte>)> {
    if s == [] || s[0] != '{' as int then None
    else
      var t := SkipBlanks(s[1..]);
      if t != [] && t[0] == '}' as int then Some(([], t[1..])) else DecodeMembers(t)
  }

  // ----- what is emitted for a list of fields -----

  function ValueText(v: Value): seq<byte> {
    match v
    case StringValue(s) => Quoted(s)
    case IntegerValue(n) => IntegerText(n)
    case BoolValue(b) => Ascii(if b then "true" else "false")
    case NullValue => Ascii("null")
  }

  predicate CleanValue(v: Value) {
    v.StringValue? ==> Clean(v.s)
  }

  predicate CleanField(f: Field) {
    Clean(f.0) && CleanValue(f.1)
  }

  function MemberText(f: Field): seq<byte> {
    Quoted(f.0) + Ascii(": ") + ValueText(f.1)
  }

  function MembersText(fs: seq<Field>): seq<byte>
    requires fs != []
  {
    if |fs| == 1 then MemberText(fs[0]) else MemberText(fs[0]) + Ascii(", ") + MembersText(fs[1..])
  }

  function ObjectText(fs: seq<Field>): seq<byte>
    requires fs != []
  {
    Ascii("{") + MembersText(fs) + Ascii("}")
  }

  lemma ValueRoundTrip(v: Value, rest: seq<byte>)
    requires EndsNumber(rest)
    ensures DecodeValue(ValueText(v) + rest) == if CleanValue(v) then Some((v, rest)) else None
  {
    hide DecodeString, Quoted, DecodeInteger, IntegerText, Clean;
    var s := ValueText(v) + rest;
    match v
    case StringValue(t) =>
      QuotedRoundTrip(t, rest);
      assert s[0] == QUOTE by {
        QuotedStart(t);
      }
    case IntegerValue(n) =>
      IntegerRoundTrip(n, rest);
      IntegerStart(n);
      assert Ascii("null")[0] == 'n' as int && Ascii("true")[0] == 't' as int && Ascii("false")[0] == 'f' as int;
    case BoolValue(b) =>
      var p := if b then "true" else "false";
      assert s[..|p|] == Ascii(p) && s[|p|..] == rest;
      assert s[0] == p[0] as int;
      assert Ascii("null")[0] == 'n' as int && Ascii("true")[0] == 't' as int;
    case NullValue =>
      assert s[..4] == Ascii("null") && s[4..] == rest;
  }

  lemma QuotedStart(s: seq<byte>)
    ensures Quoted(s) != [] && Quoted(s)[0] == QUOTE
  {
  }

  lemma IntegerStart(n: int)
    ensures var s := IntegerText(n);
      s != [] && (s[0] == '-' as int || IsDigit(s[0]))
  {
  }

  lemma NoBlanks(s: seq<byte>)
    requires s == [] || !IsBlank(s[0])
    ensures SkipBlanks(s) == s
  {
  }

  lemma OneBlank(s: seq<byte>)
    requires s == [] || !IsBlank(s[0])
    ensures SkipBlanks([0x20] + s) == s
  {
    assert ([0x20] + s)[1..] == s;
  }

  lemma ValueStart(v: Value)
    ensures ValueText(v) != [] && !IsBlank(ValueText(v)[0])
  {
    if v.IntegerValue? {
      IntegerStart(v.n);
    }
  }

  lemma MemberRoundTrip(f: Field, rest: seq<byte>)
    requires EndsNumber(rest)
    ensures DecodeMember(MemberText(f) + rest) == if CleanField(f) then Some((f, rest)) else None
  {
    hide DecodeString, Quoted, ValueText, DecodeValue, Clean, IsBlank, SkipBlanks;
    var value := ValueText(f.1) + rest;
    var afterName := [':' as int] + ([0x20] + value);
    assert Ascii(": ") == [':' as int, 0x20];
    assert MemberText(f) + rest == Quoted(f.0) + afterName;
    QuotedRoundTrip(f.0, afterName);
    ColonIsNoBlank();
    NoBlanks(afterName);
    assert afterName[1..] == [0x20] + value;
    ValueStart(f.1);
    OneBlank(value);
    ValueRoundTrip(f.1, rest);
  }

  lemma ColonIsNoBlank()
    ensures !IsBlank(':' as int) && !IsBlank(',' as int) && !IsBlank('}' as int) && !IsBlank(QUOTE)
  {
  }

  lemma MembersStart(fs: seq<Field>)
    requires fs != []
    ensures MembersText(fs) != [] && MembersText(fs)[0] == QUOTE
  {
    QuotedStart(fs[0].0);
  }

  lemma {:induction false} MembersRoundTrip(fs: seq<Field>, rest: seq<byte>)
    requires fs != []
    ensures DecodeMembers(MembersText(fs) + Ascii("}") + rest)
         == if forall i :: 0 <= i < |fs| ==> CleanField(fs[i]) then Some((fs, rest)) else None
  {
    hide DecodeMember, MemberText, CleanField, SkipBlanks, IsBlank;
    ColonIsNoBlank();
    assert Ascii("}") == ['}' as int];
    var f, tail := fs[0], fs[1..];
    if |fs| == 1 {
      var close := ['}' as int] + rest;
      assert MembersText(fs) + Ascii("}") + rest == MemberText(f) + close;
      MemberRoundTrip(f, close);
      NoBlanks(close);
      assert close[1..] == rest && fs == [f];
    } else {
      var next := MembersText(tail) + Ascii("}") + rest;
      var comma := [',' as int] + ([0x20] + next);
      assert Ascii(", ") == [',' as int, 0x20];
      assert MembersText(fs) + Ascii("}") + rest == MemberText(f) + comma;
      MemberRoundTrip(f, comma);
      NoBlanks(comma);
      assert comma[1..] == [0x20] + next;
      MembersStart(tail);
      OneBlank(next);
      MembersRoundTrip(tail, rest);
      assert fs == [f] + tail;
      AllCleanCons(f, tail);
    }
  }

  lemma AllCleanCons(f: Field, fs: seq<Field>)
    ensures (forall i :: 0 <= i < |[f] + fs| ==> CleanField(([f] + fs)[i]))
        <==> CleanField(f) && forall i :: 0 <= i < |fs| ==> CleanField(fs[i])
  {
    hide CleanField;
    var all := [f] + fs;
    assert all[0] == f;
    assert forall i :: 0 <= i < |fs| ==> all[i + 1] == fs[i];
  }

  /** Decoding an emitted object gives its field list back exactly when every string in it is clean. */
  lemma ObjectRoundTrip(fs: seq<Field>, rest: seq<byte>)
    requires fs != []
    ensures DecodeObject(ObjectText(fs) + rest)
         == if forall i :: 0 <= i < |fs| ==> CleanField(fs[i]) then Some((fs, rest)) else None
  {
    hide MembersText, DecodeMembers, CleanField, IsBlank, SkipBlanks;
    var s := ObjectText(fs) + rest;
    var t := MembersText(fs) + Ascii("}") + rest;
    assert s == Ascii("{") + t && s[1..] == t;
    MembersStart(fs);
    ColonIsNoBlank();
    NoBlanks(t);
    MembersRoundTrip(fs, rest);
  }
}
