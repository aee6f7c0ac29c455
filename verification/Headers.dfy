// The header field scanner of src/http.c, and what it makes of a header block
// written by the grammar of RFC 7230, section 3.2.

module Headers {
  import opened Bytes
  import opened Scanning
  import opened Http

  datatype Header = Header(name: Fragment, value: Fragment)

  /** The callbacks made, and the position returned (None for `NULL`). */
  datatype Scan = Scan(calls: seq<Header>, next: Option<nat>)

  /** The last octet before `p` that is not a space; the one at `low` is not. */
  function TrimEnd(s: seq<byte>, p: nat, low: nat): (r: nat)
    requires low < p <= |s| && !IsSpace(s[low])
    ensures low <= r < p && !IsSpace(s[r])
    ensures forall i :: r < i < p ==> IsSpace(s[i])
    decreases p
  {
    if IsSpace(s[p - 1]) then TrimEnd(s, p - 1, low) else p - 1
  }

  /** `last - start + 1` as a `size_t`. */
  function FragmentLength(start: nat, last: nat): (r: nat)
    ensures r < TWO_64
  {
    (last - start + 1) % TWO_64
  }

  /** The value after the colon at `c` in a line that ends at `end`. */
  function FieldValue(s: seq<byte>, c: nat, end: nat): Option<Fragment>
    requires c < end <= |s| && s[c] == COLON
  {
    var v := SkipTo(s, c + 1, end, IsHSpace);
    var length := FragmentLength(v, TrimEnd(s, end, c));
    if length == 0 then None else Some(Fragment(v, length))
  }

  /** The field in the line that starts at `p` and ends at `end`. */
  function ParseField(s: seq<byte>, p: nat, end: nat): Option<Header>
    requires p <= end <= |s|
  {
    var n := SkipTo(s, p, end, NameOctet);
    var c := SkipTo(s, n, end, IsHSpace);
    if n == p || c == end || s[c] != COLON then None
    else
      match FieldValue(s, c, end)
      case None => None
      case Some(value) => Some(Header(Fragment(p, n - p), value))
  }

  /** What `http_parse_headers` does from position `p` on. */
  function ScanFrom(s: seq<byte>, p: nat): Scan
    decreases |s| - p
  {
    match FindCrlf(s, p)
    case None => Scan([], Some(p))
    case Some(end) =>
      if end == p then Scan([], Some(p + 2))
      else
        match ParseField(s, p, end)
        case None => Scan([], None)
        case Some(h) =>
          var later := ScanFrom(s, end + 2);
          Scan([h] + later.calls, later.next)
  }

  // ----- the scanner -----

  /** `while (IS_SPACE(*--p)) {}` */
  method TrimBack(s: seq<byte>, end: nat, low: nat) returns (p: nat)
    requires low < end <= |s| && !IsSpace(s[low])
    ensures p == TrimEnd(s, end, low)
  {
    p := end - 1;
    while IsSpace(s[p])
      invariant low <= p < end && TrimEnd(s, p + 1, low) == TrimEnd(s, end, low)
      decreases p
    {
      p := p - 1;
    }
  }

  /** The part of `http_parse_headers` that reads one line. */
  method ReadField(s: seq<byte>, start: nat, end: nat) returns (r: Option<Header>)
    requires start <= end <= |s|
    ensures r == ParseField(s, start, end)
  {
    hide SkipTo, TrimEnd;
    var p := Skip(s, start, end, NameOctet);
    var name := Fragment(start, p - start);
    if name.length == 0 {
      return None;
    }
    p := Skip(s, p, end, IsHSpace);
    if p == end || s[p] != COLON {
      return None;
    }
    var colon := p;
    p := Skip(s, p + 1, end, IsHSpace);
    var value := p;
    p := TrimBack(s, end, colon);
    var length := FragmentLength(value, p);
    if length == 0 {
      return None;
    }
    return Some(Header(name, Fragment(value, length)));
  }

  /** `http_parse_headers` on the text from `start` on: `calls` are the callbacks, in order. */
  method ParseHeaders(s: seq<byte>, start: nat) returns (calls: seq<Header>, next: Option<nat>)
    ensures Scan(calls, next) == ScanFrom(s, start)
  {
    hide ParseField, FindCrlf, ScanFrom;
    calls := [];
    var p := start;
    var end := FindCrlf(s, p);
    while end.Some?
      invariant end == FindCrlf(s, p)
      invariant ScanFrom(s, start) == Scan(calls + ScanFrom(s, p).calls, ScanFrom(s, p).next)
      decreases |s| - p
    {
      ScanLine(s, p);
      if end.value == p {
        return calls, Some(p + 2);
      }
      var field := ReadField(s, p, end.value);
      if field == None {
        return calls, None;
      }
      AppendAssociates(calls, [field.value], ScanFrom(s, end.value + 2).calls);
      calls := calls + [field.value];
      p := end.value + 2;
      end := FindCrlf(s, p);
    }
    ScanLine(s, p);
    return calls, Some(p);
  }

  /** What a scan does with the line at `p`. */
  lemma ScanLine(s: seq<byte>, p: nat)
    ensures var end := FindCrlf(s, p);
            && (end.None? ==> ScanFrom(s, p) == Scan([], Some(p)))
            && (end.Some? && end.value == p ==> ScanFrom(s, p) == Scan([], Some(p + 2)))
            && (end.Some? && end.value != p && ParseField(s, p, end.value).None? ==> ScanFrom(s, p) == Scan([], None))
            && (end.Some? && end.value != p && ParseField(s, p, end.value).Some? ==>
                  var later := ScanFrom(s, end.value + 2);
                  ScanFrom(s, p) == Scan([ParseField(s, p, end.value).value] + later.calls, later.next))
  {
    hide ParseField, FindCrlf;
  }

  // ----- header blocks -----

  /** A name, the blanks before the colon, the blanks after it, a value, and the spaces after that. */
  datatype Field = Field(name: seq<byte>, gap: seq<byte>, lead: seq<byte>, value: seq<byte>, trail: seq<byte>)

  predicate WellFormed(f: Field) {
    && f.name != [] && CR !in f.name && (forall i :: 0 <= i < |f.name| ==> NameOctet(f.name[i]))
    && (forall i :: 0 <= i < |f.gap| ==> IsHSpace(f.gap[i]))
    && (forall i :: 0 <= i < |f.lead| ==> IsHSpace(f.lead[i]))
    && f.value != [] && CR !in f.value && !IsHSpace(f.value[0]) && !IsSpace(f.value[|f.value| - 1])
    && (forall i :: 0 <= i < |f.trail| ==> IsSpace(f.trail[i]))
  }

  function AfterColon(f: Field, rest: seq<byte>): seq<byte> {
    f.lead + (f.value + (f.trail + rest))
  }

  function FieldText(f: Field, rest: seq<byte>): seq<byte> {
    f.name + (f.gap + ([COLON] + AfterColon(f, rest)))
  }

  /** The field lines, the blank line, and the body. */
  function BlockText(fields: seq<Field>, body: seq<byte>): seq<byte> {
    if fields == [] then CRLF + body
    else FieldText(fields[0], CRLF + BlockText(fields[1..], body))
  }

  function LineLength(f: Field): nat {
    |f.name| + |f.gap| + 1 + |f.lead| + |f.value| + |f.trail|
  }

  /** The callback was given the name and the value of this field. */
  predicate Delivered(s: seq<byte>, h: Header, f: Field) {
    && h.name.ptr + h.name.length <= |s| && Content(s, h.name) == f.name
    && h.value.ptr + h.value.length <= |s| && Content(s, h.value) == f.value
  }

  /** The line of a field ends at its own CRLF and not before. */
  lemma FieldLine(s: seq<byte>, p: nat, f: Field, rest: seq<byte>)
    requires p <= |s| && WellFormed(f) && s[p..] == FieldText(f, CRLF + rest)
    ensures p + LineLength(f) + 2 <= |s| && FindCrlf(s, p) == Some(p + LineLength(f))
    ensures s[p + LineLength(f) + 2..] == rest
  {
    var line := f.name + f.gap + [COLON] + f.lead + f.value + f.trail;
    assert s[p..] == line + (CRLF + rest);
    assert forall i :: 0 <= i < |line| ==> line[i] != CR;
    Peel(s, p, line, CRLF + rest);
    Peel(s, p + |line|, CRLF, rest);
    FindFirstCrlf(s, p, p + |line|);
  }

  /** Where the scans of a field line before the colon stop. */
  lemma NameParts(s: seq<byte>, p: nat, end: nat, f: Field, rest: seq<byte>) returns (n: nat, c: nat)
    requires p <= end <= |s| && WellFormed(f) && s[p..] == FieldText(f, rest) && end == p + LineLength(f)
    ensures n == p + |f.name| && c == n + |f.gap|
    ensures SkipTo(s, p, end, NameOctet) == n && s[p..n] == f.name
    ensures SkipTo(s, n, end, IsHSpace) == c && c < end && s[c] == COLON
    ensures s[c + 1..] == AfterColon(f, rest)
  {
    hide SkipTo, AfterColon;
    var after := AfterColon(f, rest);
    var fromColon := [COLON] + after;
    var fromGap := f.gap + fromColon;
    n := p + |f.name|;
    c := n + |f.gap|;
    assert !NameOctet(fromGap[0]) by {
      assert fromGap[0] == if f.gap == [] then COLON else f.gap[0];
    }
    SkipPart(s, p, end, f.name, fromGap, NameOctet);
    SkipPart(s, n, end, f.gap, fromColon, IsHSpace);
    Peel(s, c, [COLON], after);
  }

  /** Where the scans after the colon stop. */
  lemma ValueParts(s: seq<byte>, c: nat, end: nat, f: Field, rest: seq<byte>) returns (v: nat)
    requires c < end <= |s| && WellFormed(f) && s[c] == COLON && s[c + 1..] == AfterColon(f, rest)
    requires end == c + 1 + |f.lead| + |f.value| + |f.trail|
    ensures v == c + 1 + |f.lead|
    ensures SkipTo(s, c + 1, end, IsHSpace) == v && s[v..v + |f.value|] == f.value
    ensures TrimEnd(s, end, c) == v + |f.value| - 1
  {
    hide SkipTo, TrimEnd;
    v := c + 1 + |f.lead|;
    var fromValue := f.value + (f.trail + rest);
    assert fromValue[0] == f.value[0];
    SkipPart(s, c + 1, end, f.lead, fromValue, IsHSpace);
    TrimPart(s, v, end, c, f.value, f.trail, rest);
  }

  /** Trimming stops at the last octet of the value. */
  lemma TrimPart(s: seq<byte>, v: nat, end: nat, c: nat, value: seq<byte>, trail: seq<byte>, rest: seq<byte>)
    requires c < v <= end <= |s| && !IsSpace(s[c]) && s[v..] == value + (trail + rest) && end == v + |value| + |trail|
    requires value != [] && !IsSpace(value[|value| - 1])
    requires forall i :: 0 <= i < |trail| ==> IsSpace(trail[i])
    ensures s[v..v + |value|] == value && TrimEnd(s, end, c) == v + |value| - 1
  {
    hide TrimEnd;
    Peel(s, v, value, trail + rest);
    Peel(s, v + |value|, trail, rest);
    TrimRun(s, end, c, v + |value| - 1);
  }

  lemma {:induction false} TrimRun(s: seq<byte>, p: nat, low: nat, r: nat)
    requires low <= r < p <= |s| && !IsSpace(s[low]) && !IsSpace(s[r])
    requires forall i :: r < i < p ==> IsSpace(s[i])
    ensures TrimEnd(s, p, low) == r
    decreases p
  {
    if r < p - 1 {
      TrimRun(s, p - 1, low, r);
    }
  }

  /** How the scans determine the field. */
  lemma FieldFrom(s: seq<byte>, p: nat, end: nat, n: nat, c: nat, v: nat, last: nat)
    requires p < n <= c < v <= last < end <= |s| < TWO_64
    requires SkipTo(s, p, end, NameOctet) == n
    requires SkipTo(s, n, end, IsHSpace) == c && s[c] == COLON
    requires SkipTo(s, c + 1, end, IsHSpace) == v && TrimEnd(s, end, c) == last
    ensures ParseField(s, p, end) == Some(Header(Fragment(p, n - p), Fragment(v, last - v + 1)))
  {
    hide SkipTo, TrimEnd;
  }

  /** The field of a line in the grammar is delivered. */
  lemma FieldRead(s: seq<byte>, p: nat, f: Field, rest: seq<byte>)
    requires p <= |s| < TWO_64 && WellFormed(f) && s[p..] == FieldText(f, CRLF + rest)
    ensures p + LineLength(f) <= |s|
    ensures var h := ParseField(s, p, p + LineLength(f)); h.Some? && Delivered(s, h.value, f)
  {
    hide SkipTo, TrimEnd, FieldText, AfterColon, ParseField;
    FieldLine(s, p, f, rest);
    var end := p + LineLength(f);
    var n, c := NameParts(s, p, end, f, CRLF + rest);
    var v := ValueParts(s, c, end, f, CRLF + rest);
    FieldFrom(s, p, end, n, c, v, v + |f.value| - 1);
  }

  /** The callbacks delivered these fields, in order, and the returned position is that of the body. */
  predicate BlockRead(s: seq<byte>, scan: Scan, fields: seq<Field>, body: seq<byte>) {
    && |scan.calls| == |fields|
    && (forall i :: 0 <= i < |fields| ==> Delivered(s, scan.calls[i], fields[i]))
    && scan.next.Some? && scan.next.value <= |s| && s[scan.next.value..] == body
  }

  lemma BlockReadCons(s: seq<byte>, h: Header, later: Scan, fields: seq<Field>, body: seq<byte>)
    requires fields != [] && Delivered(s, h, fields[0]) && BlockRead(s, later, fields[1..], body)
    ensures BlockRead(s, Scan([h] + later.calls, later.next), fields, body)
  {
    hide Delivered;
    var calls := [h] + later.calls;
    forall i | 0 <= i < |fields|
      ensures Delivered(s, calls[i], fields[i])
    {
      if i > 0 {
        assert calls[i] == later.calls[i - 1] && fields[i] == fields[1..][i - 1];
      }
    }
  }

  lemma BlockEnd(s: seq<byte>, p: nat, body: seq<byte>)
    requires p <= |s| && s[p..] == CRLF + body
    ensures BlockRead(s, ScanFrom(s, p), [], body)
  {
    Peel(s, p, CRLF, body);
    assert CrlfAt(s, p);
  }

  /** One field line, then whatever the scan makes of the rest. */
  lemma BlockStep(s: seq<byte>, p: nat, f: Field, rest: seq<byte>) returns (next: nat, h: Header)
    requires p <= |s| < TWO_64 && WellFormed(f) && s[p..] == FieldText(f, CRLF + rest)
    ensures p < next <= |s| && s[next..] == rest && Delivered(s, h, f)
    ensures var later := ScanFrom(s, next);
            ScanFrom(s, p) == Scan([h] + later.calls, later.next)
  {
    hide ParseField, FieldText, FindCrlf, ScanFrom, Delivered, WellFormed;
    var end := p + LineLength(f);
    FieldLine(s, p, f, rest);
    FieldRead(s, p, f, rest);
    h := ParseField(s, p, end).value;
    ScanLine(s, p);
    next := end + 2;
  }

  /** Every field of a block is delivered, in order, and the body position is returned. */
  lemma {:induction false} BlockRoundTrip(s: seq<byte>, p: nat, fields: seq<Field>, body: seq<byte>)
    requires p <= |s| < TWO_64 && s[p..] == BlockText(fields, body)
    requires forall i :: 0 <= i < |fields| ==> WellFormed(fields[i])
    ensures BlockRead(s, ScanFrom(s, p), fields, body)
    decreases fields
  {
    hide FieldText, BlockRead, ScanFrom, Delivered, WellFormed;
    if fields == [] {
      BlockEnd(s, p, body);
    } else {
      var next, h := BlockStep(s, p, fields[0], BlockText(fields[1..], body));
      BlockRoundTrip(s, next, fields[1..], body);
      BlockReadCons(s, h, ScanFrom(s, next), fields, body);
    }
  }

  // ----- the optional white space of RFC 7230 -----

  /** A field of section 3.2: blanks of either kind may follow its value. */
  predicate RfcField(f: Field) {
    && WellFormed(f.(trail := [])) && !IsHSpace(f.value[|f.value| - 1])
    && forall i :: 0 <= i < |f.trail| ==> IsHSpace(f.trail[i])
  }

  /** What is left of blanks when the spaces at their end are trimmed: everything up to the last tab. */
  function UpToTab(blanks: seq<byte>): (r: seq<byte>)
    ensures r <= blanks && (r == [] <==> HTAB !in blanks)
    ensures r != [] ==> r[|r| - 1] == HTAB
    ensures HTAB !in blanks[|r|..]
  {
    if blanks == [] || blanks[|blanks| - 1] == HTAB then blanks else UpToTab(blanks[..|blanks| - 1])
  }

  /** The field as the source sees it: the blanks up to the last tab belong to the value. */
  function AsScanned(f: Field): Field {
    var kept := UpToTab(f.trail);
    f.(value := f.value + kept, trail := f.trail[|kept|..])
  }

  function AllAsScanned(fields: seq<Field>): (r: seq<Field>)
    ensures |r| == |fields| && forall i :: 0 <= i < |r| ==> r[i] == AsScanned(fields[i])
  {
    seq(|fields|, i requires 0 <= i < |fields| => AsScanned(fields[i]))
  }

  /** The value of a field without the blanks that end it, as RFC 7230 defines it. */
  function RfcValue(value: seq<byte>): (r: seq<byte>)
    ensures r <= value && (r != [] ==> !IsHSpace(r[|r| - 1]))
    ensures forall i :: |r| <= i < |value| ==> IsHSpace(value[i])
  {
    if value != [] && IsHSpace(value[|value| - 1]) then RfcValue(value[..|value| - 1]) else value
  }

  lemma {:induction false} RfcValueOf(value: seq<byte>, blanks: seq<byte>)
    requires value != [] && !IsHSpace(value[|value| - 1])
    requires forall i :: 0 <= i < |blanks| ==> IsHSpace(blanks[i])
    ensures RfcValue(value + blanks) == value
    decreases |blanks|
  {
    var v := value + blanks;
    if blanks == [] {
      assert v == value;
    } else {
      assert v[..|v| - 1] == value + blanks[..|blanks| - 1];
      RfcValueOf(value, blanks[..|blanks| - 1]);
    }
  }

  lemma ScannedText(f: Field, rest: seq<byte>)
    ensures FieldText(AsScanned(f), rest) == FieldText(f, rest)
  {
    hide UpToTab;
    var g := AsScanned(f);
    var kept := UpToTab(f.trail);
    AppendAssociates(kept, g.trail, rest);
    AppendAssociates(f.value, kept, g.trail + rest);
    assert AfterColon(g, rest) == AfterColon(f, rest) by {
      assert kept + g.trail == f.trail;
    }
  }

  lemma ScannedField(f: Field)
    requires RfcField(f)
    ensures WellFormed(AsScanned(f)) && RfcValue(AsScanned(f).value) == f.value
    ensures AsScanned(f).value == f.value <==> HTAB !in f.trail
  {
    hide RfcValue;
    var kept := UpToTab(f.trail);
    assert forall i :: 0 <= i < |kept| ==> kept[i] == f.trail[i];
    RfcValueOf(f.value, kept);
    var g := AsScanned(f);
    assert g.value[0] == f.value[0];
    assert !IsSpace(g.value[|g.value| - 1]);
  }

  lemma {:induction false} ScannedBlock(fields: seq<Field>, body: seq<byte>)
    requires forall i :: 0 <= i < |fields| ==> RfcField(fields[i])
    ensures BlockText(AllAsScanned(fields), body) == BlockText(fields, body)
  {
    if fields != [] {
      hide FieldText, RfcField, AsScanned;
      ScannedBlock(fields[1..], body);
      ScannedText(fields[0], CRLF + BlockText(fields[1..], body));
      assert AllAsScanned(fields)[1..] == AllAsScanned(fields[1..]);
    }
  }

  /**
   * A block of RFC 7230, with spaces and tabs around its values, calls back with its fields in
   * order; a delivered value is that of RFC 7230 exactly when no tab follows it.
   */
  lemma RfcBlockRoundTrip(s: seq<byte>, p: nat, fields: seq<Field>, body: seq<byte>)
    requires p <= |s| < TWO_64 && s[p..] == BlockText(fields, body)
    requires forall i :: 0 <= i < |fields| ==> RfcField(fields[i])
    ensures BlockRead(s, ScanFrom(s, p), AllAsScanned(fields), body)
    ensures forall i :: 0 <= i < |fields| ==>
              && AllAsScanned(fields)[i].name == fields[i].name
              && RfcValue(AllAsScanned(fields)[i].value) == fields[i].value
              && (AllAsScanned(fields)[i].value == fields[i].value <==> HTAB !in fields[i].trail)
  {
    hide BlockText, BlockRead, ScanFrom, WellFormed, RfcField, FieldText;
    ScannedBlock(fields, body);
    forall i | 0 <= i < |fields|
      ensures WellFormed(AllAsScanned(fields)[i])
      ensures RfcValue(AllAsScanned(fields)[i].value) == fields[i].value
      ensures AllAsScanned(fields)[i].value == fields[i].value <==> HTAB !in fields[i].trail
    {
      ScannedField(fields[i]);
    }
    BlockRoundTrip(s, p, AllAsScanned(fields), body);
  }

  // ----- any line -----

  predicate BlankOnly(s: seq<byte>, from: nat, end: nat)
    requires end <= |s|
  {
    forall i :: from <= i < end ==> IsHSpace(s[i])
  }

  /** The fragment is what remains of the text without leading blanks and trailing spaces. */
  predicate Trimmed(s: seq<byte>, from: nat, end: nat, f: Fragment)
    requires from <= end <= |s|
  {
    && f.length > 0 && from <= f.ptr && f.ptr + f.length <= end
    && BlankOnly(s, from, f.ptr) && !IsHSpace(s[f.ptr])
    && !IsSpace(s[f.ptr + f.length - 1])
    && forall i :: f.ptr + f.length <= i < end ==> IsSpace(s[i])
  }

  /**
   * The value handed to the callback is the line's trimmed text exactly when something other
   * than blanks follows the colon. After blanks only there is no value when the line ends with
   * the colon or a tab, and otherwise a fragment that starts at the CRLF and leaves the buffer.
   */
  lemma ValueInLineIffNotBlank(s: seq<byte>, c: nat, end: nat)
    requires c < end <= |s| < TWO_64 / 2 && s[c] == COLON
    ensures var r := FieldValue(s, c, end);
            && (r.Some? && Trimmed(s, c + 1, end, r.value) <==> !BlankOnly(s, c + 1, end))
            && (BlankOnly(s, c + 1, end) ==> (r.Some? <==> s[end - 1] == SP))
            && (BlankOnly(s, c + 1, end) && r.Some? ==> r.value.ptr == end && r.value.length > |s|)
  {
    var v := SkipTo(s, c + 1, end, IsHSpace);
    var last := TrimEnd(s, end, c);
    if v == end {
      assert BlankOnly(s, c + 1, end);
      LengthPastValue(v, last);
    } else {
      assert !IsHSpace(s[v]);
      assert last >= v;
    }
  }

  /** When the trimming stops before the value, the length is zero or wraps around. */
  lemma LengthPastValue(start: nat, last: nat)
    requires last < start < TWO_64 / 2
    ensures FragmentLength(start, last) == if last + 1 == start then 0 else TWO_64 - (start - last - 1)
  {
  }

  /** Every callback is given a name inside the buffer and a value that starts in it. */
  lemma {:induction false} CallsStartInside(s: seq<byte>, p: nat)
    ensures forall i :: 0 <= i < |ScanFrom(s, p).calls| ==> StartsInside(s, ScanFrom(s, p).calls[i])
    decreases |s| - p
  {
    var end := FindCrlf(s, p);
    if end.Some? && end.value != p && ParseField(s, p, end.value).Some? {
      hide SkipTo, TrimEnd, FindCrlf;
      CallsStartInside(s, end.value + 2);
    }
  }

  predicate StartsInside(s: seq<byte>, h: Header) {
    h.name.ptr + h.name.length <= |s| && h.value.ptr <= |s|
  }

  /**
   * When the length of a value has wrapped around, its last octet is found before the value:
   * it is the colon or a tab, and so no digit.
   */
  lemma WrappedValueEndsBefore(s: seq<byte>, c: nat, end: nat)
    requires c < end <= |s| < TWO_64 / 2 && s[c] == COLON
    ensures var r := FieldValue(s, c, end);
            r.Some? && r.value.ptr + r.value.length > |s| ==>
              var last := r.value.ptr + r.value.length - TWO_64 - 1;
              c <= last < end && (s[last] == COLON || s[last] == HTAB)
  {
    var v := SkipTo(s, c + 1, end, IsHSpace);
    var last := TrimEnd(s, end, c);
    if v == end {
      LengthPastValue(v, last);
    }
  }
}
