// The configuration file reader: read_config of src/config.c.

module Config {
  import opened Bytes
  import opened Scanning

  const LF: byte := 0x0A
  const CR: byte := 0x0D
  const EQUALS: byte := '=' as int
  /** `EOF` compared with a `char`: the octet that is -1 as a signed `char`. */
  const EOF: byte := 0xFF

  /** `isspace` in the C locale. */
  predicate IsSpace(c: byte) { c == 0x20 || 0x09 <= c <= 0x0D }
  predicate IsPad(c: byte) { IsSpace(c) && c != LF }
  predicate NameOctet(c: byte) { !IsSpace(c) && c != EQUALS }
  predicate ValueOctet(c: byte) { c != EOF && c != CR && c != LF }

  datatype Entry = Entry(name: seq<byte>, value: seq<byte>)

  /** One turn of the outer loop: it stops, meets a failing assertion, or goes on from `next`. */
  datatype Turn = Stop | Abort | Skip(next: nat) | Report(entry: Entry, next: nat)

  /** The callbacks made, and whether an assertion failed. */
  datatype Outcome = Outcome(entries: seq<Entry>, aborted: bool)

  function TrimRight(s: seq<byte>): (r: seq<byte>)
    ensures r <= s
    ensures r != [] ==> !IsSpace(r[|r| - 1])
    ensures forall i :: |r| <= i < |s| ==> IsSpace(s[i])
  {
    if s != [] && IsSpace(s[|s| - 1]) then TrimRight(s[..|s| - 1]) else s
  }

  /** The value that starts after the `=` at `e`, and the end of its line. */
  function ValueTurn(s: seq<byte>, name: seq<byte>, e: nat): (r: Turn)
    requires e < |s|
    ensures r.Skip? ==> e < r.next <= |s|
    ensures r.Report? ==> e < r.next <= |s|
    ensures !r.Abort?
  {
    var v := SkipTo(s, e + 1, |s|, IsPad);
    if v + 1 >= |s| || s[v] == EOF then Stop
    else if s[v] == LF then Skip(v + 1)
    else
      var w := SkipTo(s, v, |s|, ValueOctet);
      Report(Entry(name, TrimRight(s[v..w])), if w < |s| then w + 1 else w)
  }

  /** The turn of the outer loop that starts at `i`. */
  function TurnAt(s: seq<byte>, i: nat): (r: Turn)
    requires i < |s|
    ensures r.Skip? ==> i < r.next <= |s|
    ensures r.Report? ==> i < r.next <= |s|
  {
    var n := SkipTo(s, i, |s|, IsSpace);
    if n + 1 >= |s| || s[n] == EOF then Stop
    else
      var m := SkipTo(s, n, |s|, NameOctet);
      if m + 1 >= |s| then Stop
      else if s[m] == EQUALS then ValueTurn(s, s[n..m], m)
      else
        var e := SkipTo(s, m + 1, |s|, IsPad);
        if e + 1 >= |s| || s[e] == EOF then Stop
        else if s[e] == LF then Skip(e + 1)
        else if s[e] != EQUALS then Abort
        else ValueTurn(s, s[n..m], e)
  }

  /** What `read_config` does with the rest of a text, from `i` on. */
  function ReadFrom(s: seq<byte>, i: nat): Outcome
    requires i <= |s|
    decreases |s| - i
  {
    if i == |s| then Outcome([], false)
    else
      match TurnAt(s, i)
      case Stop => Outcome([], false)
      case Abort => Outcome([], true)
      case Skip(next) => ReadFrom(s, next)
      case Report(entry, next) =>
        var later := ReadFrom(s, next);
        Outcome([entry] + later.entries, later.aborted)
  }

  // ----- the reader -----

  /**
   * A loop `while (i < len && x(c = str[i++])) count++;`, which also consumes the octet
   * that ends the run. `c` keeps its value when nothing is read.
   */
  method ReadRun(s: seq<byte>, start: nat, c0: byte, x: byte -> bool) returns (i: nat, c: byte, count: nat)
    requires start <= |s|
    ensures var end := SkipTo(s, start, |s|, x);
            && count == end - start
            && i == (if end < |s| then end + 1 else end)
            && c == (if start == |s| then c0 else s[i - 1])
  {
    i, c, count := start, c0, 0;
    while i < |s|
      invariant start <= i <= |s| && count == i - start
      invariant c == if i == start then c0 else s[i - 1]
      invariant SkipTo(s, i, |s|, x) == SkipTo(s, start, |s|, x)
    {
      c := s[i];
      i := i + 1;
      if !x(c) {
        return;
      }
      count := count + 1;
    }
  }

  /** `while (isspace(value[value_len - 1])) value[--value_len] = '\0';` in the allocated copy. */
  method Trim(value: array<byte>, length: nat) returns (n: nat)
    requires length + 1 == value.Length && value[length] == 0
    requires length > 0 && !IsSpace(value[0])
    modifies value
    ensures 0 < n <= length && old(value[..n]) == TrimRight(old(value[..length]))
    ensures value[..n] == old(value[..n])
    ensures forall j :: n <= j <= length ==> value[j] == 0
  {
    n := length;
    ghost var text := value[..length];
    assert text[..n] == text;
    while IsSpace(value[n - 1])
      invariant 0 < n <= length && value[..n] == text[..n]
      invariant TrimRight(text[..n]) == TrimRight(text)
      invariant forall j :: n <= j <= length ==> value[j] == 0
      decreases n
    {
      assert value[0] == value[..n][0] == text[0];
      assert text[..n][..n - 1] == text[..n - 1];
      n := n - 1;
      value[n] := 0;
    }
  }

  /** The part of `read_config` that copies the name and the value and trims the value. */
  method CopyEntry(name: seq<byte>, text: seq<byte>) returns (entry: Entry)
    requires text != [] && !IsSpace(text[0])
    ensures entry == Entry(name, TrimRight(text))
  {
    var value := new byte[|text| + 1](_ => 0);
    forall k | 0 <= k < |text| {
      value[k] := text[k];
    }
    assert value[..|text|] == text;
    var n := Trim(value, |text|);
    entry := Entry(name, value[..n]);
  }

  /** The part of `read_config` after the `=`. */
  method ReadValue(s: seq<byte>, name: seq<byte>, e: nat) returns (r: Turn)
    requires e < |s|
    ensures r == ValueTurn(s, name, e)
  {
    hide SkipTo, TrimRight, IsSpace, IsPad, ValueOctet;
    var i, c, pads := ReadRun(s, e + 1, s[e], IsPad);
    var valuePos := e + 1 + pads;
    if i >= |s| || c == EOF {
      return Stop;
    }
    if c == LF {
      return Skip(i);
    }
    var valueLength;
    i, c, valueLength := ReadRun(s, i - 1, c, ValueOctet);
    ValueStarts(s, e + 1, valuePos);
    var entry := CopyEntry(name, s[valuePos..valuePos + valueLength]);
    return Report(entry, i);
  }

  /** A value starts with an octet that is no blank and ends no value. */
  lemma ValueStarts(s: seq<byte>, from: nat, v: nat)
    requires from <= v < |s| && SkipTo(s, from, |s|, IsPad) == v && s[v] != EOF && s[v] != LF
    ensures !IsSpace(s[v]) && SkipTo(s, v, |s|, ValueOctet) > v
  {
    assert !IsPad(s[v]);
    assert ValueOctet(s[v]);
  }

  /** One turn of the outer loop of `read_config`. */
  method ReadTurn(s: seq<byte>, start: nat) returns (r: Turn)
    requires start < |s|
    ensures r == TurnAt(s, start)
  {
    hide SkipTo, ValueTurn;
    var i, c, spaces := ReadRun(s, start, 0, IsSpace);
    var namePos := start + spaces;
    if i >= |s| || c == EOF {
      return Stop;
    }
    var nameLength, pads;
    i, c, nameLength := ReadRun(s, i - 1, c, NameOctet);
    if i >= |s| || c == EOF {
      return Stop;
    }
    if c != EQUALS {
      i, c, pads := ReadRun(s, i, c, IsPad);
      if i >= |s| || c == EOF {
        return Stop;
      }
      if c == LF {
        return Skip(i);
      }
      if c != EQUALS {
        return Abort;
      }
    }
    r := ReadValue(s, s[namePos..namePos + nameLength], i - 1);
  }

  /** `read_config`: `entries` are the callbacks, in order; `aborted` tells whether an assertion failed. */
  method ReadConfig(s: seq<byte>) returns (entries: seq<Entry>, aborted: bool)
    ensures Outcome(entries, aborted) == ReadFrom(s, 0)
  {
    hide TurnAt;
    entries, aborted := [], false;
    var i := 0;
    while i < |s|
      invariant 0 <= i <= |s| && !aborted
      invariant ReadFrom(s, 0) == Outcome(entries + ReadFrom(s, i).entries, ReadFrom(s, i).aborted)
    {
      var turn := ReadTurn(s, i);
      match turn
      case Stop =>
        return;
      case Abort =>
        return entries, true;
      case Skip(next) =>
        i := next;
      case Report(entry, next) =>
        AppendAssociates(entries, [entry], ReadFrom(s, next).entries);
        entries := entries + [entry];
        i := next;
    }
  }

  // ----- rendered configurations -----

  /** `lead name pad1 = pad2 value trail newline`. */
  datatype Line = Line(lead: seq<byte>, name: seq<byte>, pad1: seq<byte>, pad2: seq<byte>,
                       value: seq<byte>, trail: seq<byte>, newline: byte)

  predicate All(s: seq<byte>, x: byte -> bool) {
    forall i :: 0 <= i < |s| ==> x(s[i])
  }

  predicate GoodName(t: seq<byte>) {
    t != [] && All(t, NameOctet) && t[0] != EOF
  }

  predicate GoodValue(t: seq<byte>) {
    t != [] && All(t, ValueOctet) && !IsSpace(t[0]) && !IsSpace(t[|t| - 1])
  }

  /** The first octet of `pad1` may even be a line feed: only the later ones are compared with it. */
  predicate WellFormed(f: Line) {
    && All(f.lead, IsSpace)
    && GoodName(f.name)
    && (f.pad1 == [] || (IsSpace(f.pad1[0]) && All(f.pad1[1..], IsPad)))
    && All(f.pad2, IsPad)
    && GoodValue(f.value)
    && All(f.trail, IsSpace) && All(f.trail, ValueOctet)
    && (f.newline == LF || f.newline == CR)
  }

  function EntryOf(f: Line): Entry {
    Entry(f.name, f.value)
  }

  function ValueText(f: Line, rest: seq<byte>): seq<byte> {
    f.pad2 + ((f.value + f.trail) + rest)
  }

  /** A line, and what follows its value. */
  function LineText(f: Line, rest: seq<byte>): (r: seq<byte>)
    ensures |r| == LineLength(f) + |rest|
  {
    f.lead + (f.name + (f.pad1 + ([EQUALS] + ValueText(f, rest))))
  }

  /** The terminated lines, and whatever follows the last one. */
  function Text(lines: seq<Line>, tail: seq<byte>): seq<byte> {
    if lines == [] then tail
    else LineText(lines[0], [lines[0].newline] + Text(lines[1..], tail))
  }

  function EntriesOf(lines: seq<Line>): (r: seq<Entry>)
    ensures |r| == |lines|
    ensures forall i :: 0 <= i < |lines| ==> r[i] == EntryOf(lines[i])
  {
    if lines == [] then [] else [EntryOf(lines[0])] + EntriesOf(lines[1..])
  }

  function LineLength(f: Line): nat {
    |f.lead| + |f.name| + |f.pad1| + 1 + |f.pad2| + |f.value| + |f.trail|
  }

  lemma {:induction false} TrimTrail(value: seq<byte>, trail: seq<byte>)
    requires All(trail, IsSpace) && value != [] && !IsSpace(value[|value| - 1])
    ensures TrimRight(value + trail) == value
    decreases |trail|
  {
    var t := value + trail;
    if trail == [] {
      assert t == value;
    } else {
      assert t[..|t| - 1] == value + trail[..|trail| - 1];
      TrimTrail(value, trail[..|trail| - 1]);
    }
  }

  /** Where the scans after the `=` stop. */
  lemma ValueRuns(s: seq<byte>, e: nat, f: Line, rest: seq<byte>) returns (v: nat, w: nat)
    requires e < |s| && WellFormed(f) && s[e + 1..] == ValueText(f, rest)
    requires rest == [] || !ValueOctet(rest[0])
    ensures v == e + 1 + |f.pad2| && w == v + |f.value| + |f.trail| && w + |rest| == |s|
    ensures SkipTo(s, e + 1, |s|, IsPad) == v && SkipTo(s, v, |s|, ValueOctet) == w && s[v..w] == f.value + f.trail
  {
    hide SkipTo;
    var text := f.value + f.trail;
    v := e + 1 + |f.pad2|;
    w := v + |text|;
    assert |s[e + 1..]| == |f.pad2| + |text| + |rest|;
    SkipPart(s, e + 1, |s|, f.pad2, text + rest, IsPad);
    SkipPart(s, v, |s|, text, rest, ValueOctet);
  }

  /** The part of the line after the `=` yields the entry exactly when more than one octet of it is left. */
  lemma ValueRead(s: seq<byte>, name: seq<byte>, e: nat, f: Line, rest: seq<byte>)
    requires e < |s| && WellFormed(f) && s[e + 1..] == ValueText(f, rest)
    requires rest == [] || !ValueOctet(rest[0])
    ensures var w := e + 1 + |f.pad2| + |f.value| + |f.trail|;
            && w + |rest| == |s|
            && ValueTurn(s, name, e) ==
               (if |f.value| + |f.trail| + |rest| > 1 then Report(Entry(name, f.value), if rest == [] then w else w + 1)
                else Stop)
  {
    hide SkipTo, TrimRight, ValueText;
    var v, w := ValueRuns(s, e, f, rest);
    assert s[v] == s[v..w][0] == f.value[0];
    TrimTrail(f.value, f.trail);
  }

  /** The scans up to the `=`. */
  lemma NameRead(s: seq<byte>, i: nat, f: Line, rest: seq<byte>) returns (e: nat)
    requires i < |s| && WellFormed(f) && s[i..] == LineText(f, rest)
    ensures e == i + |f.lead| + |f.name| + |f.pad1| < |s| && s[e + 1..] == ValueText(f, rest)
    ensures TurnAt(s, i) == ValueTurn(s, f.name, e)
  {
    hide SkipTo, ValueTurn, ValueText, TurnAt;
    var after := ValueText(f, rest);
    var fromPad := f.pad1 + ([EQUALS] + after);
    var n := i + |f.lead|;
    var m := n + |f.name|;
    assert !NameOctet(fromPad[0]) by {
      assert fromPad[0] == if f.pad1 == [] then EQUALS else f.pad1[0];
    }
    LeadRead(s, i, f.lead, f.name, fromPad);
    e := PadRead(s, m, f.pad1, after);
    TurnFrom(s, i, n, m, e);
  }

  /** How the scans determine the turn. */
  lemma TurnFrom(s: seq<byte>, i: nat, n: nat, m: nat, e: nat)
    requires i <= n < m <= e && e + 1 < |s|
    requires SkipTo(s, i, |s|, IsSpace) == n && s[n] != EOF
    requires SkipTo(s, n, |s|, NameOctet) == m
    requires if m == e then s[m] == EQUALS else s[m] != EQUALS && SkipTo(s, m + 1, |s|, IsPad) == e
    requires s[e] != EOF && s[e] != LF
    ensures TurnAt(s, i) == if s[e] == EQUALS then ValueTurn(s, s[n..m], e) else Abort
  {
    hide SkipTo, ValueTurn;
  }

  lemma LeadRead(s: seq<byte>, i: nat, lead: seq<byte>, name: seq<byte>, rest: seq<byte>)
    requires i < |s| && s[i..] == lead + (name + rest)
    requires All(lead, IsSpace) && GoodName(name) && rest != [] && !NameOctet(rest[0])
    ensures var n := i + |lead|;
            var m := n + |name|;
            && n < m < |s| && SkipTo(s, i, |s|, IsSpace) == n && s[n] != EOF
            && SkipTo(s, n, |s|, NameOctet) == m && s[n..m] == name
            && s[m] == rest[0] && s[m..] == rest
  {
    hide SkipTo;
    var n := i + |lead|;
    SkipPart(s, i, |s|, lead, name + rest, IsSpace);
    Peel(s, n, name, rest);
    SkipPart(s, n, |s|, name, rest, NameOctet);
  }

  lemma PadRead(s: seq<byte>, m: nat, pad: seq<byte>, rest: seq<byte>) returns (e: nat)
    requires m < |s| && (pad == [] || (IsSpace(pad[0]) && All(pad[1..], IsPad)))
    requires s[m..] == pad + ([EQUALS] + rest)
    ensures e == m + |pad| < |s| && s[e] == EQUALS && s[e + 1..] == rest
    ensures if m == e then s[m] == EQUALS else s[m] != EQUALS && SkipTo(s, m + 1, |s|, IsPad) == e
  {
    hide SkipTo;
    e := m + |pad|;
    Peel(s, m, pad, [EQUALS] + rest);
    Peel(s, e, [EQUALS], rest);
    if pad != [] {
      assert forall k :: m + 1 <= k < e ==> s[k] == pad[1..][k - m - 1];
      SkipRun(s, m + 1, |s|, IsPad, e);
    }
  }

  /** A terminated line is one turn of the loop, which reports its entry. */
  lemma LineRead(s: seq<byte>, i: nat, f: Line, rest: seq<byte>) returns (next: nat)
    requires i < |s| && WellFormed(f) && s[i..] == LineText(f, [f.newline] + rest)
    ensures i < next <= |s| && s[next..] == rest
    ensures TurnAt(s, i) == Report(EntryOf(f), next)
  {
    hide TurnAt, ValueTurn, ValueText, LineText;
    var e := NameRead(s, i, f, [f.newline] + rest);
    ValueRead(s, f.name, e, f, [f.newline] + rest);
    next := i + LineLength(f) + 1;
    AfterLine(s, e, f, rest);
  }

  lemma AfterLine(s: seq<byte>, e: nat, f: Line, rest: seq<byte>)
    requires e < |s| && s[e + 1..] == ValueText(f, [f.newline] + rest)
    ensures var w := e + 1 + |f.pad2| + |f.value| + |f.trail|;
            w + 1 <= |s| && s[w + 1..] == rest
  {
    var text := f.pad2 + f.value + f.trail + [f.newline];
    assert s[e + 1..] == text + rest;
    Peel(s, e + 1, text, rest);
  }

  /** The entries of terminated lines are reported, in order, and reading goes on after them. */
  lemma {:induction false} LinesRead(s: seq<byte>, i: nat, lines: seq<Line>, tail: seq<byte>) returns (next: nat)
    requires i <= |s| && s[i..] == Text(lines, tail)
    requires forall k :: 0 <= k < |lines| ==> WellFormed(lines[k])
    ensures i <= next <= |s| && s[next..] == tail
    ensures ReadFrom(s, i) == Outcome(EntriesOf(lines) + ReadFrom(s, next).entries, ReadFrom(s, next).aborted)
    decreases lines
  {
    hide WellFormed, LineText, TurnAt;
    if lines == [] {
      next := i;
    } else {
      assert |s[i..]| > 0;
      var second := LineRead(s, i, lines[0], Text(lines[1..], tail));
      next := LinesRead(s, second, lines[1..], tail);
      AppendAssociates([EntryOf(lines[0])], EntriesOf(lines[1..]), ReadFrom(s, next).entries);
    }
  }

  /** Every entry of a rendered configuration is reported, in order, and nothing else. */
  lemma ConfigRoundTrip(s: seq<byte>, i: nat, lines: seq<Line>, blanks: seq<byte>)
    requires i <= |s| && s[i..] == Text(lines, blanks)
    requires (forall k :: 0 <= k < |lines| ==> WellFormed(lines[k])) && All(blanks, IsSpace)
    ensures ReadFrom(s, i) == Outcome(EntriesOf(lines), false)
  {
    hide WellFormed, Text, TurnAt, IsSpace;
    var next := LinesRead(s, i, lines, blanks);
    if next < |s| {
      BlanksStop(s, next);
    }
  }

  lemma BlanksStop(s: seq<byte>, i: nat)
    requires i < |s| && All(s[i..], IsSpace)
    ensures TurnAt(s, i) == Stop
  {
    hide SkipTo;
    assert forall k :: i <= k < |s| ==> s[k] == s[i..][k - i];
    SkipRun(s, i, |s|, IsSpace, |s|);
  }

  /**
   * Without a newline after the last line of a configuration, its entry is reported exactly when
   * the value and what trails it are more than one octet; the other entries are not affected.
   */
  lemma LastLineUnterminated(s: seq<byte>, i: nat, lines: seq<Line>, last: Line)
    requires i <= |s| && s[i..] == Text(lines, LineText(last, []))
    requires (forall k :: 0 <= k < |lines| ==> WellFormed(lines[k])) && WellFormed(last)
    ensures ReadFrom(s, i) ==
            Outcome(EntriesOf(lines) + (if |last.value| + |last.trail| > 1 then [EntryOf(last)] else []), false)
  {
    hide TurnAt, ValueTurn, ValueText, LineText, Text, SkipTo, WellFormed;
    var next := LinesRead(s, i, lines, LineText(last, []));
    assert |s[next..]| > 0;
    var e := NameRead(s, next, last, []);
    ValueRead(s, last.name, e, last, []);
    assert ReadFrom(s, |s|) == Outcome([], false);
  }

  /** Blanks, a name, blanks, and then something other than `=`, with at least one octet after it. */
  predicate TwoWords(t: seq<byte>, lead: seq<byte>, name: seq<byte>, pad: seq<byte>, rest: seq<byte>) {
    && t == lead + (name + (pad + rest))
    && All(lead, IsSpace) && GoodName(name)
    && pad != [] && IsSpace(pad[0]) && All(pad[1..], IsPad)
    && |rest| > 1 && NameOctet(rest[0]) && rest[0] != EOF
  }

  /** The text starts with a name that no `=` follows. */
  ghost predicate MissingEquals(t: seq<byte>) {
    exists lead, name, pad, rest :: TwoWords(t, lead, name, pad, rest)
  }

  lemma TwoWordsAbort(s: seq<byte>, i: nat, lead: seq<byte>, name: seq<byte>, pad: seq<byte>, rest: seq<byte>)
    requires i < |s| && TwoWords(s[i..], lead, name, pad, rest)
    ensures TurnAt(s, i) == Abort
  {
    hide SkipTo, ValueTurn, TurnAt;
    assert !NameOctet((pad + rest)[0]);
    LeadRead(s, i, lead, name, pad + rest);
    var m := i + |lead| + |name|;
    var e := m + |pad|;
    Peel(s, m, pad, rest);
    assert forall k :: m + 1 <= k < e ==> s[k] == pad[1..][k - m - 1];
    SkipRun(s, m + 1, |s|, IsPad, e);
    TurnFrom(s, i, i + |lead|, m, e);
  }

  /** What the scans of a turn that aborts have passed. */
  lemma AbortParts(s: seq<byte>, i: nat) returns (n: nat, m: nat, e: nat)
    requires i < |s| && TurnAt(s, i) == Abort
    ensures i <= n < m < e && e + 1 < |s|
    ensures forall k :: i <= k < n ==> IsSpace(s[k])
    ensures (forall k :: n <= k < m ==> NameOctet(s[k])) && s[n] != EOF
    ensures IsSpace(s[m]) && forall k :: m < k < e ==> IsPad(s[k])
    ensures NameOctet(s[e]) && s[e] != EOF
  {
    hide SkipTo, ValueTurn;
    n := SkipTo(s, i, |s|, IsSpace);
    m := SkipTo(s, n, |s|, NameOctet);
    e := SkipTo(s, m + 1, |s|, IsPad);
  }

  lemma FourParts(s: seq<byte>, i: nat, n: nat, m: nat, e: nat)
    requires i <= n <= m <= e <= |s|
    ensures s[i..] == s[i..n] + (s[n..m] + (s[m..e] + s[e..]))
  {
  }

  lemma AllOf(s: seq<byte>, i: nat, j: nat, x: byte -> bool)
    requires i <= j <= |s| && forall k :: i <= k < j ==> x(s[k])
    ensures All(s[i..j], x)
  {
  }

  lemma AbortHasTwoWords(s: seq<byte>, i: nat)
    requires i < |s| && TurnAt(s, i) == Abort
    ensures MissingEquals(s[i..])
  {
    hide TurnAt, All, IsSpace, IsPad, NameOctet;
    var n, m, e := AbortParts(s, i);
    FourParts(s, i, n, m, e);
    AllOf(s, i, n, IsSpace);
    AllOf(s, n, m, NameOctet);
    AllOf(s, m + 1, e, IsPad);
    assert s[m..e][1..] == s[m + 1..e];
    assert TwoWords(s[i..], s[i..n], s[n..m], s[m..e], s[e..]);
  }

  /** The assertion fails in a turn exactly when its text starts with a name that no `=` follows. */
  lemma AbortIffMissingEquals(s: seq<byte>, i: nat)
    requires i < |s|
    ensures TurnAt(s, i) == Abort <==> MissingEquals(s[i..])
    ensures MissingEquals(s[i..]) ==> ReadFrom(s, i) == Outcome([], true)
  {
    hide TurnAt, TwoWords;
    if TurnAt(s, i) == Abort {
      AbortHasTwoWords(s, i);
    }
    if MissingEquals(s[i..]) {
      var lead, name, pad, rest :| TwoWords(s[i..], lead, name, pad, rest);
      TwoWordsAbort(s, i, lead, name, pad, rest);
    }
  }

  /** Where the turns of the outer loop start, from `i` on. */
  function Turns(s: seq<byte>, i: nat): (r: seq<nat>)
    requires i <= |s|
    ensures forall k :: 0 <= k < |r| ==> i <= r[k] < |s|
    decreases |s| - i
  {
    if i == |s| then []
    else
      match TurnAt(s, i)
      case Skip(next) => [i] + Turns(s, next)
      case Report(_, next) => [i] + Turns(s, next)
      case _ => [i]
  }

  /** A text is read to its end, or until a turn stops, exactly when no turn starts with a name that no `=` follows. */
  lemma {:induction false} AbortedIff(s: seq<byte>, i: nat)
    requires i <= |s|
    ensures ReadFrom(s, i).aborted <==> exists k :: 0 <= k < |Turns(s, i)| && MissingEquals(s[Turns(s, i)[k]..])
    decreases |s| - i
  {
    hide TurnAt, MissingEquals;
    if i < |s| {
      AbortIffMissingEquals(s, i);
      match TurnAt(s, i)
      case Skip(next) =>
        AbortedIff(s, next);
        AbortLater(s, i, next);
      case Report(_, next) =>
        AbortedIff(s, next);
        AbortLater(s, i, next);
      case Stop => assert Turns(s, i) == [i];
      case Abort => assert Turns(s, i)[0] == i;
    }
  }

  lemma AbortLater(s: seq<byte>, i: nat, next: nat)
    requires i < next <= |s| && Turns(s, i) == [i] + Turns(s, next) && !MissingEquals(s[i..])
    ensures (exists k :: 0 <= k < |Turns(s, i)| && MissingEquals(s[Turns(s, i)[k]..]))
       <==> (exists k :: 0 <= k < |Turns(s, next)| && MissingEquals(s[Turns(s, next)[k]..]))
  {
    hide Turns, MissingEquals;
    var all, later := Turns(s, i), Turns(s, next);
    if k :| 0 <= k < |later| && MissingEquals(s[later[k]..]) {
      assert all[k + 1] == later[k];
    }
    if k :| 0 <= k < |all| && MissingEquals(s[all[k]..]) {
      assert k > 0 && later[k - 1] == all[k];
    }
  }

  /** What is reported has a name without blanks or `=`, and a non-empty value with no blanks around it. */
  lemma {:induction false} ReportsAreTrimmed(s: seq<byte>, i: nat)
    requires i <= |s|
    ensures forall k :: 0 <= k < |ReadFrom(s, i).entries| ==>
              All(ReadFrom(s, i).entries[k].name, NameOctet) && GoodValue(ReadFrom(s, i).entries[k].value)
    decreases |s| - i
  {
    if i < |s| {
      match TurnAt(s, i)
      case Stop =>
      case Abort =>
      case Skip(next) => ReportsAreTrimmed(s, next);
      case Report(entry, next) =>
        ReportsAreTrimmed(s, next);
        TurnTrimmed(s, i);
    }
  }

  lemma TurnTrimmed(s: seq<byte>, i: nat)
    requires i < |s| && TurnAt(s, i).Report?
    ensures All(TurnAt(s, i).entry.name, NameOctet) && GoodValue(TurnAt(s, i).entry.value)
  {
    hide SkipTo, TrimRight, ValueTurn;
    var n := SkipTo(s, i, |s|, IsSpace);
    var m := SkipTo(s, n, |s|, NameOctet);
    if s[m] == EQUALS {
      ValueTrimmed(s, s[n..m], m);
    } else {
      ValueTrimmed(s, s[n..m], SkipTo(s, m + 1, |s|, IsPad));
    }
  }

  lemma ValueTrimmed(s: seq<byte>, name: seq<byte>, e: nat)
    requires e < |s| && ValueTurn(s, name, e).Report?
    ensures ValueTurn(s, name, e).entry.name == name && GoodValue(ValueTurn(s, name, e).entry.value)
  {
    hide SkipTo, TrimRight;
    var v := SkipTo(s, e + 1, |s|, IsPad);
    var w := SkipTo(s, v, |s|, ValueOctet);
    assert ValueOctet(s[v]) && v < w;
    var text := s[v..w];
    assert text[0] == s[v];
    assert TrimRight(text) != [];
  }
}
