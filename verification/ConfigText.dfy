// Configuration texts written out in octets, without the reader's own notions of blanks.

module ConfigText {
  import opened Bytes
  import Config

  /** Blanks: space, tab, line feed, vertical tab, form feed, carriage return. */
  lemma OctetClasses(c: byte)
    ensures Config.IsSpace(c) <==> c in {0x20, 0x09, 0x0A, 0x0B, 0x0C, 0x0D}
    ensures Config.IsPad(c) <==> c in {0x20, 0x09, 0x0B, 0x0C, 0x0D}
    ensures Config.NameOctet(c) <==> c !in {0x20, 0x09, 0x0A, 0x0B, 0x0C, 0x0D, 0x3D}
    ensures Config.ValueOctet(c) <==> c !in {0xFF, 0x0D, 0x0A}
  {
  }

  /** What stands around a name and a value in its line. */
  datatype Setting = Setting(lead: seq<byte>, name: seq<byte>, pad1: seq<byte>, pad2: seq<byte>,
                             value: seq<byte>, trail: seq<byte>, newline: byte)

  /** All octets are among the given ones. */
  predicate Only(s: seq<byte>, octets: set<byte>) {
    forall i :: 0 <= i < |s| ==> s[i] in octets
  }

  predicate Without(s: seq<byte>, octets: set<byte>) {
    forall i :: 0 <= i < |s| ==> s[i] !in octets
  }

  predicate Written(x: Setting) {
    && Only(x.lead, {0x20, 0x09, 0x0A, 0x0B, 0x0C, 0x0D})
    && x.name != [] && Without(x.name, {0x20, 0x09, 0x0A, 0x0B, 0x0C, 0x0D, 0x3D}) && x.name[0] != 0xFF
    && Only(x.pad1, {0x20, 0x09, 0x0B, 0x0C, 0x0D}) && Only(x.pad2, {0x20, 0x09, 0x0B, 0x0C, 0x0D})
    && x.value != [] && Without(x.value, {0xFF, 0x0D, 0x0A})
    && x.value[0] !in {0x20, 0x09, 0x0B, 0x0C} && x.value[|x.value| - 1] !in {0x20, 0x09, 0x0B, 0x0C}
    && Only(x.trail, {0x20, 0x09, 0x0B, 0x0C})
    && x.newline in {0x0A, 0x0D}
  }

  function SettingText(x: Setting): seq<byte> {
    x.lead + x.name + x.pad1 + [0x3D] + x.pad2 + x.value + x.trail + [x.newline]
  }

  function SettingsText(xs: seq<Setting>, blanks: seq<byte>): seq<byte> {
    if xs == [] then blanks else SettingText(xs[0]) + SettingsText(xs[1..], blanks)
  }

  function LineOf(x: Setting): Config.Line {
    Config.Line(x.lead, x.name, x.pad1, x.pad2, x.value, x.trail, x.newline)
  }

  function LinesOf(xs: seq<Setting>): (r: seq<Config.Line>)
    ensures |r| == |xs| && forall i :: 0 <= i < |xs| ==> r[i] == LineOf(xs[i])
  {
    seq(|xs|, i requires 0 <= i < |xs| => LineOf(xs[i]))
  }

  lemma LineWellFormed(x: Setting)
    requires Written(x)
    ensures Config.WellFormed(LineOf(x))
  {
    hide Config.IsSpace, Config.IsPad, Config.NameOctet, Config.ValueOctet;
    forall c: byte
      ensures Config.IsSpace(c) <==> c in {0x20, 0x09, 0x0A, 0x0B, 0x0C, 0x0D}
      ensures Config.IsPad(c) <==> c in {0x20, 0x09, 0x0B, 0x0C, 0x0D}
      ensures Config.NameOctet(c) <==> c !in {0x20, 0x09, 0x0A, 0x0B, 0x0C, 0x0D, 0x3D}
      ensures Config.ValueOctet(c) <==> c !in {0xFF, 0x0D, 0x0A}
    {
      OctetClasses(c);
    }
  }

  lemma LineTextIs(x: Setting, rest: seq<byte>)
    ensures Config.LineText(LineOf(x), [x.newline] + rest) == SettingText(x) + rest
  {
  }

  lemma {:induction false} TextIs(xs: seq<Setting>, blanks: seq<byte>)
    ensures Config.Text(LinesOf(xs), blanks) == SettingsText(xs, blanks)
  {
    if xs != [] {
      hide Config.LineText, SettingText;
      TextIs(xs[1..], blanks);
      assert LinesOf(xs)[1..] == LinesOf(xs[1..]);
      LineTextIs(xs[0], SettingsText(xs[1..], blanks));
    }
  }

  /** The names and values of settings written in octets are reported exactly, in order, and nothing else is. */
  lemma SettingsRoundTrip(xs: seq<Setting>, blanks: seq<byte>)
    requires (forall i :: 0 <= i < |xs| ==> Written(xs[i])) && Only(blanks, {0x20, 0x09, 0x0A, 0x0B, 0x0C, 0x0D})
    ensures var r := Config.ReadFrom(SettingsText(xs, blanks), 0);
            && !r.aborted && |r.entries| == |xs|
            && forall i :: 0 <= i < |xs| ==> r.entries[i] == Config.Entry(xs[i].name, xs[i].value)
  {
    hide Written, Config.WellFormed, Config.Text, SettingsText, Config.ReadFrom, Config.IsSpace;
    forall i | 0 <= i < |xs|
      ensures Config.WellFormed(LinesOf(xs)[i])
    {
      LineWellFormed(xs[i]);
    }
    forall i | 0 <= i < |blanks|
      ensures Config.IsSpace(blanks[i])
    {
      OctetClasses(blanks[i]);
    }
    TextIs(xs, blanks);
    var s := SettingsText(xs, blanks);
    assert s[0..] == s;
    Config.ConfigRoundTrip(s, 0, LinesOf(xs), blanks);
  }

  /** On every text, names and values are reported without the octets that count as blanks around them. */
  lemma ReportsInOctets(s: seq<byte>, k: nat)
    requires k < |Config.ReadFrom(s, 0).entries|
    ensures var e := Config.ReadFrom(s, 0).entries[k];
            && Without(e.name, {0x20, 0x09, 0x0A, 0x0B, 0x0C, 0x0D, 0x3D})
            && e.value != [] && Without(e.value, {0xFF, 0x0D, 0x0A})
            && e.value[0] !in {0x20, 0x09, 0x0A, 0x0B, 0x0C, 0x0D}
            && e.value[|e.value| - 1] !in {0x20, 0x09, 0x0A, 0x0B, 0x0C, 0x0D}
  {
    hide Config.ReadFrom, Config.IsSpace, Config.NameOctet, Config.ValueOctet;
    Config.ReportsAreTrimmed(s, 0);
    var e := Config.ReadFrom(s, 0).entries[k];
    forall i | 0 <= i < |e.name|
      ensures e.name[i] !in {0x20, 0x09, 0x0A, 0x0B, 0x0C, 0x0D, 0x3D}
    {
      OctetClasses(e.name[i]);
    }
    forall i | 0 <= i < |e.value|
      ensures e.value[i] !in {0xFF, 0x0D, 0x0A}
    {
      OctetClasses(e.value[i]);
    }
    OctetClasses(e.value[0]);
    OctetClasses(e.value[|e.value| - 1]);
  }

  /** The example of the repository's own tests: blank lines, and blanks around and inside a value. */
  lemma ExampleText()
    ensures Config.ReadFrom(Ascii("foo = 1\n\nbar = h") + Ascii("ello world   \n"), 0)
         == Config.Outcome([Config.Entry(Ascii("foo"), Ascii("1")), Config.Entry(Ascii("bar"), Ascii("hello world"))], false)
  {
    hide Config.ReadFrom, SettingsText, Written, Ascii, Only;
    var foo := Setting([], Ascii("foo"), [0x20], [0x20], Ascii("1"), [], 0x0A);
    var bar := Setting([0x0A], Ascii("bar"), [0x20], [0x20], Ascii("hello world"), [0x20, 0x20, 0x20], 0x0A);
    ExampleWritten(foo, bar);
    ExampleOctets(foo, bar);
    SettingsRoundTrip([foo, bar], []);
  }

  lemma ExampleWritten(foo: Setting, bar: Setting)
    requires foo == Setting([], Ascii("foo"), [0x20], [0x20], Ascii("1"), [], 0x0A)
    requires bar == Setting([0x0A], Ascii("bar"), [0x20], [0x20], Ascii("hello world"), [0x20, 0x20, 0x20], 0x0A)
    ensures Written(foo) && Written(bar) && Only([], {0x20, 0x09, 0x0A, 0x0B, 0x0C, 0x0D})
  {
    hide Ascii, Without, Only;
    ExampleWords();
    ExampleBlanks();
  }

  lemma ExampleWords()
    ensures Without(Ascii("foo"), {0x20, 0x09, 0x0A, 0x0B, 0x0C, 0x0D, 0x3D})
    ensures Without(Ascii("bar"), {0x20, 0x09, 0x0A, 0x0B, 0x0C, 0x0D, 0x3D})
    ensures Without(Ascii("1"), {0xFF, 0x0D, 0x0A}) && Without(Ascii("hello world"), {0xFF, 0x0D, 0x0A})
    ensures Ascii("foo")[0] == 0x66 && Ascii("bar")[0] == 0x62 && Ascii("1")[0] == 0x31
    ensures Ascii("hello world")[0] == 0x68 && Ascii("hello world")[10] == 0x64
  {
  }

  lemma ExampleBlanks()
    ensures Only([], {0x20, 0x09, 0x0A, 0x0B, 0x0C, 0x0D}) && Only([], {0x20, 0x09, 0x0B, 0x0C})
    ensures Only([0x0A], {0x20, 0x09, 0x0A, 0x0B, 0x0C, 0x0D}) && Only([0x20], {0x20, 0x09, 0x0B, 0x0C, 0x0D})
    ensures Only([0x20, 0x20, 0x20], {0x20, 0x09, 0x0B, 0x0C})
  {
  }

  lemma ExampleOctets(foo: Setting, bar: Setting)
    requires foo == Setting([], Ascii("foo"), [0x20], [0x20], Ascii("1"), [], 0x0A)
    requires bar == Setting([0x0A], Ascii("bar"), [0x20], [0x20], Ascii("hello world"), [0x20, 0x20, 0x20], 0x0A)
    ensures SettingsText([foo, bar], []) == Ascii("foo = 1\n\nbar = h") + Ascii("ello world   \n")
  {
    FooText(foo);
    BarText(bar);
    FirstHalf();
    hide Ascii, SettingText;
    assert [foo, bar][1..] == [bar] && [bar][1..] == [];
    assert SettingsText([bar], []) == SettingText(bar) + [];
  }

  lemma FooText(foo: Setting)
    requires foo == Setting([], Ascii("foo"), [0x20], [0x20], Ascii("1"), [], 0x0A)
    ensures SettingText(foo) == Ascii("foo = 1\n")
  {
  }

  lemma BarText(bar: Setting)
    requires bar == Setting([0x0A], Ascii("bar"), [0x20], [0x20], Ascii("hello world"), [0x20, 0x20, 0x20], 0x0A)
    ensures SettingText(bar) == Ascii("\nbar = h") + Ascii("ello world   \n")
  {
  }

  lemma FirstHalf()
    ensures Ascii("foo = 1\n\nbar = h") == Ascii("foo = 1\n") + Ascii("\nbar = h")
  {
  }
}
