// A whole event text, octet by octet.

module SampleEvent {
  import opened Bytes
  import opened StringExt
  import opened Json
  import opened Events

  lemma EscapeCons(c: byte, s: seq<byte>, e: seq<byte>, t: seq<byte>)
    requires EscapeOctet(c) == e && Escape(s) == t
    ensures Escape([c] + s) == e + t
  {
    assert ([c] + s)[1..] == s;
  }

  /** What the seven escaped octets become, and a slash, which is not escaped. */
  lemma EscapedOctets()
    ensures EscapeOctet(0x22) == [0x5C, 0x22] && EscapeOctet(0x5C) == [0x5C, 0x5C] && EscapeOctet(0x08) == [0x5C, 0x62]
    ensures EscapeOctet(0x0C) == [0x5C, 0x66] && EscapeOctet(0x0A) == [0x5C, 0x6E] && EscapeOctet(0x0D) == [0x5C, 0x72]
    ensures EscapeOctet(0x09) == [0x5C, 0x74] && EscapeOctet(0x2F) == [0x2F]
  {
  }

  /** `"x\` and a line feed. */
  lemma EscapedMessage()
    ensures Quoted([0x22, 0x78, 0x5C, 0x0A]) == Ascii("\"\\\"x\\\\\\n\"")
  {
    hide EscapeOctet, Escape;
    EscapedOctets();
    assert Escape([]) == [] by {
      NothingEscaped();
    }
    assert EscapeOctet(0x78) == [0x78] by {
      PlainLetter();
    }
    EscapeCons(0x0A, [], [0x5C, 0x6E], []);
    assert [0x0A] + [] == [0x0A] && [0x5C, 0x6E] + [] == [0x5C, 0x6E];
    EscapeCons(0x5C, [0x0A], [0x5C, 0x5C], [0x5C, 0x6E]);
    EscapeCons(0x78, [0x5C] + [0x0A], [0x78], [0x5C, 0x5C] + [0x5C, 0x6E]);
    var tail := [0x78] + ([0x5C] + [0x0A]);
    EscapeCons(0x22, tail, [0x5C, 0x22], [0x78] + ([0x5C, 0x5C] + [0x5C, 0x6E]));
    assert [0x22, 0x78, 0x5C, 0x0A] == [0x22] + tail;
  }

  lemma NothingEscaped()
    ensures Escape([]) == []
  {
  }

  lemma PlainLetter()
    ensures EscapeOctet(0x78) == [0x78]
  {
  }

  lemma Numbers()
    ensures IntegerText(7) == Ascii("7") && IntegerText(42) == Ascii("42") && IntegerText(-1) == Ascii("-1")
    ensures IntegerText(1064) == Ascii("1064")
  {
    assert Digits(4) == [0x34] && Digits(42) == Digits(4) + [0x32];
    assert Digits(1) == [0x31] && Digits(10) == Digits(1) + [0x30] && Digits(106) == Digits(10) + [0x36];
    assert Digits(1064) == Digits(106) + [0x34];
  }

  /** A member with a plain name. */
  lemma MemberIs(name: string, v: Value, text: seq<byte>)
    requires PlainName(name) && ValueText(v) == text
    ensures MemberText(Named(name, v)) == Ascii("\"") + Ascii(name) + Ascii("\": ") + text
  {
    hide Escape, ValueText;
    PlainEscape(Ascii(name));
    assert Ascii("\"") == [QUOTE];
    assert Ascii("\": ") == [QUOTE] + Ascii(": ");
  }

  lemma PlainValue(name: string)
    requires PlainName(name)
    ensures ValueText(StringValue(Ascii(name))) == Ascii("\"") + Ascii(name) + Ascii("\"")
  {
    hide Escape;
    PlainEscape(Ascii(name));
    assert Ascii("\"") == [QUOTE];
  }

  lemma NamesPlain()
    ensures PlainName("type") && PlainName("query_error") && PlainName("query_id") && PlainName("time")
    ensures PlainName("error_code") && PlainName("error_message") && PlainName("query_result") && PlainName("rows")
  {
  }

  lemma FiveMembers(a: Field, b: Field, c: Field, d: Field, e: Field)
    ensures ObjectText([a, b, c, d, e])
         == Ascii("{") + (MemberText(a) + Ascii(", ") + (MemberText(b) + Ascii(", ") + (MemberText(c) + Ascii(", ")
            + (MemberText(d) + Ascii(", ") + MemberText(e))))) + Ascii("}")
  {
    hide MemberText;
    assert [a, b, c, d, e][1..] == [b, c, d, e] && [b, c, d, e][1..] == [c, d, e];
    assert [c, d, e][1..] == [d, e] && [d, e][1..] == [e];
    var last := MembersText([d, e]);
    assert last == MemberText(d) + Ascii(", ") + MembersText([e]);
    assert MembersText([b, c, d, e]) == MemberText(b) + Ascii(", ") + MembersText([c, d, e]);
    assert MembersText([c, d, e]) == MemberText(c) + Ascii(", ") + last;
  }

  lemma Glue(open: seq<byte>, comma: seq<byte>, close: seq<byte>, ms: seq<seq<byte>>, last: seq<byte>)
    requires |ms| == 5 && last == ms[4] + close
    ensures open + (ms[0] + comma + (ms[1] + comma + (ms[2] + comma + (ms[3] + comma + ms[4])))) + close
         == (open + ms[0] + comma) + (ms[1] + comma + ms[2] + comma) + (ms[3] + comma) + last
  {
  }

  lemma ErrorFields(a: Field, b: Field, c: Field, d: Field, e: Field)
    requires a == Named("type", StringValue(Ascii("query_error"))) && b == Named("query_id", IntegerValue(7))
    requires c == Named("time", IntegerValue(42)) && d == Named("error_code", IntegerValue(1064))
    requires e == Named("error_message", StringValue([0x22, 0x78, 0x5C, 0x0A]))
    ensures Fields(MariaDb(770), ErrorEvent(Some([0x22, 0x78, 0x5C, 0x0A, 0x00, 0x78]), 1064, 7), 42) == [a, b, c, d, e]
  {
    hide Named, Ascii;
    MessageString();
  }

  /** An error report of a recent MariaDB server, with a quote, a backslash and a line feed in its message. */
  lemma ErrorText()
    ensures EventText(MariaDb(770), ErrorEvent(Some([0x22, 0x78, 0x5C, 0x0A, 0x00, 0x78]), 1064, 7), 42) ==
            Ascii("{\"type\": \"query_error\", ") + Ascii("\"query_id\": 7, \"time\": 42, ")
            + Ascii("\"error_code\": 1064, ") + Ascii("\"error_message\": ") + Ascii("\"\\\"x\\\\\\n\"}")
  {
    hide MemberText, ValueText, Ascii, Quoted, Named, IntegerText, Fields, ObjectText;
    var a := Named("type", StringValue(Ascii("query_error")));
    var b := Named("query_id", IntegerValue(7));
    var c := Named("time", IntegerValue(42));
    var d := Named("error_code", IntegerValue(1064));
    var e := Named("error_message", StringValue([0x22, 0x78, 0x5C, 0x0A]));
    ErrorFields(a, b, c, d, e);
    FiveMembers(a, b, c, d, e);
    var ms := [MemberText(a), MemberText(b), MemberText(c), MemberText(d), MemberText(e)];
    ErrorMembers();
    ErrorPieces();
    Glue(Ascii("{"), Ascii(", "), Ascii("}"), ms, ms[4] + Ascii("}"));
  }

  /** The string ends at its first NUL. */
  lemma MessageString()
    ensures CString([0x22, 0x78, 0x5C, 0x0A, 0x00, 0x78]) == [0x22, 0x78, 0x5C, 0x0A]
  {
    assert CString([0x00, 0x78]) == [];
    assert [0x0A, 0x00, 0x78][1..] == [0x00, 0x78] && [0x5C, 0x0A, 0x00, 0x78][1..] == [0x0A, 0x00, 0x78];
    assert [0x78, 0x5C, 0x0A, 0x00, 0x78][1..] == [0x5C, 0x0A, 0x00, 0x78];
    assert [0x22, 0x78, 0x5C, 0x0A, 0x00, 0x78][1..] == [0x78, 0x5C, 0x0A, 0x00, 0x78];
  }

  lemma ErrorMembers()
    ensures MemberText(Named("type", StringValue(Ascii("query_error")))) ==
            Ascii("\"") + Ascii("type") + Ascii("\": ") + (Ascii("\"") + Ascii("query_error") + Ascii("\""))
    ensures MemberText(Named("query_id", IntegerValue(7))) == Ascii("\"") + Ascii("query_id") + Ascii("\": ") + Ascii("7")
    ensures MemberText(Named("time", IntegerValue(42))) == Ascii("\"") + Ascii("time") + Ascii("\": ") + Ascii("42")
    ensures MemberText(Named("error_code", IntegerValue(1064))) ==
            Ascii("\"") + Ascii("error_code") + Ascii("\": ") + Ascii("1064")
    ensures MemberText(Named("error_message", StringValue([0x22, 0x78, 0x5C, 0x0A]))) ==
            Ascii("\"") + Ascii("error_message") + Ascii("\": ") + Ascii("\"\\\"x\\\\\\n\"")
  {
    hide MemberText, Ascii, Named, IntegerText, Quoted, PlainName;
    NamesPlain();
    Numbers();
    EscapedMessage();
    PlainValue("query_error");
    MemberIs("type", StringValue(Ascii("query_error")), Ascii("\"") + Ascii("query_error") + Ascii("\""));
    MemberIs("query_id", IntegerValue(7), Ascii("7"));
    MemberIs("time", IntegerValue(42), Ascii("42"));
    MemberIs("error_code", IntegerValue(1064), Ascii("1064"));
    MemberIs("error_message", StringValue([0x22, 0x78, 0x5C, 0x0A]), Ascii("\"\\\"x\\\\\\n\""));
  }

  lemma ErrorPieces()
    ensures Ascii("{\"type\": \"query_error\", ") ==
            Ascii("{") + (Ascii("\"") + Ascii("type") + Ascii("\": ") + (Ascii("\"") + Ascii("query_error") + Ascii("\""))) + Ascii(", ")
    ensures Ascii("\"query_id\": 7, \"time\": 42, ") ==
            Ascii("\"") + Ascii("query_id") + Ascii("\": ") + Ascii("7") + Ascii(", ")
            + (Ascii("\"") + Ascii("time") + Ascii("\": ") + Ascii("42")) + Ascii(", ")
    ensures Ascii("\"error_code\": 1064, ") ==
            Ascii("\"") + Ascii("error_code") + Ascii("\": ") + Ascii("1064") + Ascii(", ")
    ensures Ascii("\"error_message\": ") == Ascii("\"") + Ascii("error_message") + Ascii("\": ")
    ensures Ascii("\"\\\"x\\\\\\n\"}") == Ascii("\"\\\"x\\\\\\n\"") + Ascii("}")
  {
    TypePiece();
    NumberPieces();
    CodePiece();
    MessagePiece();
    LastPiece();
  }

  lemma TypePiece()
    ensures Ascii("{\"type\": \"query_error\", ") ==
            Ascii("{") + (Ascii("\"") + Ascii("type") + Ascii("\": ") + (Ascii("\"") + Ascii("query_error") + Ascii("\""))) + Ascii(", ")
  {
  }

  lemma NumberPieces()
    ensures Ascii("\"query_id\": 7, \"time\": 42, ") ==
            Ascii("\"") + Ascii("query_id") + Ascii("\": ") + Ascii("7") + Ascii(", ")
            + (Ascii("\"") + Ascii("time") + Ascii("\": ") + Ascii("42")) + Ascii(", ")
  {
  }

  lemma CodePiece()
    ensures Ascii("\"error_code\": 1064, ") ==
            Ascii("\"") + Ascii("error_code") + Ascii("\": ") + Ascii("1064") + Ascii(", ")
  {
  }

  lemma MessagePiece()
    ensures Ascii("\"error_message\": ") == Ascii("\"") + Ascii("error_message") + Ascii("\": ")
  {
  }

  lemma LastPiece()
    ensures Ascii("\"\\\"x\\\\\\n\"}") == Ascii("\"\\\"x\\\\\\n\"") + Ascii("}")
  {
  }
}
