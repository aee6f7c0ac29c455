// The JSON object that send_event of src/logger.c builds for an audit event.

module Events {
  import opened Bytes
  import opened StrBuf
  import opened Json

  const MAX_WS_MESSAGE_LEN := 4096

  /** The build: a MariaDB server with this audit interface version, or MySQL. */
  datatype Target = MySql | MariaDb(auditVersion: nat) {
    /** `TARGET_MARIADB && MYSQL_AUDIT_INTERFACE_VERSION >= 0x0302`. */
    predicate HasQueryId() {
      MariaDb? && auditVersion >= 0x0302
    }
  }

  type CPointer = Option<seq<byte>>

  /**
   * `struct mysql_event_general` by subclass; `counter` is what `ATOMIC_INCREMENT` returns: the query
   * counter before the increment under GCC, after it under Windows.
   */
  datatype Event =
    | LogEvent(user: CPointer, query: CPointer, command: CPointer, rows: uint64, queryId: uint64, database: CPointer,
               counter: int64)
    | ErrorEvent(message: CPointer, errorCode: int64, queryId: uint64)
    | ResultEvent(rows: uint64, queryId: uint64)
    | OtherEvent

  /** An unsigned 64-bit number passed where `%L` reads a `long long`. */
  function AsLongLong(n: uint64): int64 {
    if n < 0x8000_0000_0000_0000 then n else n - TWO_64
  }

  function PointerValue(p: CPointer): Value {
    match p
    case None => NullValue
    case Some(s) => StringValue(CString(s))
  }

  function Named(name: string, v: Value): Field {
    (Ascii(name), v)
  }

  function LogHead(user: CPointer, query: CPointer, time: int64, rows: uint64): seq<Field> {
    [Named("type", StringValue(Ascii("query_start"))),
     Named("user", PointerValue(user)),
     Named("query", PointerValue(query)),
     Named("time", IntegerValue(time)),
     Named("rows", IntegerValue(AsLongLong(rows)))]
  }

  /** The fields each subclass is announced with, for a clock reading `time`. */
  function Fields(target: Target, e: Event, time: int64): seq<Field> {
    match e
    case LogEvent(user, query, command, rows, queryId, database, counter) =>
      LogHead(user, if query != None then query else command, time, rows)
      + (if target.HasQueryId() then
           [Named("query_id", IntegerValue(AsLongLong(queryId))), Named("database", PointerValue(database))]
         else [Named("query_id", IntegerValue(counter))])
    case ErrorEvent(message, errorCode, queryId) =>
      [Named("type", StringValue(Ascii("query_error")))]
      + (if target.HasQueryId() then [Named("query_id", IntegerValue(AsLongLong(queryId)))] else [])
      + [Named("time", IntegerValue(time)),
         Named("error_code", IntegerValue(errorCode)),
         Named("error_message", PointerValue(message))]
    case ResultEvent(rows, queryId) =>
      [Named("type", StringValue(Ascii("query_result")))]
      + (if target.HasQueryId() then [Named("query_id", IntegerValue(AsLongLong(queryId)))] else [])
      + [Named("time", IntegerValue(time)), Named("rows", IntegerValue(AsLongLong(rows)))]
    case OtherEvent => []
  }

  /** The message text of an event. */
  function EventText(target: Target, e: Event, time: int64): seq<byte> {
    var fs := Fields(target, e, time);
    if fs == [] then Ascii("{}") else ObjectText(fs)
  }

  function PrefixText(fs: seq<Field>): seq<byte> {
    if fs == [] then [] else PrefixText(fs[..|fs| - 1]) + MemberText(fs[|fs| - 1]) + Ascii(", ")
  }

  lemma {:induction false} PrefixCons(f: Field, fs: seq<Field>)
    ensures PrefixText([f] + fs) == MemberText(f) + Ascii(", ") + PrefixText(fs)
  {
    hide MemberText;
    if fs == [] {
      assert [f] + fs == [f] && [f][..0] == [];
    } else {
      var init, last, all := fs[..|fs| - 1], fs[|fs| - 1], [f] + fs;
      PrefixCons(f, init);
      assert all[..|all| - 1] == [f] + init && all[|all| - 1] == last;
      assert PrefixText(all) == PrefixText([f] + init) + MemberText(last) + Ascii(", ");
    }
  }

  lemma {:induction false} MembersFromPrefix(fs: seq<Field>, last: Field)
    ensures MembersText(fs + [last]) == PrefixText(fs) + MemberText(last)
  {
    hide MemberText;
    if fs == [] {
      assert fs + [last] == [last];
    } else {
      var f, tail := fs[0], fs[1..];
      assert fs == [f] + tail && fs + [last] == [f] + (tail + [last]);
      PrefixCons(f, tail);
      MembersFromPrefix(tail, last);
    }
  }

  /** Lower-case letters and underscores, as in every member name. */
  predicate PlainName(name: string) {
    forall i :: 0 <= i < |name| ==> 'a' <= name[i] <= 'z' || name[i] == '_'
  }

  function ArgValue(a: Arg): Value
    requires !a.DoubleArg?
  {
    match a
    case BoolArg(b) => BoolValue(b)
    case IntegerArg(n) => IntegerValue(n)
    case StringArg(s) => PointerValue(s)
  }

  lemma {:induction false} PlainEscape(s: seq<byte>)
    requires forall i :: 0 <= i < |s| ==> 'a' as int <= s[i] <= 'z' as int || s[i] == '_' as int
    ensures Escape(s) == s && Clean(s)
  {
    if s != [] {
      PlainEscape(s[1..]);
    }
  }

  lemma {:induction false} ExpandPlain(p: seq<byte>, format: seq<byte>, args: seq<Arg>)
    requires PERCENT !in p && ArgsMatch(format, args)
    ensures ArgsMatch(p + format, args) && Expand(p + format, args) == p + Expand(format, args)
  {
    if p == [] {
      assert p + format == format;
    } else {
      assert (p + format)[1..] == p[1..] + format;
      ExpandPlain(p[1..], format, args);
    }
  }

  /** One member format of the source: the quoted name, a conversion and a separator. */
  lemma MemberFormat(name: string, conversion: char, separator: string, arg: Arg)
    requires PlainName(name) && (separator == ", " || separator == "")
    requires conversion in {'s', 'i', 'l', 'L'} && Accepts(conversion as int, arg)
    ensures var format := Ascii("\"" + name + "\": %" + [conversion] + separator);
      && ArgsMatch(format, [arg])
      && Expand(format, [arg]) == MemberText((Ascii(name), ArgValue(arg))) + Ascii(separator)
  {
    hide ArgText, Expand, ArgsMatch, Escape, ArgValue, ValueText;
    PlainEscape(Ascii(name));
    var head := Ascii("\"" + name + "\": ");
    var tail := Ascii("%" + [conversion] + separator);
    assert Ascii("\"" + name + "\": %" + [conversion] + separator) == head + tail;
    assert tail[2..] == Ascii(separator) && tail[0] == PERCENT && tail[1] == conversion as int;
    SeparatorText(separator);
    ExpandStep(tail, arg);
    ExpandPlain(head, tail, [arg]);
    assert head == Quoted(Ascii(name)) + Ascii(": ");
    ArgIsValue(arg);
  }

  lemma ExpandStep(tail: seq<byte>, arg: Arg)
    requires |tail| >= 2 && tail[0] == PERCENT && IsConversion(tail[1]) && Accepts(tail[1], arg)
    requires ArgsMatch(tail[2..], [])
    ensures ArgsMatch(tail, [arg]) && Expand(tail, [arg]) == ArgText(arg) + Expand(tail[2..], [])
  {
    hide ArgText;
    assert [arg][1..] == [];
  }

  lemma SeparatorText(separator: string)
    requires separator == ", " || separator == ""
    ensures ArgsMatch(Ascii(separator), []) && Expand(Ascii(separator), []) == Ascii(separator)
  {
    if separator == ", " {
      var s := Ascii(", ");
      assert s == [',' as int] + [0x20];
      assert s[1..] == [0x20] && [0x20][1..] == [];
    }
  }

  lemma ArgIsValue(arg: Arg)
    requires !arg.DoubleArg?
    ensures ArgText(arg) == ValueText(ArgValue(arg))
  {
  }

  lemma PlainCString(name: string)
    requires PlainName(name)
    ensures CString(Ascii(name)) == Ascii(name)
  {
    CStringWhole(Ascii(name));
  }

  /** The members that are followed by another one. */
  datatype Member = TypeName | User | Query | Time | Rows | QueryId | ErrorCode

  function NameOf(m: Member): string {
    match m
    case TypeName => "type"
    case User => "user"
    case Query => "query"
    case Time => "time"
    case Rows => "rows"
    case QueryId => "query_id"
    case ErrorCode => "error_code"
  }

  function ConversionOf(m: Member): char {
    match m
    case TypeName => 's'
    case User => 's'
    case Query => 's'
    case Time => 'L'
    case Rows => 'L'
    case QueryId => 'L'
    case ErrorCode => 'i'
  }

  /** The format with which the source emits a member. */
  function FormatOf(m: Member): string {
    match m
    case TypeName => "\"type\": %s, "
    case User => "\"user\": %s, "
    case Query => "\"query\": %s, "
    case Time => "\"time\": %L, "
    case Rows => "\"rows\": %L, "
    case QueryId => "\"query_id\": %L, "
    case ErrorCode => "\"error_code\": %i, "
  }

  lemma FormatParts(m: Member)
    ensures FormatOf(m) == "\"" + NameOf(m) + "\": %" + [ConversionOf(m)] + ", "
  {
    hide FormatOf, NameOf, ConversionOf;
    if m == TypeName || m == User || m == Query || m == Time {
      ShortFormatParts(m);
    } else {
      LongFormatParts(m);
    }
  }

  lemma ShortFormatParts(m: Member)
    requires m == TypeName || m == User || m == Query || m == Time
    ensures FormatOf(m) == "\"" + NameOf(m) + "\": %" + [ConversionOf(m)] + ", "
  {
  }

  lemma LongFormatParts(m: Member)
    requires m == Rows || m == QueryId || m == ErrorCode
    ensures FormatOf(m) == "\"" + NameOf(m) + "\": %" + [ConversionOf(m)] + ", "
  {
  }

  lemma NamesPlain(m: Member)
    ensures PlainName(NameOf(m)) && ConversionOf(m) in {'s', 'i', 'l', 'L'}
  {
  }

  /** A `json_encode` call with the format of a member appends that member and the separator. */
  method EmitMember(json: StrBuf, m: Member, arg: Arg, ghost done: seq<Field>) returns (ghost next: seq<Field>)
    requires Accepts(ConversionOf(m) as int, arg)
    requires json.Valid() && json.Text() == Ascii("{") + PrefixText(done)
    modifies json, json.str
    ensures json.Valid() && (json.str == old(json.str) || fresh(json.str))
    ensures next == done + [Named(NameOf(m), ArgValue(arg))]
    ensures json.Text() == Ascii("{") + PrefixText(next)
  {
    hide Expand, ArgsMatch, MemberText, PrefixText, ArgValue, NameOf, FormatOf;
    ghost var f := Named(NameOf(m), ArgValue(arg));
    FormatParts(m);
    NamesPlain(m);
    MemberFormat(NameOf(m), ConversionOf(m), ", ", arg);
    Json.Encode(json, Ascii(FormatOf(m)), [arg]);
    next := done + [f];
    PrefixNext(Ascii("{"), done, f);
  }

  lemma PrefixNext(before: seq<byte>, done: seq<Field>, f: Field)
    ensures before + PrefixText(done + [f]) == (before + PrefixText(done)) + (MemberText(f) + Ascii(", "))
  {
    hide MemberText;
    var next := done + [f];
    assert next[..|next| - 1] == done;
  }

  /** The last member of an object, whose format has no separator. */
  method EmitLast(json: StrBuf, format: string, arg: Arg, ghost name: string, ghost conversion: char,
                  ghost done: seq<Field>)
    requires PlainName(name) && conversion in {'s', 'i', 'l', 'L'} && Accepts(conversion as int, arg)
    requires format == "\"" + name + "\": %" + [conversion]
    requires json.Valid() && json.Text() == Ascii("{") + PrefixText(done)
    modifies json, json.str
    ensures json.Valid() && (json.str == old(json.str) || fresh(json.str))
    ensures json.Text() == Ascii("{") + MembersText(done + [Named(name, ArgValue(arg))])
  {
    hide Expand, ArgsMatch, MemberText, MembersText, PrefixText, ArgValue;
    ghost var f := Named(name, ArgValue(arg));
    MemberFormat(name, conversion, "", arg);
    assert format == "\"" + name + "\": %" + [conversion] + "";
    Json.Encode(json, Ascii(format), [arg]);
    LastMember(Ascii("{"), done, f);
  }

  lemma LastMember(before: seq<byte>, done: seq<Field>, f: Field)
    ensures before + MembersText(done + [f]) == (before + PrefixText(done)) + (MemberText(f) + Ascii(""))
  {
    hide MemberText, MembersText, PrefixText;
    MembersFromPrefix(done, f);
  }

  /** The first member of every event. */
  method EmitType(json: StrBuf, kind: string, ghost done: seq<Field>) returns (ghost next: seq<Field>)
    requires PlainName(kind)
    requires json.Valid() && json.Text() == Ascii("{") + PrefixText(done)
    modifies json, json.str
    ensures json.Valid() && (json.str == old(json.str) || fresh(json.str))
    ensures next == done + [Named("type", StringValue(Ascii(kind)))]
    ensures json.Text() == Ascii("{") + PrefixText(next)
  {
    hide PrefixText;
    PlainCString(kind);
    next := EmitMember(json, TypeName, StringArg(Some(Ascii(kind))), done);
  }

  method EmitLogHead(json: StrBuf, user: CPointer, query: CPointer, time: int64, rows: uint64)
    returns (ghost done: seq<Field>)
    requires json.Valid() && json.Text() == Ascii("{")
    modifies json, json.str
    ensures json.Valid() && (json.str == old(json.str) || fresh(json.str))
    ensures done == LogHead(user, query, time, rows) && json.Text() == Ascii("{") + PrefixText(done)
  {
    hide PrefixText, AsLongLong, Named, Ascii, LogHead, PointerValue, ArgValue, NameOf;
    done := NoMembers();
    done := EmitType(json, "query_start", done);
    done := EmitMember(json, User, StringArg(user), done);
    done := EmitMember(json, Query, StringArg(query), done);
    done := EmitMember(json, Time, IntegerArg(time), done);
    done := EmitMember(json, Rows, IntegerArg(AsLongLong(rows)), done);
    LogHeadIs(user, query, time, rows);
  }

  lemma LogHeadIs(user: CPointer, query: CPointer, time: int64, rows: uint64)
    ensures LogHead(user, query, time, rows) ==
            [] + [Named("type", StringValue(Ascii("query_start")))]
            + [Named(NameOf(User), ArgValue(StringArg(user)))] + [Named(NameOf(Query), ArgValue(StringArg(query)))]
            + [Named(NameOf(Time), ArgValue(IntegerArg(time)))]
            + [Named(NameOf(Rows), ArgValue(IntegerArg(AsLongLong(rows))))]
  {
    hide AsLongLong, Named, Ascii;
  }

  /** The members for `MYSQL_AUDIT_GENERAL_LOG`. */
  method EmitLogEvent(json: StrBuf, target: Target, e: Event, time: int64)
    requires e.LogEvent?
    requires json.Valid() && json.Text() == Ascii("{")
    modifies json, json.str
    ensures json.Valid() && (json.str == old(json.str) || fresh(json.str))
    ensures json.Text() == Ascii("{") + MembersText(Fields(target, e, time))
  {
    hide MembersText, PrefixText, LogHead, AsLongLong;
    var queryStr := if e.query != None then e.query else e.command;
    ghost var done := EmitLogHead(json, e.user, queryStr, time, e.rows);
    if target.HasQueryId() {
      done := EmitMember(json, QueryId, IntegerArg(AsLongLong(e.queryId)), done);
      assert done + [Named("database", PointerValue(e.database))] == Fields(target, e, time);
      EmitLast(json, "\"database\": %s", StringArg(e.database), "database", 's', done);
    } else {
      assert done + [Named("query_id", IntegerValue(e.counter))] == Fields(target, e, time);
      EmitLast(json, "\"query_id\": %l", IntegerArg(e.counter), "query_id", 'l', done);
    }
  }

  /** The members for `MYSQL_AUDIT_GENERAL_ERROR`. */
  method EmitErrorEvent(json: StrBuf, target: Target, e: Event, time: int64)
    requires e.ErrorEvent?
    requires json.Valid() && json.Text() == Ascii("{")
    modifies json, json.str
    ensures json.Valid() && (json.str == old(json.str) || fresh(json.str))
    ensures json.Text() == Ascii("{") + MembersText(Fields(target, e, time))
  {
    hide MembersText, PrefixText, AsLongLong;
    ghost var done := EmitErrorHead(json, target, e.queryId, time, e.errorCode);
    assert done + [Named("error_message", PointerValue(e.message))] == Fields(target, e, time);
    EmitLast(json, "\"error_message\": %s", StringArg(e.message), "error_message", 's', done);
  }

  method EmitErrorHead(json: StrBuf, target: Target, queryId: uint64, time: int64, errorCode: int64)
    returns (ghost done: seq<Field>)
    requires json.Valid() && json.Text() == Ascii("{")
    modifies json, json.str
    ensures json.Valid() && (json.str == old(json.str) || fresh(json.str))
    ensures done == [Named("type", StringValue(Ascii("query_error")))]
                    + (if target.HasQueryId() then [Named("query_id", IntegerValue(AsLongLong(queryId)))] else [])
                    + [Named("time", IntegerValue(time)), Named("error_code", IntegerValue(errorCode))]
    ensures json.Text() == Ascii("{") + PrefixText(done)
  {
    hide PrefixText, AsLongLong, Named;
    done := NoMembers();
    done := EmitType(json, "query_error", done);
    if target.HasQueryId() {
      done := EmitMember(json, QueryId, IntegerArg(AsLongLong(queryId)), done);
    }
    done := EmitMember(json, Time, IntegerArg(time), done);
    done := EmitMember(json, ErrorCode, IntegerArg(errorCode), done);
  }

  /** The members for `MYSQL_AUDIT_GENERAL_RESULT`. */
  method EmitResultEvent(json: StrBuf, target: Target, e: Event, time: int64)
    requires e.ResultEvent?
    requires json.Valid() && json.Text() == Ascii("{")
    modifies json, json.str
    ensures json.Valid() && (json.str == old(json.str) || fresh(json.str))
    ensures json.Text() == Ascii("{") + MembersText(Fields(target, e, time))
  {
    hide MembersText, PrefixText;
    ghost var done := NoMembers();
    done := EmitType(json, "query_result", done);
    if target.HasQueryId() {
      done := EmitMember(json, QueryId, IntegerArg(AsLongLong(e.queryId)), done);
    }
    done := EmitMember(json, Time, IntegerArg(time), done);
    assert done + [Named("rows", IntegerValue(AsLongLong(e.rows)))] == Fields(target, e, time);
    EmitLast(json, "\"rows\": %L", IntegerArg(AsLongLong(e.rows)), "rows", 'L', done);
  }

  lemma NoMembers() returns (done: seq<Field>)
    ensures done == [] && Ascii("{") + PrefixText(done) == Ascii("{")
  {
    done := [];
  }

  /** The JSON building of `send_event`, from the opening to the closing brace. */
  method BuildEvent(target: Target, e: Event, time: int64) returns (json: StrBuf)
    ensures fresh(json) && fresh(json.str) && json.Valid()
    ensures json.Text() == EventText(target, e, time)
  {
    hide MembersText, Fields;
    json := new StrBuf(MAX_WS_MESSAGE_LEN);
    var _ := Put(json, Ascii("{"));
    assert [] + Ascii("{") == Ascii("{");
    match e {
      case LogEvent(_, _, _, _, _, _, _) => EmitLogEvent(json, target, e, time);
      case ErrorEvent(_, _, _) => EmitErrorEvent(json, target, e, time);
      case ResultEvent(_, _) => EmitResultEvent(json, target, e, time);
      case OtherEvent =>
    }
    var _ := Put(json, Ascii("}"));
    FieldsEmpty(target, e, time);
    assert Ascii("{") + Ascii("}") == Ascii("{}");
  }

  lemma FieldsEmpty(target: Target, e: Event, time: int64)
    ensures Fields(target, e, time) == [] <==> e.OtherEvent?
  {
  }

  /** The strings of an event hold no control character that the source leaves unescaped. */
  predicate CleanEvent(e: Event) {
    match e
    case LogEvent(user, query, command, _, _, database, _) =>
      CleanPointer(user) && CleanPointer(if query != None then query else command)
    case ErrorEvent(message, _, _) => CleanPointer(message)
    case _ => true
  }

  predicate CleanPointer(p: CPointer) {
    p.Some? ==> Clean(CString(p.value))
  }

  /** The database name is only announced by recent MariaDB builds. */
  predicate CleanDatabase(target: Target, e: Event) {
    e.LogEvent? && target.HasQueryId() ==> CleanPointer(e.database)
  }

  lemma FieldsClean(target: Target, e: Event, time: int64)
    ensures (forall i :: 0 <= i < |Fields(target, e, time)| ==> CleanField(Fields(target, e, time)[i]))
        <==> CleanEvent(e) && CleanDatabase(target, e)
  {
    hide Clean;
    PlainFields();
    var fs := Fields(target, e, time);
    match e {
      case LogEvent(user, query, command, _, _, database, _) =>
        assert CleanField(fs[1]) <==> CleanPointer(user);
        assert CleanField(fs[2]) <==> CleanPointer(if query != None then query else command);
        assert target.HasQueryId() ==> (CleanField(fs[6]) <==> CleanPointer(database));
      case ErrorEvent(message, _, _) =>
        assert CleanField(fs[|fs| - 1]) <==> CleanPointer(message);
      case _ =>
    }
  }

  lemma PlainIsClean(name: string)
    requires PlainName(name)
    ensures Clean(Ascii(name))
  {
    PlainEscape(Ascii(name));
  }

  lemma PlainFields()
    ensures forall name | name in {"type", "user", "query", "time", "rows", "query_id", "database", "error_code",
                                   "error_message", "query_start", "query_error", "query_result"} ::
              Clean(Ascii(name))
  {
    forall name | name in {"type", "user", "query", "time", "rows", "query_id", "database", "error_code",
                           "error_message", "query_start", "query_error", "query_result"}
      ensures Clean(Ascii(name))
    {
      PlainIsClean(name);
    }
  }

  /**
   * Every event object parses to exactly its field list, whatever the query text,
   * user or error message holds, unless a raw control character is left in it.
   */
  lemma EventRoundTrip(target: Target, e: Event, time: int64)
    requires !e.OtherEvent?
    ensures DecodeObject(EventText(target, e, time))
         == if CleanEvent(e) && CleanDatabase(target, e) then Some((Fields(target, e, time), [])) else None
  {
    hide Fields, ObjectText, DecodeObject, CleanEvent, CleanDatabase, CleanField;
    FieldsEmpty(target, e, time);
    FieldsClean(target, e, time);
    ObjectRoundTrip(Fields(target, e, time), []);
    assert EventText(target, e, time) + [] == EventText(target, e, time);
  }

  // ----- the text as a C string -----

  lemma {:induction false} CStringNoNul(s: seq<byte>)
    ensures 0 !in CString(s)
  {
    if s != [] && s[0] != 0 {
      CStringNoNul(s[1..]);
    }
  }

  lemma {:induction false} EscapeNoNul(s: seq<byte>)
    requires 0 !in s
    ensures 0 !in Escape(s)
  {
    if s != [] {
      EscapeNoNul(s[1..]);
    }
  }

  predicate NoNulField(f: Field) {
    0 !in f.0 && (f.1.StringValue? ==> 0 !in f.1.s)
  }

  lemma PlainNoNul(name: string)
    requires PlainName(name)
    ensures 0 !in Ascii(name)
  {
  }

  lemma PointerNoNul(name: string, p: CPointer)
    requires PlainName(name)
    ensures NoNulField(Named(name, PointerValue(p)))
  {
    PlainNoNul(name);
    if p.Some? {
      CStringNoNul(p.value);
    }
  }

  lemma NumberNoNul(name: string, n: int64)
    requires PlainName(name)
    ensures NoNulField(Named(name, IntegerValue(n)))
  {
    PlainNoNul(name);
  }

  lemma TypeNoNul(kind: string)
    requires PlainName(kind)
    ensures NoNulField(Named("type", StringValue(Ascii(kind))))
  {
    PlainNoNul("type");
    PlainNoNul(kind);
  }

  lemma FieldsNoNul(target: Target, e: Event, time: int64)
    ensures forall i :: 0 <= i < |Fields(target, e, time)| ==> NoNulField(Fields(target, e, time)[i])
  {
    hide NoNulField, Named, PointerValue, AsLongLong;
    NumberNoNul("time", time);
    match e {
      case LogEvent(user, query, command, rows, queryId, database, counter) =>
        TypeNoNul("query_start");
        PointerNoNul("user", user);
        PointerNoNul("query", if query != None then query else command);
        NumberNoNul("rows", AsLongLong(rows));
        NumberNoNul("query_id", AsLongLong(queryId));
        NumberNoNul("query_id", counter);
        PointerNoNul("database", database);
      case ErrorEvent(message, errorCode, queryId) =>
        TypeNoNul("query_error");
        NumberNoNul("query_id", AsLongLong(queryId));
        NumberNoNul("error_code", errorCode);
        PointerNoNul("error_message", message);
      case ResultEvent(rows, queryId) =>
        TypeNoNul("query_result");
        NumberNoNul("query_id", AsLongLong(queryId));
        NumberNoNul("rows", AsLongLong(rows));
      case OtherEvent =>
    }
  }

  lemma MemberNoNul(f: Field)
    requires NoNulField(f)
    ensures 0 !in MemberText(f)
  {
    hide Escape, ValueText;
    EscapeNoNul(f.0);
    ValueNoNul(f.1);
  }

  lemma ValueNoNul(v: Value)
    requires v.StringValue? ==> 0 !in v.s
    ensures 0 !in ValueText(v)
  {
    hide Escape;
    if v.StringValue? {
      EscapeNoNul(v.s);
    }
  }

  lemma {:induction false} MembersNoNul(fs: seq<Field>)
    requires fs != [] && forall i :: 0 <= i < |fs| ==> NoNulField(fs[i])
    ensures 0 !in MembersText(fs)
  {
    hide MemberText, NoNulField;
    MemberNoNul(fs[0]);
    if |fs| > 1 {
      MembersNoNul(fs[1..]);
    }
  }

  /** Read as a C string the text is whole. */
  lemma EventTextWhole(target: Target, e: Event, time: int64)
    ensures CString(EventText(target, e, time)) == EventText(target, e, time)
  {
    hide Fields, MembersText, NoNulField;
    var fs := Fields(target, e, time);
    FieldsNoNul(target, e, time);
    if fs != [] {
      MembersNoNul(fs);
    }
    CStringWhole(EventText(target, e, time));
  }
}
