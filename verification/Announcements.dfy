// What a reader of an event's object finds under each member name.

module Announcements {
  import opened Bytes
  import opened Json
  import opened Events

  function Find(fs: seq<Field>, name: seq<byte>): Option<Value> {
    if fs == [] then None else if fs[0].0 == name then Some(fs[0].1) else Find(fs[1..], name)
  }

  lemma {:induction false} FindAt(fs: seq<Field>, i: nat, name: seq<byte>)
    requires i < |fs| && fs[i].0 == name && forall j :: 0 <= j < i ==> fs[j].0 != name
    ensures Find(fs, name) == Some(fs[i].1)
  {
    if i > 0 {
      FindAt(fs[1..], i - 1, name);
    }
  }

  lemma {:induction false} FindNone(fs: seq<Field>, name: seq<byte>)
    requires forall j :: 0 <= j < |fs| ==> fs[j].0 != name
    ensures Find(fs, name) == None
  {
    if fs != [] {
      FindNone(fs[1..], name);
    }
  }

  /** The text parses as an object in which the member of this name has this value. */
  predicate Tells(text: seq<byte>, name: string, v: Value) {
    && DecodeObject(text).Some? && DecodeObject(text).value.1 == []
    && Find(DecodeObject(text).value.0, Ascii(name)) == Some(v)
  }

  predicate Omits(text: seq<byte>, name: string) {
    DecodeObject(text).Some? && Find(DecodeObject(text).value.0, Ascii(name)) == None
  }

  /** The member is null for a null pointer, and otherwise the string up to its first NUL. */
  ghost predicate TellsString(text: seq<byte>, name: string, p: CPointer) {
    match p
    case None => Tells(text, name, NullValue)
    case Some(s) => exists n: nat :: n <= |s| && 0 !in s[..n] && (n < |s| ==> s[n] == 0) && Tells(text, name, StringValue(s[..n]))
  }

  /** The member is a count: itself below 2^63, and the count minus 2^64 from there on. */
  predicate TellsCount(text: seq<byte>, name: string, n: nat) {
    Tells(text, name, IntegerValue(if n < 0x8000_0000_0000_0000 then n else n - 0x1_0000_0000_0000_0000))
  }

  lemma {:induction false} CStringIs(s: seq<byte>) returns (n: nat)
    ensures n <= |s| && CString(s) == s[..n] && 0 !in s[..n] && (n < |s| ==> s[n] == 0)
  {
    if s == [] || s[0] == 0 {
      n := 0;
    } else {
      n := CStringIs(s[1..]);
      n := n + 1;
      assert s[..n] == [s[0]] + s[1..][..n - 1];
    }
  }

  lemma PointerTold(text: seq<byte>, name: string, p: CPointer)
    requires Tells(text, name, PointerValue(p))
    ensures TellsString(text, name, p)
  {
    hide Tells;
    if p.Some? {
      var n := CStringIs(p.value);
    }
  }

  /** The members of a clean event, in order. */
  lemma Decoded(target: Target, e: Event, time: int64)
    requires !e.OtherEvent? && CleanEvent(e) && CleanDatabase(target, e)
    ensures DecodeObject(EventText(target, e, time)) == Some((Fields(target, e, time), []))
  {
    hide EventText, Fields, DecodeObject, CleanEvent, CleanDatabase;
    EventRoundTrip(target, e, time);
  }

  lemma MemberTold(target: Target, e: Event, time: int64, i: nat, name: string, v: Value)
    requires !e.OtherEvent? && CleanEvent(e) && CleanDatabase(target, e)
    requires var fs := Fields(target, e, time);
             i < |fs| && fs[i] == (Ascii(name), v) && forall j :: 0 <= j < i ==> fs[j].0 != Ascii(name)
    ensures Tells(EventText(target, e, time), name, v)
  {
    hide EventText, Fields, DecodeObject, CleanEvent, CleanDatabase;
    Decoded(target, e, time);
    FindAt(Fields(target, e, time), i, Ascii(name));
  }

  lemma MemberOmitted(target: Target, e: Event, time: int64, name: string)
    requires !e.OtherEvent? && CleanEvent(e) && CleanDatabase(target, e)
    requires var fs := Fields(target, e, time); forall j :: 0 <= j < |fs| ==> fs[j].0 != Ascii(name)
    ensures Omits(EventText(target, e, time), name)
  {
    hide EventText, Fields, DecodeObject, CleanEvent, CleanDatabase;
    Decoded(target, e, time);
    FindNone(Fields(target, e, time), Ascii(name));
  }

  /** The member names differ from each other. */
  lemma NamesDiffer()
    ensures Ascii("type") != Ascii("user") && Ascii("type") != Ascii("query") && Ascii("user") != Ascii("query")
    ensures Ascii("time") !in {Ascii("type"), Ascii("user"), Ascii("query")}
    ensures Ascii("rows") !in {Ascii("type"), Ascii("user"), Ascii("query"), Ascii("time")}
    ensures Ascii("query_id") !in {Ascii("type"), Ascii("user"), Ascii("query"), Ascii("time"), Ascii("rows")}
    ensures Ascii("database") !in {Ascii("type"), Ascii("user"), Ascii("query"), Ascii("time"), Ascii("rows"), Ascii("query_id")}
    ensures Ascii("error_code") !in {Ascii("type"), Ascii("query_id"), Ascii("time")}
    ensures Ascii("error_message") !in {Ascii("type"), Ascii("query_id"), Ascii("time"), Ascii("error_code")}
  {
    var ty, u, q, ti, r := Ascii("type"), Ascii("user"), Ascii("query"), Ascii("time"), Ascii("rows");
    assert ty[0] == 't' as int && ty[1] == 'y' as int && u[0] == 'u' as int && q[0] == 'q' as int && ti[0] == 't' as int
        && ti[1] == 'i' as int && r[0] == 'r' as int;
    assert |Ascii("query_id")| == 8 && Ascii("query_id")[0] == 'q' as int;
    assert |Ascii("database")| == 8 && Ascii("database")[0] == 'd' as int;
    assert |Ascii("error_code")| == 10 && |Ascii("error_message")| == 13;
  }

  /** The build announces server query numbers: MariaDB with audit interface 3.2 or later. */
  predicate RecentMariaDb(target: Target) {
    match target
    case MySql => false
    case MariaDb(version) => version >= 770
  }

  /** What is announced of a query. */
  lemma QueryAnnounced(target: Target, e: Event, time: int64)
    requires e.LogEvent? && CleanEvent(e) && CleanDatabase(target, e)
    ensures var text := EventText(target, e, time);
            && Tells(text, "type", StringValue(Ascii("query_start")))
            && TellsString(text, "user", e.user)
            && TellsString(text, "query", if e.query.Some? then e.query else e.command)
            && Tells(text, "time", IntegerValue(time))
            && TellsCount(text, "rows", e.rows)
            && (if RecentMariaDb(target)
                then TellsCount(text, "query_id", e.queryId) && TellsString(text, "database", e.database)
                else Tells(text, "query_id", IntegerValue(e.counter)) && Omits(text, "database"))
  {
    hide EventText, CleanEvent, CleanDatabase, Tells, Omits, PointerValue;
    NamesDiffer();
    var text := EventText(target, e, time);
    var queryStr := if e.query.Some? then e.query else e.command;
    LogMembers(target, e, time);
    PointerTold(text, "user", e.user);
    PointerTold(text, "query", queryStr);
    if RecentMariaDb(target) {
      PointerTold(text, "database", e.database);
    }
  }

  lemma LogMembers(target: Target, e: Event, time: int64)
    requires e.LogEvent? && CleanEvent(e) && CleanDatabase(target, e)
    ensures var text := EventText(target, e, time);
            && Tells(text, "type", StringValue(Ascii("query_start")))
            && Tells(text, "user", PointerValue(e.user))
            && Tells(text, "query", PointerValue(if e.query.Some? then e.query else e.command))
            && Tells(text, "time", IntegerValue(time))
            && Tells(text, "rows", IntegerValue(AsLongLong(e.rows)))
            && (if RecentMariaDb(target)
                then Tells(text, "query_id", IntegerValue(AsLongLong(e.queryId))) && Tells(text, "database", PointerValue(e.database))
                else Tells(text, "query_id", IntegerValue(e.counter)) && Omits(text, "database"))
  {
    hide EventText, CleanEvent, CleanDatabase, Tells, Omits, PointerValue, AsLongLong;
    NamesDiffer();
    var queryStr := if e.query.Some? then e.query else e.command;
    MemberTold(target, e, time, 0, "type", StringValue(Ascii("query_start")));
    MemberTold(target, e, time, 1, "user", PointerValue(e.user));
    MemberTold(target, e, time, 2, "query", PointerValue(queryStr));
    MemberTold(target, e, time, 3, "time", IntegerValue(time));
    MemberTold(target, e, time, 4, "rows", IntegerValue(AsLongLong(e.rows)));
    if RecentMariaDb(target) {
      MemberTold(target, e, time, 5, "query_id", IntegerValue(AsLongLong(e.queryId)));
      MemberTold(target, e, time, 6, "database", PointerValue(e.database));
    } else {
      MemberTold(target, e, time, 5, "query_id", IntegerValue(e.counter));
      MemberOmitted(target, e, time, "database");
    }
  }

  /** What is announced of an error. */
  lemma ErrorAnnounced(target: Target, e: Event, time: int64)
    requires e.ErrorEvent? && CleanEvent(e)
    ensures var text := EventText(target, e, time);
            && Tells(text, "type", StringValue(Ascii("query_error")))
            && Tells(text, "time", IntegerValue(time))
            && Tells(text, "error_code", IntegerValue(e.errorCode))
            && TellsString(text, "error_message", e.message)
            && (if RecentMariaDb(target) then TellsCount(text, "query_id", e.queryId) else Omits(text, "query_id"))
  {
    hide EventText, CleanEvent, Tells, Omits, PointerValue;
    NamesDiffer();
    var k := if RecentMariaDb(target) then 1 else 0;
    MemberTold(target, e, time, 0, "type", StringValue(Ascii("query_error")));
    MemberTold(target, e, time, k + 1, "time", IntegerValue(time));
    MemberTold(target, e, time, k + 2, "error_code", IntegerValue(e.errorCode));
    MemberTold(target, e, time, k + 3, "error_message", PointerValue(e.message));
    PointerTold(EventText(target, e, time), "error_message", e.message);
    if RecentMariaDb(target) {
      MemberTold(target, e, time, 1, "query_id", IntegerValue(AsLongLong(e.queryId)));
    } else {
      MemberOmitted(target, e, time, "query_id");
    }
  }

  /** What is announced of a result. */
  lemma ResultAnnounced(target: Target, e: Event, time: int64)
    requires e.ResultEvent?
    ensures var text := EventText(target, e, time);
            && Tells(text, "type", StringValue(Ascii("query_result")))
            && Tells(text, "time", IntegerValue(time))
            && TellsCount(text, "rows", e.rows)
            && (if RecentMariaDb(target) then TellsCount(text, "query_id", e.queryId) else Omits(text, "query_id"))
  {
    hide EventText, Tells, Omits;
    NamesDiffer();
    var k := if RecentMariaDb(target) then 1 else 0;
    MemberTold(target, e, time, 0, "type", StringValue(Ascii("query_result")));
    MemberTold(target, e, time, k + 1, "time", IntegerValue(time));
    MemberTold(target, e, time, k + 2, "rows", IntegerValue(AsLongLong(e.rows)));
    if RecentMariaDb(target) {
      MemberTold(target, e, time, 1, "query_id", IntegerValue(AsLongLong(e.queryId)));
    } else {
      MemberOmitted(target, e, time, "query_id");
    }
  }
}
