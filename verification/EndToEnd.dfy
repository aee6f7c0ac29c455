// The parts together: what a client sees of the events, and what it takes to be
// answered with the handshake of RFC 6455.

module EndToEnd {
  import opened Bytes
  import opened StringExt
  import opened Http
  import Headers
  import opened Handshake
  import opened Accept
  import opened Events
  import opened Utf8
  import opened Protocol
  import opened Reports
  import opened Logger
  import opened Rfc6455
  import Json
  import Ws

  // ----- from events to the client -----

  /**
   * The frame is a final text frame whose payload tells of the event: it parses to the event's
   * fields exactly if it is clean, and is UTF-8, as a text frame must be, exactly if its strings are.
   */
  predicate Tells(f: Ws.Received, r: Report) {
    && f.opcode == Ws.WS_OP_TEXT && f.flags / 4096 == 8
    && f.payload == TextOf(r)
    && (!r.event.OtherEvent? ==>
          Json.DecodeObject(f.payload)
          == if CleanEvent(r.event) && CleanDatabase(r.target, r.event)
             then Some((Fields(r.target, r.event, r.time), [])) else None)
    && (ValidUtf8(f.payload) <==> Utf8Event(r.target, r.event))
  }

  lemma FrameTells(m: Text, r: Report)
    requires m == TextOf(r)
    ensures Ws.WellFormed(Ws.FrameOf(MessageOf(m))) && Tells(Ws.ReceivedOf(Ws.FrameOf(MessageOf(m))), r)
  {
    hide EventText, Fields, Json.DecodeObject, CleanEvent, CleanDatabase, Ws.Frame, ValidUtf8, Utf8Event;
    TextReadable(m);
    EventTextWhole(r.target, r.event, r.time);
    Ws.SameFields(MessageOf(m));
    EventUtf8(r.target, r.event, r.time);
    if !r.event.OtherEvent? {
      EventRoundTrip(r.target, r.event, r.time);
    }
  }

  /** The frames tell, in order and without a gap, of the reports from `start` on. */
  predicate TellWindow(frames: seq<Ws.Received>, reports: seq<Report>, start: nat) {
    start + |frames| <= |reports| && forall j :: 0 <= j < |frames| ==> Tells(frames[j], reports[start + j])
  }

  /** The octets are a proper prefix, possibly empty, of the frame for report `k`. */
  predicate CutReport(octets: seq<byte>, reports: seq<Report>, k: nat) {
    k < |reports| && |TextOf(reports[k])| < Ws.MAX_PAYLOAD && CutShort(octets, TextFrame(TextOf(reports[k])))
  }

  /**
   * The octets are `n` frames that tell of the reports from `start` on, and nothing after them, or
   * after a failed send the cut frame of the next report.
   */
  ghost predicate TellsExactly(octets: seq<byte>, reports: seq<Report>, start: nat, n: nat, failed: bool) {
    var decoded := Ws.ParseStream(octets);
    && |decoded.0| == n && TellWindow(decoded.0, reports, start)
    && if failed then CutReport(decoded.1, reports, start + n) else decoded.1 == []
  }

  /** The octets sent to a client: the answer to its request, and then exactly those frames. */
  ghost predicate ServedClient(output: seq<byte>, x: Session, reports: seq<Report>) {
    && Decision(x.request).Accepted?
    && var answer := AnswerText(AcceptKey(Decision(x.request).key));
       answer <= output && TellsExactly(output[|answer|..], reports, x.start, |x.sent|, x.failed)
  }

  /** A connected client has been sent everything up to the last popped message, or to the one before it while that is sent around. */
  predicate UpToDate(s: System, x: Session) {
    x.open ==>
      && !x.failed && |s.popped| - 1 <= x.start + |x.sent| <= |s.popped|
      && (!s.consumer.Sending? ==> x.start + |x.sent| == |s.popped|)
  }

  /** All that is promised of one client: what it was sent, how far, and since when. */
  ghost predicate SeesReports(producers: nat, actions: seq<Action>, s: System, x: Session, output: seq<byte>, reports: seq<Report>) {
    && ServedClient(output, x, reports) && UpToDate(s, x)
    && exists k: nat :: ConnectedAt(producers, actions, x, k)
  }

  lemma SessionTells(s: System, id: nat, reports: seq<Report>)
    requires QueueInv(s) && WindowInv(s) && id < |s.sessions| && Reported(s.enqueued, reports)
    ensures var x := s.sessions[id];
            x.answer <= x.wire && TellsExactly(x.wire[|x.answer|..], reports, x.start, |x.sent|, x.failed)
  {
    hide Ws.ParseStream, Tells, TextOf, TextFrame, FramesFor, MessageOf, Ws.FrameOf, Ws.ReceivedOf, CutShort;
    var x := s.sessions[id];
    DecodeSession(s.popped, x);
    var decoded := Ws.ParseStream(x.wire[|x.answer|..]);
    forall j | 0 <= j < |decoded.0|
      ensures Tells(decoded.0[j], reports[x.start + j])
    {
      var m := x.sent[j];
      assert m == s.popped[x.start..x.start + |x.sent|][j] == s.popped[x.start + j] == s.enqueued[x.start + j];
      assert FramesFor(x.sent)[j] == Ws.FrameOf(MessageOf(m));
      FrameTells(m, reports[x.start + j]);
    }
    var k := x.start + |x.sent|;
    assert x.failed ==> s.popped[k] == s.enqueued[k] == TextOf(reports[k]);
  }

  lemma SessionUpToDate(s: System, x: Session)
    requires SlotInv(s) && WindowInv(s) && x in s.sessions
    ensures UpToDate(s, x)
  {
    hide SessionInv;
    var id :| 0 <= id < |s.sessions| && s.sessions[id] == x;
    assert SessionInv(s.popped, x);
    if x.open {
      assert Some(id) in s.slots;
      var i :| 0 <= i < |s.slots| && s.slots[i] == Some(id);
      OpenNotFailed(s.popped, x);
    }
  }

  lemma OpenNotFailed(popped: seq<Text>, x: Session)
    requires SessionInv(popped, x)
    ensures x.open ==> !x.failed
  {
  }

  /**
   * In every interleaving of producers that report events, messaging thread and clients that
   * connect after a handshake, the enqueued texts are those of reported events, each with a passed
   * capacity check of its own, and every client is sent the answer to its own request and then
   * exactly frames that tell of a gap-free window of the reports, in the order in which they were
   * enqueued. The window starts where the broadcast stood when the client connected, and while
   * the client is connected it ends where the broadcast stands.
   */
  lemma ClientsSeeReports(producers: nat, actions: seq<Action>) returns (reports: seq<Report>)
    requires Run(producers, actions).Some? && AllGenuine(actions)
    ensures var s := Run(producers, actions).value;
            && Reported(s.enqueued, reports)
            && Passed(producers, actions) == multiset(s.enqueued) + Held(s.producers) + Dropped(producers, actions)
            && forall x :: x in s.sessions ==> SeesReports(producers, actions, s, x, x.wire, reports)
  {
    hide Run, AllGenuine, TextOf, CapacityInv, SlotInv, QueueInv, WindowInv, TellsExactly, Reported, UpToDate, ConnectedAt;
    hide AnswerText, AcceptKey, Decision, Passed, Held, Dropped;
    RunSafe(producers, actions);
    Conservation(producers, actions);
    reports := EnqueuedWereReported(producers, actions);
    SessionsWereAnswered(producers, actions);
    var s := Run(producers, actions).value;
    forall x | x in s.sessions
      ensures SeesReports(producers, actions, s, x, x.wire, reports)
    {
      var id :| 0 <= id < |s.sessions| && s.sessions[id] == x;
      SessionTells(s, id, reports);
      SessionUpToDate(s, x);
      var k := SessionsConnected(producers, actions, id);
      assert AnswersRequest(x.answer, x.request);
    }
  }

  /** The same of the octets on the sockets in memory, whatever steps have led there. */
  lemma SocketsSeeReports(logger: LoggerState) returns (reports: seq<Report>)
    requires logger.Valid()
    ensures Reported(logger.system.enqueued, reports)
    ensures |logger.sockets| == |logger.system.sessions|
    ensures forall id :: 0 <= id < |logger.sockets| ==>
              SeesReports(|logger.producers|, logger.trace, logger.system, logger.system.sessions[id],
                          logger.sockets[id].output, reports)
  {
    hide Run, AllGenuine, Reported, TextOf, SeesReports;
    reports := ClientsSeeReports(|logger.producers|, logger.trace);
    forall id | 0 <= id < |logger.sockets|
      ensures SeesReports(|logger.producers|, logger.trace, logger.system, logger.system.sessions[id],
                          logger.sockets[id].output, reports)
    {
      assert logger.system.sessions[id] in logger.system.sessions;
      assert logger.sockets[id].output == logger.system.sessions[id].wire;
    }
  }

  /**
   * The whole stream of a served client: a reader of header fields finds the fields of the answer
   * with the accept string for the client's key, and where it stops exactly those frames begin.
   */
  lemma ClientStream(output: seq<byte>, x: Session, reports: seq<Report>)
    requires ServedClient(output, x, reports) && |output| < TWO_64 - 256
    ensures var accept := AcceptKey(Decision(x.request).key);
            var scan := Headers.ScanFrom(output, |STATUS|);
            && Headers.BlockRead(output, scan, AnswerFields(accept), output[|AnswerText(accept)|..])
            && TellsExactly(output[scan.next.value..], reports, x.start, |x.sent|, x.failed)
  {
    hide AnswerText, AcceptKey, Decision, TellsExactly, AnswerFields, Headers.ScanFrom, Headers.Delivered;
    var answer := AnswerText(AcceptKey(Decision(x.request).key));
    var body := output[|answer|..];
    assert output == answer + body;
    AnswerRoundTrip(Decision(x.request).key, body);
  }

  // ----- the handshake -----

  /**
   * A request in the grammar of RFC 7230 whose fields do not contradict each other is accepted
   * exactly when its fields pass the source's own tests for version, upgrade and key, whatever
   * their order. How far those tests are the demands of RFC 6455 is `HandshakeAgreesIff`.
   */
  lemma HandshakeDecision(name: seq<byte>, gap1: seq<byte>, target: seq<byte>, gap2: seq<byte>,
                          major: seq<byte>, minor: seq<byte>, fields: seq<Headers.Field>, body: seq<byte>, key: seq<byte>)
    requires Token(name) && Token(target) && Spaces(gap1) && Spaces(gap2) && Number(major) && Number(minor)
    requires forall i :: 0 <= i < |fields| ==> Headers.WellFormed(fields[i])
    requires |RequestText(name, gap1, target, gap2, major, minor, Headers.BlockText(fields, body))| < TWO_64
    requires KnownMethod(name) && Consistent(FieldViews(fields)) && key != []
    ensures Decision(RequestText(name, gap1, target, gap2, major, minor, Headers.BlockText(fields, body))) == Accepted(key)
       <==> var views := FieldViews(fields);
            && name == Ascii("GET") && DecimalValue(major) % 256 < 2
            && (exists f :: f in views && Classify(f.name) == Version && VersionOf(f) == WS_PROTOCOL_VERSION)
            && (exists f :: f in views && Classify(f.name) == Connection && AsksUpgrade(f.value))
            && (exists f :: f in views && Classify(f.name) == Upgrade && ToWebsocket(f.value))
            && (exists f :: f in views && Classify(f.name) == Key && f.value == key)
  {
    hide Decision, RequestText, Headers.BlockText, Headers.WellFormed, KnownMethod, DecimalValue, FieldViews, Fold, Decide,
         Consistent, Classify, AsksUpgrade, ToWebsocket, VersionOf, Token, Spaces;
    ConnectRoundTrip(name, gap1, target, gap2, major, minor, fields, body);
    AcceptedIff(name, PackVersion(DecimalValue(major), DecimalValue(minor)), FieldViews(fields), key);
    VersionBound(DecimalValue(major), DecimalValue(minor));
  }

  /**
   * On a request of plain fields the decision agrees with section 4.2.1 of RFC 6455 exactly when,
   * everything that both ask for being there, the major version modulo 256 is below 2 if and only
   * if the version is at least 1.1, there is a Host field, and the key is one of 16 octets.
   */
  lemma HandshakeAgreesIff(name: seq<byte>, gap1: seq<byte>, target: seq<byte>, gap2: seq<byte>,
                           major: seq<byte>, minor: seq<byte>, fields: seq<Headers.Field>, body: seq<byte>, key: seq<byte>)
    requires Token(name) && Token(target) && Spaces(gap1) && Spaces(gap2) && Number(major) && Number(minor)
    requires forall i :: 0 <= i < |fields| ==> Headers.WellFormed(fields[i])
    requires |RequestText(name, gap1, target, gap2, major, minor, Headers.BlockText(fields, body))| < TWO_64
    requires KnownMethod(name) && Consistent(FieldViews(fields)) && AllPlain(FieldViews(fields)) && key != []
    ensures (Decision(RequestText(name, gap1, target, gap2, major, minor, Headers.BlockText(fields, body))) == Accepted(key)
             <==> Demanded(name, DecimalValue(major), DecimalValue(minor), FieldViews(fields), key))
       <==> (Shared(name, FieldViews(fields), key) ==>
               (DecimalValue(major) % 256 < 2
                <==> HttpAtLeast11(DecimalValue(major), DecimalValue(minor)) && HasHost(FieldViews(fields)) && Nonce(key)))
  {
    hide Decision, RequestText, Headers.BlockText, Headers.WellFormed, KnownMethod, DecimalValue, FieldViews, Fold, Decide,
         Consistent, Token, Spaces, PackVersion, Demanded, Shared, HttpAtLeast11, HasHost, Nonce, AllPlain;
    ConnectRoundTrip(name, gap1, target, gap2, major, minor, fields, body);
    AgreementIff(name, DecimalValue(major), DecimalValue(minor), FieldViews(fields), key);
  }

  /** Reordering the header fields of such a request does not change the decision. */
  lemma HandshakeInAnyOrder(name: seq<byte>, gap1: seq<byte>, target: seq<byte>, gap2: seq<byte>,
                            major: seq<byte>, minor: seq<byte>,
                            fields: seq<Headers.Field>, reordered: seq<Headers.Field>, body: seq<byte>)
    requires Token(name) && Token(target) && Spaces(gap1) && Spaces(gap2) && Number(major) && Number(minor)
    requires forall i :: 0 <= i < |fields| ==> Headers.WellFormed(fields[i])
    requires |RequestText(name, gap1, target, gap2, major, minor, Headers.BlockText(fields, body))| < TWO_64
    requires |RequestText(name, gap1, target, gap2, major, minor, Headers.BlockText(reordered, body))| < TWO_64
    requires multiset(reordered) == multiset(fields) && Consistent(FieldViews(fields))
    ensures Decision(RequestText(name, gap1, target, gap2, major, minor, Headers.BlockText(fields, body)))
         == Decision(RequestText(name, gap1, target, gap2, major, minor, Headers.BlockText(reordered, body)))
  {
    hide Decision, RequestText, Headers.BlockText, Headers.WellFormed, KnownMethod, DecimalValue, FieldViews, Fold, Decide,
         Consistent, Token, Spaces, Number, PackVersion;
    forall i | 0 <= i < |reordered|
      ensures Headers.WellFormed(reordered[i])
    {
      assert reordered[i] in multiset(fields);
    }
    ViewsReordered(fields, reordered);
    ConsistentInAnyOrder(FieldViews(fields), FieldViews(reordered));
    ConnectRoundTrip(name, gap1, target, gap2, major, minor, fields, body);
    ConnectRoundTrip(name, gap1, target, gap2, major, minor, reordered, body);
  }

  function ViewOfField(f: Headers.Field): FieldView {
    FieldView(f.name, f.value, true)
  }

  /** One field taken out of a list, and its view out of the list of views. */
  lemma TakeOut(fields: seq<Headers.Field>, i: nat) returns (others: seq<Headers.Field>)
    requires i < |fields|
    ensures |others| == |fields| - 1 && (i == 0 ==> others == fields[1..])
    ensures multiset(fields) == multiset{fields[i]} + multiset(others)
    ensures multiset(FieldViews(fields)) == multiset{ViewOfField(fields[i])} + multiset(FieldViews(others))
  {
    others := fields[..i] + fields[i + 1..];
    assert fields == fields[..i] + [fields[i]] + fields[i + 1..];
    var before, after := FieldViews(fields[..i]), FieldViews(fields[i + 1..]);
    assert FieldViews(others) == before + after;
    assert FieldViews(fields) == before + [ViewOfField(fields[i])] + after;
  }

  lemma {:induction false} ViewsReordered(fields: seq<Headers.Field>, reordered: seq<Headers.Field>)
    requires multiset(reordered) == multiset(fields)
    ensures multiset(FieldViews(reordered)) == multiset(FieldViews(fields))
    decreases |reordered|
  {
    if reordered == [] {
      assert |fields| == |multiset(fields)| == |multiset(reordered)|;
    } else {
      hide FieldViews;
      var f := reordered[0];
      assert f in multiset(fields);
      var i :| 0 <= i < |fields| && fields[i] == f;
      var others := TakeOut(fields, i);
      var rest := TakeOut(reordered, 0);
      SameRest(multiset{f}, multiset(rest), multiset(others));
      ViewsReordered(others, rest);
    }
  }

  lemma SameRest<T>(m: multiset<T>, a: multiset<T>, b: multiset<T>)
    requires m + a == m + b
    ensures a == b
  {
    forall x
      ensures a[x] == b[x]
    {
      assert (m + a)[x] == (m + b)[x];
    }
  }
}
