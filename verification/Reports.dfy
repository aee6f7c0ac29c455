// Where the messages and the answers of a run come from: the texts of reported
// events, and accepted handshakes.

module Reports {
  import opened Bytes
  import opened Handshake
  import opened Accept
  import opened Events
  import opened Protocol
  import Json

  /** An event as it was reported, on some build and at some time. */
  datatype Report = Report(target: Target, event: Event, time: Json.int64)

  function TextOf(r: Report): seq<byte> {
    EventText(r.target, r.event, r.time)
  }

  /** The request was accepted, and the output is the answer to it. */
  ghost predicate AnswersRequest(output: seq<byte>, request: seq<byte>) {
    Decision(request).Accepted? && output == AnswerText(AcceptKey(Decision(request).key))
  }

  ghost predicate FromReport(m: seq<byte>) {
    exists r: Report :: m == TextOf(r)
  }

  /** Producers report events, and clients connect after a handshake. */
  ghost predicate Genuine(a: Action) {
    match a
    case CheckCapacity(_, event) => FromReport(event)
    case Connect(request, answer) => AnswersRequest(answer, request)
    case _ => true
  }

  ghost predicate AllGenuine(actions: seq<Action>) {
    forall a :: a in actions ==> Genuine(a)
  }

  /** A run with reported events and answered clients has led to `s`. */
  ghost predicate History(producers: nat, actions: seq<Action>, s: System) {
    Run(producers, actions) == Some(s) && AllGenuine(actions)
  }

  predicate Reported(ms: seq<Text>, rs: seq<Report>) {
    |ms| == |rs| && forall i :: 0 <= i < |ms| ==> ms[i] == TextOf(rs[i])
  }

  // ----- conservation of the split check-then-enqueue -----

  function TextsOf(x: Producer): multiset<Text> {
    if x.Between? then multiset{x.message} else multiset{}
  }

  /** The texts that producers hold between their two critical sections. */
  function Held(ps: seq<Producer>): multiset<Text> {
    if ps == [] then multiset{} else TextsOf(ps[0]) + Held(ps[1..])
  }

  lemma AddFirst<T>(first: multiset<T>, a: multiset<T>, b: multiset<T>, c: multiset<T>, d: multiset<T>)
    requires a + b == c + d
    ensures (first + a) + b == (first + c) + d
  {
    forall x
      ensures ((first + a) + b)[x] == ((first + c) + d)[x]
    {
      assert (a + b)[x] == (c + d)[x];
    }
  }

  lemma {:induction false} HeldUpdate(ps: seq<Producer>, p: nat, x: Producer)
    requires p < |ps|
    ensures Held(ps[p := x]) + TextsOf(ps[p]) == Held(ps) + TextsOf(x)
  {
    if p > 0 {
      HeldUpdate(ps[1..], p - 1, x);
      assert ps[p := x][1..] == ps[1..][p - 1 := x];
      AddFirst(TextsOf(ps[0]), Held(ps[1..][p - 1 := x]), TextsOf(ps[p]), Held(ps[1..]), TextsOf(x));
    } else {
      assert ps[p := x][1..] == ps[1..];
    }
  }

  lemma {:induction false} HeldNone(n: nat)
    ensures Held(seq(n, i => Outside)) == multiset{}
  {
    if n > 0 {
      HeldNone(n - 1);
      assert seq(n, i => Outside)[1..] == seq(n - 1, i => Outside);
    }
  }

  /** The text that a step lets through the capacity check. */
  function PassedBy(s: System, a: Action): multiset<Text> {
    if a.CheckCapacity? && s.count < MAX_MESSAGE_QUEUE_SIZE then multiset{a.event} else multiset{}
  }

  /** The text that a step drops between the two critical sections. */
  function DroppedBy(s: System, a: Action): multiset<Text> {
    if a.Abandon? && a.p < |s.producers| then TextsOf(s.producers[a.p]) else multiset{}
  }

  /** The texts whose capacity check passed, one for each check. */
  function Passed(producers: nat, actions: seq<Action>): multiset<Text>
    requires Run(producers, actions).Some?
  {
    if actions == [] then multiset{}
    else
      var before := actions[..|actions| - 1];
      Passed(producers, before) + PassedBy(Run(producers, before).value, actions[|actions| - 1])
  }

  function Dropped(producers: nat, actions: seq<Action>): multiset<Text>
    requires Run(producers, actions).Some?
  {
    if actions == [] then multiset{}
    else
      var before := actions[..|actions| - 1];
      Dropped(producers, before) + DroppedBy(Run(producers, before).value, actions[|actions| - 1])
  }

  /** A text that leaves its producer arrives at the end of the queue. */
  lemma MoveOne<T>(held: multiset<T>, left: multiset<T>, queue: seq<T>, m: T)
    requires left + multiset{m} == held + multiset{}
    ensures multiset{} + held + multiset(queue) == left + multiset(queue + [m]) + multiset{}
  {
    forall x
      ensures (held + multiset(queue))[x] == (left + multiset(queue + [m]))[x]
    {
      assert (left + multiset{m})[x] == (held + multiset{})[x];
    }
  }

  lemma TakeOne<T>(held: multiset<T>, more: multiset<T>, queue: multiset<T>, taken: multiset<T>)
    requires more + multiset{} == held + taken
    ensures taken + held + queue == more + queue + multiset{}
  {
    forall x
      ensures (taken + held + queue)[x] == (more + queue)[x]
    {
      assert (more + multiset{})[x] == (held + taken)[x];
    }
  }

  lemma DropOne<T>(held: multiset<T>, left: multiset<T>, queue: multiset<T>, dropped: multiset<T>)
    requires left + dropped == held + multiset{}
    ensures multiset{} + held + queue == left + queue + dropped
  {
    forall x
      ensures (held + queue)[x] == (left + queue + dropped)[x]
    {
      assert (left + dropped)[x] == (held + multiset{})[x];
    }
  }

  lemma StepConserves(s: System, a: Action)
    requires Enabled(s, a)
    ensures var t := Next(s, a);
            PassedBy(s, a) + Held(s.producers) + multiset(s.enqueued)
            == Held(t.producers) + multiset(t.enqueued) + DroppedBy(s, a)
  {
    hide TextFrame, FirstFree, Offered, Held, Transmit, CloseSlot;
    match a
    case CheckCapacity(p, event) =>
      HeldUpdate(s.producers, p, Between(event));
      if s.count < MAX_MESSAGE_QUEUE_SIZE {
        TakeOne(Held(s.producers), Held(s.producers[p := Between(event)]), multiset(s.enqueued), multiset{event});
      }
    case Enqueue(p) =>
      HeldUpdate(s.producers, p, Outside);
      var m := s.producers[p].message;
      MoveOne(Held(s.producers), Held(s.producers[p := Outside]), s.enqueued, m);
    case Abandon(p) =>
      HeldUpdate(s.producers, p, Outside);
      DropOne(Held(s.producers), Held(s.producers[p := Outside]), multiset(s.enqueued), TextsOf(s.producers[p]));
    case _ => OtherSteps(s, a);
  }

  lemma OtherSteps(s: System, a: Action)
    requires Enabled(s, a) && !a.CheckCapacity? && !a.Enqueue? && !a.Abandon?
    ensures Next(s, a).producers == s.producers && Next(s, a).enqueued == s.enqueued
  {
    hide TextFrame, FirstFree, Offered;
  }

  /**
   * In every run each text that passes the capacity check is enqueued once, or is still on its way,
   * or was given up: nothing is enqueued twice, and nothing without a check of its own.
   */
  lemma {:induction false} Conservation(producers: nat, actions: seq<Action>)
    requires Run(producers, actions).Some?
    ensures var s := Run(producers, actions).value;
            Passed(producers, actions) == multiset(s.enqueued) + Held(s.producers) + Dropped(producers, actions)
  {
    hide Next, Enabled, PassedBy, DroppedBy, Held;
    if actions == [] {
      HeldNone(producers);
    } else {
      var before := actions[..|actions| - 1];
      var s, a := Run(producers, before).value, actions[|actions| - 1];
      Conservation(producers, before);
      StepConserves(s, a);
      var t := Next(s, a);
      AddSteps(Passed(producers, before), PassedBy(s, a), multiset(s.enqueued), Held(s.producers), Dropped(producers, before),
               multiset(t.enqueued), Held(t.producers), DroppedBy(s, a));
    }
  }

  lemma AddSteps<T>(passed: multiset<T>, step: multiset<T>, e: multiset<T>, h: multiset<T>, d: multiset<T>,
                    e1: multiset<T>, h1: multiset<T>, d1: multiset<T>)
    requires passed == e + h + d && step + h + e == h1 + e1 + d1
    ensures passed + step == e1 + h1 + (d + d1)
  {
    forall x
      ensures (passed + step)[x] == (e1 + h1 + (d + d1))[x]
    {
      assert (step + h + e)[x] == (h1 + e1 + d1)[x];
    }
  }

  // ----- reported events -----

  /** Only texts of reported events pass the check. */
  lemma {:induction false} PassedWereReported(producers: nat, actions: seq<Action>)
    requires Run(producers, actions).Some? && AllGenuine(actions)
    ensures forall m :: m in Passed(producers, actions) ==> FromReport(m)
  {
    hide Next, Enabled, FromReport;
    if actions != [] {
      var before, a := actions[..|actions| - 1], actions[|actions| - 1];
      PassedWereReported(producers, before);
      assert Genuine(a);
    }
  }

  lemma {:induction false} ChooseReports(ms: seq<Text>) returns (rs: seq<Report>)
    requires forall i :: 0 <= i < |ms| ==> FromReport(ms[i])
    ensures Reported(ms, rs)
  {
    hide TextOf;
    rs := [];
    if ms != [] {
      var init, m := ms[..|ms| - 1], ms[|ms| - 1];
      rs := ChooseReports(init);
      assert FromReport(m);
      var r: Report :| m == TextOf(r);
      rs := rs + [r];
    }
  }

  /** The enqueued messages are the texts of reported events. */
  lemma EnqueuedWereReported(producers: nat, actions: seq<Action>) returns (reports: seq<Report>)
    requires Run(producers, actions).Some? && AllGenuine(actions)
    ensures Reported(Run(producers, actions).value.enqueued, reports)
  {
    hide Run, AllGenuine, FromReport, Passed, Held, Dropped;
    Conservation(producers, actions);
    PassedWereReported(producers, actions);
    var ms := Run(producers, actions).value.enqueued;
    forall i | 0 <= i < |ms|
      ensures FromReport(ms[i])
    {
      assert ms[i] in multiset(ms);
    }
    reports := ChooseReports(ms);
  }

  /** Every session began with the answer to its own request, which was accepted. */
  lemma SessionsWereAnswered(producers: nat, actions: seq<Action>)
    requires Run(producers, actions).Some? && AllGenuine(actions)
    ensures forall x :: x in Run(producers, actions).value.sessions ==> AnswersRequest(x.answer, x.request)
  {
    hide Run, AnswersRequest;
    forall x | x in Run(producers, actions).value.sessions
      ensures AnswersRequest(x.answer, x.request)
    {
      var id :| 0 <= id < |Run(producers, actions).value.sessions| && Run(producers, actions).value.sessions[id] == x;
      var k := SessionsConnected(producers, actions, id);
      assert Genuine(actions[k]);
    }
  }
}
