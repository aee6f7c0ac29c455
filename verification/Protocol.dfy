// The event queue and the broadcast of src/logger.c as a transition system: one
// step per critical section, per unlocked peek and per send to a client slot.

module Protocol {
  import opened Bytes
  import Ws

  const MAX_WS_CLIENTS := 32
  const MAX_MESSAGE_QUEUE_SIZE := 10240

  /** The text of an event, of a length at which its frame's size fits an int. */
  type Text = t: seq<byte> | |t| < Ws.MAX_PAYLOAD

  /** What `ws_send_text(socket, text, WS_FLAG_FINAL, 0)` puts on the wire. */
  function MessageOf(m: Text): Ws.Message {
    Ws.Message(Ws.WS_FLAG_FINAL, Ws.WS_OP_TEXT, CString(m))
  }

  lemma {:induction false} CStringShorter(s: seq<byte>)
    ensures |CString(s)| <= |s|
  {
    if s != [] && s[0] != 0 {
      CStringShorter(s[1..]);
    }
  }

  function TextFrame(m: Text): seq<byte> {
    CStringShorter(m);
    Ws.Frame(Ws.FrameOf(MessageOf(m)))
  }

  /** A thread in `send_event`: before the capacity check, or past it with an event to enqueue. */
  datatype Producer = Outside | Between(message: Text)

  /** The messaging thread: asleep, past the test for an empty queue, or about to try slot `next`. */
  datatype Consumer = Idle | Peeked | Sending(message: Text, next: nat)

  /**
   * One connected period of a client: the request it was accepted on and the answer to it, the rank
   * of the first message the broadcast had still to bring to its slot when it connected, the
   * messages sent to it completely, all octets on its wire, and whether a failed send ended it.
   */
  datatype Session = Session(request: seq<byte>, answer: seq<byte>, start: nat, sent: seq<Text>, wire: seq<byte>,
                             open: bool, failed: bool)

  datatype System = System(
    queue: seq<Text>,
    count: int,
    producers: seq<Producer>,
    consumer: Consumer,
    slots: seq<Option<nat>>,
    sessions: seq<Session>,
    enqueued: seq<Text>,
    popped: seq<Text>,
    crashed: bool)

  datatype SendResult = Complete | Cut(octets: nat)

  datatype Action =
    | CheckCapacity(p: nat, event: Text)
    | Enqueue(p: nat)
    | Abandon(p: nat)
    | Peek
    | Pop
    | SendToSlot(result: SendResult)
    | FinishRound
    | Connect(request: seq<byte>, answer: seq<byte>)
    | Close(slot: nat)

  function Initial(producers: nat): System {
    System([], 0, seq(producers, i => Outside), Idle, seq(MAX_WS_CLIENTS, i => None), [], [], [], false)
  }

  /** The first slot that is not connected. */
  function FirstFree(slots: seq<Option<nat>>): (r: Option<nat>)
    ensures r.Some? ==> r.value < |slots| && slots[r.value].None? && forall j :: 0 <= j < r.value ==> slots[j].Some?
    ensures r.None? ==> forall j :: 0 <= j < |slots| ==> slots[j].Some?
  {
    if slots == [] then None
    else if slots[0].None? then Some(0)
    else
      match FirstFree(slots[1..])
      case None => None
      case Some(i) => Some(i + 1)
  }

  lemma {:induction false} FirstFreeIs(slots: seq<Option<nat>>, i: nat)
    requires i <= |slots| && forall j :: 0 <= j < i ==> slots[j].Some?
    requires i < |slots| ==> slots[i].None?
    ensures FirstFree(slots) == if i < |slots| then Some(i) else None
  {
    if i > 0 {
      FirstFreeIs(slots[1..], i - 1);
    }
  }

  /** How many popped messages the broadcast has brought to slot `i`, connected or not. */
  function Offered(s: System, i: nat): int {
    match s.consumer
    case Sending(_, next) => if i < next then |s.popped| else |s.popped| - 1
    case _ => |s.popped|
  }

  /** Which thread may do what next; nothing here looks at the queue. */
  predicate Ready(s: System, a: Action) {
    match a
    case CheckCapacity(p, _) => p < |s.producers| && s.producers[p].Outside?
    case Enqueue(p) => p < |s.producers| && s.producers[p].Between?
    case Abandon(p) => p < |s.producers| && s.producers[p].Between?
    case Peek => s.consumer.Idle?
    case Pop => s.consumer.Peeked?
    case SendToSlot(result) =>
      && s.consumer.Sending? && s.consumer.next < |s.slots|
      && (result.Cut? ==> result.octets < |TextFrame(s.consumer.message)|)
    case FinishRound => s.consumer.Sending? && s.consumer.next >= |s.slots|
    case Connect(_, _) => true
    case Close(i) => i < |s.slots| && s.slots[i].Some? && s.slots[i].value < |s.sessions|
  }

  predicate Enabled(s: System, a: Action) {
    !s.crashed && Ready(s, a)
  }

  function CloseSlot(s: System, i: nat, failed: bool): System
    requires i < |s.slots| && s.slots[i].Some? && s.slots[i].value < |s.sessions|
  {
    var id := s.slots[i].value;
    s.(slots := s.slots[i := None],
       sessions := s.sessions[id := s.sessions[id].(open := false, failed := failed)])
  }

  /** The octets of a send reach the wire of the session in slot `i`; a failed send frees the slot. */
  function Transmit(s: System, i: nat, m: Text, result: SendResult): System
    requires i < |s.slots| && s.slots[i].Some? && s.slots[i].value < |s.sessions|
    requires result.Cut? ==> result.octets < |TextFrame(m)|
  {
    var id := s.slots[i].value;
    var session := s.sessions[id];
    match result
    case Complete =>
      s.(sessions := s.sessions[id := session.(sent := session.sent + [m], wire := session.wire + TextFrame(m))])
    case Cut(k) =>
      CloseSlot(s.(sessions := s.sessions[id := session.(wire := session.wire + TextFrame(m)[..k])]), i, true)
  }

  function Next(s: System, a: Action): System
    requires Enabled(s, a)
  {
    match a
    case CheckCapacity(p, event) =>
      if s.count >= MAX_MESSAGE_QUEUE_SIZE then s else s.(producers := s.producers[p := Between(event)])
    case Enqueue(p) =>
      var m := s.producers[p].message;
      s.(producers := s.producers[p := Outside], queue := s.queue + [m], count := s.count + 1, enqueued := s.enqueued + [m])
    case Abandon(p) => s.(producers := s.producers[p := Outside])
    case Peek => if s.queue == [] then s else s.(consumer := Peeked)
    case Pop =>
      if s.queue == [] then s.(crashed := true)
      else s.(queue := s.queue[1..], count := s.count - 1, consumer := Sending(s.queue[0], 0), popped := s.popped + [s.queue[0]])
    case SendToSlot(result) =>
      var Sending(m, i) := s.consumer;
      var t := s.(consumer := Sending(m, i + 1));
      if s.slots[i].Some? && s.slots[i].value < |s.sessions| then Transmit(t, i, m, result) else t
    case FinishRound => s.(consumer := Idle)
    case Connect(request, answer) =>
      (match FirstFree(s.slots)
       case None => s
       case Some(i) =>
         var start := Offered(s, i);
         s.(slots := s.slots[i := Some(|s.sessions|)],
            sessions := s.sessions + [Session(request, answer, if start < 0 then 0 else start, [], answer, true, false)]))
    case Close(i) => CloseSlot(s, i, false)
  }

  // ----- runs -----

  /** The state after a run, if every action was possible when it was taken. */
  function Run(producers: nat, actions: seq<Action>): Option<System> {
    if actions == [] then Some(Initial(producers))
    else
      match Run(producers, actions[..|actions| - 1])
      case None => None
      case Some(s) =>
        var a := actions[|actions| - 1];
        if Enabled(s, a) then Some(Next(s, a)) else None
  }

  // ----- what every step keeps -----

  function NumBetween(ps: seq<Producer>): (n: nat)
    ensures n <= |ps|
  {
    if ps == [] then 0 else (if ps[0].Between? then 1 else 0) + NumBetween(ps[1..])
  }

  lemma {:induction false} NumBetweenUpdate(ps: seq<Producer>, p: nat, x: Producer)
    requires p < |ps|
    ensures NumBetween(ps[p := x]) == NumBetween(ps) - (if ps[p].Between? then 1 else 0) + (if x.Between? then 1 else 0)
  {
    if p > 0 {
      NumBetweenUpdate(ps[1..], p - 1, x);
      assert ps[p := x][1..] == ps[1..][p - 1 := x];
    }
  }

  lemma {:induction false} NoneBetween(n: nat)
    ensures NumBetween(seq(n, i => Outside)) == 0
  {
    if n > 0 {
      NoneBetween(n - 1);
      assert seq(n, i => Outside)[1..] == seq(n - 1, i => Outside);
    }
  }

  /** The counter is the length of the queue, nothing is lost or reordered, and a peeked queue stays non-empty. */
  ghost predicate QueueInv(s: System) {
    && !s.crashed
    && s.count == |s.queue|
    && s.popped + s.queue == s.enqueued
    && (s.consumer.Peeked? ==> s.queue != [])
    && (s.consumer.Sending? ==> s.popped != [] && s.popped[|s.popped| - 1] == s.consumer.message)
  }

  /** The check and the push are two steps, but each producer can overshoot by one only. */
  ghost predicate CapacityInv(s: System) {
    s.count + NumBetween(s.producers) <= MAX_MESSAGE_QUEUE_SIZE - 1 + |s.producers|
  }

  /** Slots hold different open sessions, and every open session has a slot. */
  ghost predicate SlotInv(s: System) {
    && |s.slots| == MAX_WS_CLIENTS
    && (forall i :: 0 <= i < |s.slots| && s.slots[i].Some? ==>
          s.slots[i].value < |s.sessions| && s.sessions[s.slots[i].value].open)
    && (forall i, j :: 0 <= i < j < |s.slots| && s.slots[i].Some? && s.slots[j].Some? ==>
          s.slots[i].value != s.slots[j].value)
    && (forall id: nat :: id < |s.sessions| && s.sessions[id].open ==> Some(id) in s.slots)
  }

  function WireOf(ms: seq<Text>): seq<byte> {
    if ms == [] then [] else WireOf(ms[..|ms| - 1]) + TextFrame(ms[|ms| - 1])
  }

  lemma WireAppend(ms: seq<Text>, m: Text)
    ensures WireOf(ms + [m]) == WireOf(ms) + TextFrame(m)
  {
    assert (ms + [m])[..|ms|] == ms;
  }

  /** The part of the popped sequence that starts at `start` and has length `n` is `ms`. */
  predicate Window(popped: seq<Text>, start: nat, ms: seq<Text>) {
    start + |ms| <= |popped| && popped[start..start + |ms|] == ms
  }

  /** What was sent to a session is a window of the popped sequence, and its wire carries the frames of just that. */
  ghost predicate SessionInv(popped: seq<Text>, x: Session) {
    && Window(popped, x.start, x.sent)
    && (x.open ==> !x.failed)
    && (!x.failed ==> x.wire == x.answer + WireOf(x.sent))
    && (x.failed ==> x.start + |x.sent| < |popped| && CutWire(x, popped[x.start + |x.sent|]))
  }

  predicate CutShort(octets: seq<byte>, frame: seq<byte>) {
    |octets| < |frame| && octets <= frame
  }

  /** After a failed send the wire ends with a proper prefix of the next frame. */
  ghost predicate CutWire(x: Session, m: Text) {
    exists cut :: CutShort(cut, TextFrame(m)) && x.wire == x.answer + WireOf(x.sent) + cut
  }

  ghost predicate WindowInv(s: System) {
    && (forall id :: 0 <= id < |s.sessions| ==> SessionInv(s.popped, s.sessions[id]))
    && (forall i :: 0 <= i < |s.slots| && s.slots[i].Some? && s.slots[i].value < |s.sessions| ==>
          var x := s.sessions[s.slots[i].value];
          x.start + |x.sent| == Offered(s, i))
  }

  ghost predicate Inv(s: System) {
    QueueInv(s) && CapacityInv(s) && SlotInv(s) && WindowInv(s)
  }

  lemma InitialInv(producers: nat)
    ensures Inv(Initial(producers))
  {
    NoneBetween(producers);
  }

  lemma QueueStep(s: System, a: Action)
    requires QueueInv(s) && Enabled(s, a)
    ensures QueueInv(Next(s, a))
  {
    hide TextFrame, Offered, FirstFree;
  }

  lemma CapacityStep(s: System, a: Action)
    requires CapacityInv(s) && Enabled(s, a)
    ensures CapacityInv(Next(s, a))
    ensures |Next(s, a).producers| == |s.producers|
  {
    hide TextFrame, Offered, FirstFree;
    match a
    case CheckCapacity(p, event) => NumBetweenUpdate(s.producers, p, Between(event));
    case Enqueue(p) => NumBetweenUpdate(s.producers, p, Outside);
    case Abandon(p) => NumBetweenUpdate(s.producers, p, Outside);
    case _ =>
  }

  lemma CloseKeepsSlots(s: System, i: nat, failed: bool)
    requires SlotInv(s) && i < |s.slots| && s.slots[i].Some?
    ensures SlotInv(CloseSlot(s, i, failed))
  {
    var id := s.slots[i].value;
    var t := CloseSlot(s, i, failed);
    forall k: nat | k < |t.sessions| && t.sessions[k].open
      ensures Some(k) in t.slots
    {
      assert k != id && s.sessions[k].open && Some(k) in s.slots;
      var j :| 0 <= j < |s.slots| && s.slots[j] == Some(k);
      assert t.slots[j] == Some(k);
    }
  }

  lemma ConnectKeepsSlots(s: System, request: seq<byte>, answer: seq<byte>)
    requires SlotInv(s) && Enabled(s, Connect(request, answer))
    ensures SlotInv(Next(s, Connect(request, answer)))
  {
    hide Offered;
    var t := Next(s, Connect(request, answer));
    var free := FirstFree(s.slots);
    if free.Some? {
      var n := |s.sessions|;
      forall k: nat | k < |t.sessions| && t.sessions[k].open
        ensures Some(k) in t.slots
      {
        if k == n {
          assert t.slots[free.value] == Some(n);
        } else {
          assert s.sessions[k].open && Some(k) in s.slots;
          var j :| 0 <= j < |s.slots| && s.slots[j] == Some(k);
          assert t.slots[j] == Some(k);
        }
      }
    }
  }

  lemma SlotStep(s: System, a: Action)
    requires SlotInv(s) && Enabled(s, a)
    ensures SlotInv(Next(s, a))
  {
    hide TextFrame, Offered, FirstFree;
    match a
    case SendToSlot(Cut(k)) =>
      var Sending(m, i) := s.consumer;
      if s.slots[i].Some? {
        var x := s.sessions[s.slots[i].value];
        var t := s.(consumer := Sending(m, i + 1),
                    sessions := s.sessions[s.slots[i].value := x.(wire := x.wire + TextFrame(m)[..k])]);
        assert SlotInv(t);
        CloseKeepsSlots(t, i, true);
      }
    case Connect(request, answer) => ConnectKeepsSlots(s, request, answer);
    case Close(i) => CloseKeepsSlots(s, i, false);
    case _ =>
  }

  lemma WindowGrows(popped: seq<Text>, m: Text, x: Session)
    requires SessionInv(popped, x)
    ensures SessionInv(popped + [m], x)
  {
    hide CutWire;
    assert (popped + [m])[x.start..x.start + |x.sent|] == popped[x.start..x.start + |x.sent|];
  }

  lemma PopKeepsWindows(s: System)
    requires QueueInv(s) && WindowInv(s) && s.consumer.Peeked? && s.queue != []
    ensures WindowInv(Next(s, Pop))
  {
    hide SessionInv;
    forall id | 0 <= id < |s.sessions|
      ensures SessionInv(s.popped + [s.queue[0]], s.sessions[id])
    {
      WindowGrows(s.popped, s.queue[0], s.sessions[id]);
    }
  }

  lemma SentWhole(popped: seq<Text>, x: Session)
    requires SessionInv(popped, x) && x.open && popped != [] && x.start + |x.sent| == |popped| - 1
    ensures var m := popped[|popped| - 1];
            SessionInv(popped, x.(sent := x.sent + [m], wire := x.wire + TextFrame(m)))
  {
    hide TextFrame, WireOf, CutWire;
    var m := popped[|popped| - 1];
    WireAppend(x.sent, m);
    assert popped[x.start..x.start + |x.sent| + 1] == popped[x.start..x.start + |x.sent|] + [m];
    assert x.answer + (WireOf(x.sent) + TextFrame(m)) == x.answer + WireOf(x.sent) + TextFrame(m);
  }

  lemma SentCut(popped: seq<Text>, x: Session, k: nat)
    requires SessionInv(popped, x) && x.open && popped != [] && x.start + |x.sent| == |popped| - 1
    requires k < |TextFrame(popped[|popped| - 1])|
    ensures var m := popped[|popped| - 1];
            SessionInv(popped, x.(wire := x.wire + TextFrame(m)[..k], open := false, failed := true))
  {
    hide TextFrame;
    assert CutShort(TextFrame(popped[|popped| - 1])[..k], TextFrame(popped[|popped| - 1]));
  }

  lemma SendKeepsWindows(s: System, result: SendResult)
    requires QueueInv(s) && SlotInv(s) && WindowInv(s) && Enabled(s, SendToSlot(result))
    ensures WindowInv(Next(s, SendToSlot(result)))
  {
    hide SessionInv, TextFrame;
    var Sending(m, i) := s.consumer;
    if s.slots[i].Some? {
      var id := s.slots[i].value;
      assert Offered(s, i) == |s.popped| - 1;
      match result
      case Complete => SentWhole(s.popped, s.sessions[id]);
      case Cut(k) => SentCut(s.popped, s.sessions[id], k);
    }
  }

  lemma SessionStarts(popped: seq<Text>, request: seq<byte>, answer: seq<byte>, start: nat)
    requires start <= |popped|
    ensures SessionInv(popped, Session(request, answer, start, [], answer, true, false))
  {
  }

  lemma SessionEnds(popped: seq<Text>, x: Session)
    requires SessionInv(popped, x) && x.open
    ensures SessionInv(popped, x.(open := false, failed := false))
  {
  }

  lemma WindowStep(s: System, a: Action)
    requires Inv(s) && Enabled(s, a)
    ensures WindowInv(Next(s, a))
  {
    hide TextFrame, FirstFree, SessionInv, CapacityInv;
    match a
    case Pop => PopKeepsWindows(s);
    case SendToSlot(result) => SendKeepsWindows(s, result);
    case Connect(request, answer) =>
      var free := FirstFree(s.slots);
      if free.Some? {
        SessionStarts(s.popped, request, answer, Offered(s, free.value));
      }
    case Close(i) => SessionEnds(s.popped, s.sessions[s.slots[i].value]);
    case _ =>
  }

  lemma StepKeepsInv(s: System, a: Action)
    requires Inv(s) && Enabled(s, a)
    ensures Inv(Next(s, a)) && |Next(s, a).producers| == |s.producers|
  {
    hide QueueInv, CapacityInv, SlotInv, WindowInv, Next;
    QueueStep(s, a);
    CapacityStep(s, a);
    SlotStep(s, a);
    WindowStep(s, a);
  }

  /** Every state of every run, whatever the interleaving, keeps the invariants. */
  lemma {:induction false} RunSafe(producers: nat, actions: seq<Action>)
    requires Run(producers, actions).Some?
    ensures Inv(Run(producers, actions).value) && |Run(producers, actions).value.producers| == producers
  {
    hide Inv, Next, Enabled;
    if actions == [] {
      InitialInv(producers);
    } else {
      var before := actions[..|actions| - 1];
      RunSafe(producers, before);
      StepKeepsInv(Run(producers, before).value, actions[|actions| - 1]);
    }
  }

  lemma RunExtend(producers: nat, actions: seq<Action>, a: Action)
    requires Run(producers, actions).Some? && Enabled(Run(producers, actions).value, a)
    ensures Run(producers, actions + [a]) == Some(Next(Run(producers, actions).value, a))
  {
    hide Next, Enabled;
    assert (actions + [a])[..|actions|] == actions;
  }

  // ----- the queue -----

  /**
   * Nothing is lost, duplicated or reordered between producers and consumer, the counter is
   * exact, the pop after an unlocked peek never meets an empty queue, and the queue
   * holds at most 10239 messages more than there are producers.
   */
  lemma QueueSafety(producers: nat, actions: seq<Action>)
    requires Run(producers, actions).Some?
    ensures var s := Run(producers, actions).value;
            && s.popped + s.queue == s.enqueued
            && s.count == |s.queue| <= 10239 + producers
            && !s.crashed
            && (s.consumer.Peeked? ==> s.queue != [])
  {
    RunSafe(producers, actions);
  }

  /** With `n` messages queued, `first` of the producers outside and the others between their two steps. */
  predicate Loaded(s: System, n: nat, first: nat) {
    && s.count == n && !s.crashed && first <= |s.producers|
    && (forall p :: 0 <= p < first ==> s.producers[p].Outside?)
    && (forall p :: first <= p < |s.producers| ==> s.producers[p].Between?)
  }

  /** One producer can fill the queue up to the limit. */
  lemma {:induction false} Fill(producers: nat, n: nat) returns (actions: seq<Action>)
    requires 0 < producers && n < MAX_MESSAGE_QUEUE_SIZE
    ensures Run(producers, actions).Some?
    ensures var s := Run(producers, actions).value; |s.producers| == producers && Loaded(s, n, producers)
  {
    hide TextFrame, FirstFree, Offered, Run;
    if n == 0 {
      actions := [];
      EmptyRun(producers);
    } else {
      actions := Fill(producers, n - 1);
      RunExtend(producers, actions, CheckCapacity(0, []));
      actions := actions + [CheckCapacity(0, [])];
      RunExtend(producers, actions, Enqueue(0));
      actions := actions + [Enqueue(0)];
    }
  }

  lemma EmptyRun(producers: nat)
    ensures Run(producers, []) == Some(Initial(producers))
  {
  }

  /** At the last free place the producers pass the check one after the other. */
  lemma {:induction false} PassCheck(producers: nat, first: nat) returns (actions: seq<Action>)
    requires first <= producers && 0 < producers
    ensures Run(producers, actions).Some?
    ensures var s := Run(producers, actions).value;
            |s.producers| == producers && Loaded(s, MAX_MESSAGE_QUEUE_SIZE - 1, first)
    decreases producers - first
  {
    hide TextFrame, FirstFree, Offered, Run;
    if first == producers {
      actions := Fill(producers, MAX_MESSAGE_QUEUE_SIZE - 1);
    } else {
      actions := PassCheck(producers, first + 1);
      RunExtend(producers, actions, CheckCapacity(first, []));
      actions := actions + [CheckCapacity(first, [])];
    }
  }

  /** Then all of them enqueue. */
  lemma {:induction false} EnqueueAll(producers: nat, done: nat) returns (actions: seq<Action>)
    requires done <= producers && 0 < producers
    ensures Run(producers, actions).Some?
    ensures var s := Run(producers, actions).value;
            |s.producers| == producers && Loaded(s, MAX_MESSAGE_QUEUE_SIZE - 1 + done, done)
  {
    hide TextFrame, FirstFree, Offered, Run;
    if done == 0 {
      actions := PassCheck(producers, 0);
    } else {
      actions := EnqueueAll(producers, done - 1);
      RunExtend(producers, actions, Enqueue(done - 1));
      actions := actions + [Enqueue(done - 1)];
    }
  }

  /** The bound on the queue is reached: a queue of length `n` is possible exactly up to 10239 + P. */
  lemma OvershootIsTight(producers: nat, n: nat)
    requires 0 < producers
    ensures (exists actions :: Run(producers, actions).Some? && |Run(producers, actions).value.queue| == n)
       <==> n <= 10239 + producers
  {
    hide Run, Inv, Loaded;
    if n <= MAX_MESSAGE_QUEUE_SIZE - 1 + producers {
      var actions := Reach(producers, n);
      RunSafe(producers, actions);
      LoadedQueue(producers, actions, n);
    }
    forall actions | Run(producers, actions).Some?
      ensures |Run(producers, actions).value.queue| <= MAX_MESSAGE_QUEUE_SIZE - 1 + producers
    {
      QueueSafety(producers, actions);
    }
  }

  lemma Reach(producers: nat, n: nat) returns (actions: seq<Action>)
    requires 0 < producers && n <= MAX_MESSAGE_QUEUE_SIZE - 1 + producers
    ensures Run(producers, actions).Some? && Run(producers, actions).value.count == n
  {
    hide Run;
    if n < MAX_MESSAGE_QUEUE_SIZE {
      actions := Fill(producers, n);
    } else {
      actions := EnqueueAll(producers, n + 1 - MAX_MESSAGE_QUEUE_SIZE);
    }
  }

  lemma LoadedQueue(producers: nat, actions: seq<Action>, n: nat)
    requires Run(producers, actions).Some? && Inv(Run(producers, actions).value)
    requires Run(producers, actions).value.count == n
    ensures |Run(producers, actions).value.queue| == n
  {
    hide Run;
  }

  // ----- the clients -----

  /** The sessions that are open. */
  ghost function OpenSessions(s: System): set<nat> {
    set id: nat | id < |s.sessions| && s.sessions[id].open
  }

  /** The sessions in the slots. */
  function Seated(slots: seq<Option<nat>>): set<nat> {
    if slots == [] then {} else Seated(slots[1..]) + (if slots[0].Some? then {slots[0].value} else {})
  }

  lemma {:induction false} SeatedIff(slots: seq<Option<nat>>, id: nat)
    ensures id in Seated(slots) <==> Some(id) in slots
  {
    if slots != [] {
      SeatedIff(slots[1..], id);
      assert slots == [slots[0]] + slots[1..];
    }
  }

  lemma {:induction false} SeatedCount(slots: seq<Option<nat>>)
    requires forall i, j :: 0 <= i < j < |slots| && slots[i].Some? && slots[j].Some? ==> slots[i].value != slots[j].value
    ensures |Seated(slots)| <= |slots|
    ensures |Seated(slots)| == |slots| <==> FirstFree(slots).None?
  {
    if slots != [] {
      SeatedCount(slots[1..]);
      if slots[0].Some? {
        SeatedIff(slots[1..], slots[0].value);
      }
    }
  }

  /** In every run at most 32 sessions are open, and a connect opens another exactly when fewer are. */
  lemma ClientLimit(producers: nat, actions: seq<Action>, request: seq<byte>, answer: seq<byte>)
    requires Run(producers, actions).Some?
    ensures var s := Run(producers, actions).value;
            && |OpenSessions(s)| <= 32
            && Enabled(s, Connect(request, answer))
            && var t := Next(s, Connect(request, answer));
               if |OpenSessions(s)| < 32
               then |t.sessions| == |s.sessions| + 1 && OpenSessions(t) == OpenSessions(s) + {|s.sessions|}
               else t == s
  {
    hide Run, Next, Inv, OpenSessions;
    RunSafe(producers, actions);
    QueueSafety(producers, actions);
    ConnectOpens(Run(producers, actions).value, request, answer);
  }

  lemma ConnectOpens(s: System, request: seq<byte>, answer: seq<byte>)
    requires Inv(s) && !s.crashed
    ensures |OpenSessions(s)| <= 32
    ensures var t := Next(s, Connect(request, answer));
            if |OpenSessions(s)| < 32
            then |t.sessions| == |s.sessions| + 1 && OpenSessions(t) == OpenSessions(s) + {|s.sessions|}
            else t == s
  {
    hide Offered, QueueInv, CapacityInv, WindowInv, FirstFree, Seated;
    SeatedCount(s.slots);
    SeatedAreOpen(s);
    if FirstFree(s.slots).Some? {
      OpenAfter(s, request, answer);
    }
  }

  lemma OpenAfter(s: System, request: seq<byte>, answer: seq<byte>)
    requires !s.crashed && FirstFree(s.slots).Some?
    ensures var t := Next(s, Connect(request, answer));
            |t.sessions| == |s.sessions| + 1 && OpenSessions(t) == OpenSessions(s) + {|s.sessions|}
  {
    hide Offered, FirstFree;
  }

  lemma SeatedAreOpen(s: System)
    requires SlotInv(s)
    ensures Seated(s.slots) == OpenSessions(s)
  {
    forall id: nat
      ensures id in Seated(s.slots) <==> id in OpenSessions(s)
    {
      SeatedIff(s.slots, id);
    }
  }

  // ----- the sessions -----

  function MessagesOf(ms: seq<Text>): (r: seq<Ws.Message>)
    ensures |r| == |ms|
    ensures forall i :: 0 <= i < |ms| ==> r[i] == MessageOf(ms[i])
  {
    seq(|ms|, i requires 0 <= i < |ms| => MessageOf(ms[i]))
  }

  /** The frames a session is sent, in the terms of the framing protocol. */
  function FramesFor(ms: seq<Text>): (fs: seq<Ws.FrameData>)
    ensures |fs| == |ms|
    ensures forall i :: 0 <= i < |ms| ==> fs[i] == Ws.FrameOf(MessageOf(ms[i]))
  {
    Ws.FramesOf(MessagesOf(ms))
  }

  lemma TextReadable(m: Text)
    ensures var f := Ws.FrameOf(MessageOf(m));
            && Ws.WellFormed(f) && (f.form.Len64? ==> |f.payload| < TWO_31)
            && TextFrame(m) == Ws.Frame(f) && |TextFrame(m)| < TWO_31
  {
    CStringShorter(m);
    Ws.SendableFrame(MessageOf(m));
  }

  lemma {:induction false} WireIsFrames(ms: seq<Text>)
    ensures Ws.Readable(FramesFor(ms)) && Ws.Frames(FramesFor(ms)) == WireOf(ms)
  {
    hide Ws.Frame, Ws.FrameOf, MessageOf, Ws.WellFormed, TextFrame;
    forall i | 0 <= i < |ms|
      ensures var f := FramesFor(ms)[i]; Ws.WellFormed(f) && (f.form.Len64? ==> |f.payload| < TWO_31)
    {
      TextReadable(ms[i]);
    }
    if ms != [] {
      var init, m := ms[..|ms| - 1], ms[|ms| - 1];
      WireIsFrames(init);
      TextReadable(m);
      var fs := FramesFor(ms);
      assert fs[..|fs| - 1] == FramesFor(init);
    }
  }

  /**
   * Whatever the interleaving, the octets that a session received after the handshake decode to
   * exactly the frames of a window of the popped sequence, and a failed send leaves at most
   * an incomplete frame after them. The window of an open session reaches up to the last popped
   * message, or to the one before it while that message is still being sent around.
   */
  lemma SessionsSeeWindows(producers: nat, actions: seq<Action>, id: nat)
    requires Run(producers, actions).Some? && id < |Run(producers, actions).value.sessions|
    ensures var s := Run(producers, actions).value;
            var x := s.sessions[id];
            var n := x.start + |x.sent|;
            && n <= |s.popped| && x.sent == s.popped[x.start..n]
            && x.answer <= x.wire
            && (var decoded := Ws.ParseStream(x.wire[|x.answer|..]);
                && Ws.Readable(FramesFor(s.popped[x.start..n]))
                && decoded.0 == Ws.ReceivedAll(FramesFor(s.popped[x.start..n]))
                && (if x.failed
                    then n < |s.popped| && CutShort(decoded.1, TextFrame(s.popped[n]))
                    else decoded.1 == []))
            && (x.open ==> |s.popped| - 1 <= n && (!s.consumer.Sending? ==> n == |s.popped|))
  {
    hide Run, Ws.ParseStream, Ws.Parse, TextFrame, FramesFor, CapacityInv, WireOf;
    RunSafe(producers, actions);
    var s := Run(producers, actions).value;
    var x := s.sessions[id];
    DecodeSession(s.popped, x);
    if x.open {
      assert Some(id) in s.slots;
      var i :| 0 <= i < |s.slots| && s.slots[i] == Some(id);
    }
  }

  /** What a session's wire decodes to. */
  lemma DecodeSession(popped: seq<Text>, x: Session)
    requires SessionInv(popped, x)
    ensures var n := x.start + |x.sent|;
            && x.answer <= x.wire
            && Ws.Readable(FramesFor(x.sent))
            && (var decoded := Ws.ParseStream(x.wire[|x.answer|..]);
                && decoded.0 == Ws.ReceivedAll(FramesFor(x.sent))
                && (if x.failed
                    then n < |popped| && CutShort(decoded.1, TextFrame(popped[n]))
                    else decoded.1 == []))
  {
    hide Ws.ParseStream, Ws.Parse, TextFrame, FramesFor, WireOf, Ws.Readable, Ws.Frames, Ws.ReceivedAll, Ws.Frame,
         Ws.FrameOf, MessageOf;
    var n := x.start + |x.sent|;
    WireIsFrames(x.sent);
    if x.failed {
      var m := popped[n];
      var cut :| CutShort(cut, TextFrame(m)) && x.wire == x.answer + WireOf(x.sent) + cut;
      TextReadable(m);
      assert cut == TextFrame(m)[..|cut|];
      Ws.CutFrame(Ws.FrameOf(MessageOf(m)), |cut|);
      assert x.wire[|x.answer|..] == WireOf(x.sent) + cut;
      Ws.StreamRoundTrip(FramesFor(x.sent), cut);
    } else {
      EmptyStream();
      assert x.wire[|x.answer|..] == WireOf(x.sent) + [];
      Ws.StreamRoundTrip(FramesFor(x.sent), []);
    }
  }

  lemma EmptyStream()
    ensures Ws.Parse([]) == None
  {
  }

  /** Histories only grow, and what a session has been sent is never taken back. */
  lemma HistoriesGrow(s: System, a: Action)
    requires SlotInv(s) && Enabled(s, a)
    ensures var t := Next(s, a);
            && s.popped <= t.popped && s.enqueued <= t.enqueued && |s.sessions| <= |t.sessions|
            && forall id :: 0 <= id < |s.sessions| ==>
                 var x, y := s.sessions[id], t.sessions[id];
                 x.request == y.request && x.answer == y.answer && x.start == y.start && x.sent <= y.sent && x.wire <= y.wire && (y.open ==> x.open)
  {
    hide TextFrame, Offered, FirstFree;
  }

  /** The session began with action `k` of the run, and its window starts with the message then being sent around or the next one. */
  ghost predicate ConnectedAt(producers: nat, actions: seq<Action>, x: Session, k: nat) {
    && k < |actions| && actions[k] == Connect(x.request, x.answer)
    && Run(producers, actions[..k]).Some?
    && x.start <= |Run(producers, actions[..k]).value.popped| <= x.start + 1
  }

  lemma ConnectedEarlier(producers: nat, actions: seq<Action>, a: Action, x: Session, k: nat)
    requires ConnectedAt(producers, actions, x, k)
    ensures ConnectedAt(producers, actions + [a], x, k)
  {
    hide Run;
    assert (actions + [a])[..k] == actions[..k];
  }

  /** What a step does to the sessions: their beginnings stay, and only a connect adds one. */
  lemma SessionBeginnings(s: System, a: Action)
    requires Inv(s) && Enabled(s, a)
    ensures var t := Next(s, a);
            && |s.sessions| <= |t.sessions| <= |s.sessions| + 1
            && (forall id :: 0 <= id < |s.sessions| ==>
                  var x, y := s.sessions[id], t.sessions[id];
                  x.request == y.request && x.answer == y.answer && x.start == y.start)
            && (|t.sessions| > |s.sessions| ==>
                  var x := t.sessions[|s.sessions|];
                  a == Connect(x.request, x.answer) && x.start <= |s.popped| <= x.start + 1)
  {
    hide TextFrame, FirstFree, CapacityInv, WindowInv;
  }

  lemma {:induction false} SessionsConnected(producers: nat, actions: seq<Action>, id: nat) returns (k: nat)
    requires Run(producers, actions).Some? && id < |Run(producers, actions).value.sessions|
    ensures ConnectedAt(producers, actions, Run(producers, actions).value.sessions[id], k)
  {
    hide Next, Enabled, Inv;
    if actions == [] {
      assert false;
    } else {
      var before, a := actions[..|actions| - 1], actions[|actions| - 1];
      RunSafe(producers, before);
      var s := Run(producers, before).value;
      SessionBeginnings(s, a);
      assert actions == before + [a];
      if id < |s.sessions| {
        k := SessionsConnected(producers, before, id);
        ConnectedEarlier(producers, before, a, s.sessions[id], k);
      } else {
        k := |before|;
      }
    }
  }
}
