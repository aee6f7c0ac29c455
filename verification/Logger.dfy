// The shared state of src/logger.c: the message queue, the client slots and
// the threads' positions. Every atomic step of the code is a step of the protocol.

module Logger {
  import opened Bytes
  import opened ByteOrder
  import opened SocketExt
  import opened Protocol
  import opened MessageQueue
  import opened Events
  import opened Json
  import opened Handshake
  import opened Accept
  import opened Reports
  import Ws

  const WS_OP_CLOSE := 8

  /** What `ws_send_close` sends: flags 0, and so no FIN bit either, and no payload. */
  const CLOSE_FRAME: seq<byte> := [0x08, 0x00]

  /** `ws_send_close(sock, 0, 0)` */
  method SendClose(host: Host, sock: Socket)
    modifies sock`output
    ensures exists k: nat :: k <= 2 && sock.output == old(sock.output) + CLOSE_FRAME[..k]
    ensures sock.reliable ==> sock.output == old(sock.output) + CLOSE_FRAME
  {
    CloseFrameOctets();
    var r := Ws.Send(host, sock, WS_OP_CLOSE, [], 0, 0);
    Ws.DeliveredIffFits(old(sock.output), sock.output, CLOSE_FRAME, r);
    assert CLOSE_FRAME[..2] == CLOSE_FRAME;
  }

  lemma CloseFrameOctets()
    ensures Ws.WellFormed(Ws.Outgoing(0, WS_OP_CLOSE, [])) && Ws.Frame(Ws.Outgoing(0, WS_OP_CLOSE, [])) == CLOSE_FRAME
  {
  }

  /** `struct ws_client` */
  class WsClient {
    var connected: bool
    var socket: Socket?

    constructor ()
      ensures !connected && socket == null
    {
      connected, socket := false, null;
    }

    /** `init_ws_client` */
    method Init(sock: Socket)
      modifies this
      ensures connected && socket == sock
    {
      connected, socket := true, sock;
    }

    /** `free_ws_client` */
    method Free()
      modifies this
      ensures !connected && socket == null
    {
      connected, socket := false, null;
    }
  }

  method NewClients() returns (clients: seq<WsClient>)
    ensures |clients| == MAX_WS_CLIENTS && fresh(clients)
    ensures forall i, j :: 0 <= i < j < |clients| ==> clients[i] != clients[j]
    ensures forall i :: 0 <= i < |clients| ==> !clients[i].connected
  {
    clients := [];
    for i := 0 to MAX_WS_CLIENTS
      invariant |clients| == i && fresh(clients)
      invariant forall j, k :: 0 <= j < k < i ==> clients[j] != clients[k]
      invariant forall j :: 0 <= j < i ==> !clients[j].connected
    {
      var client := new WsClient();
      clients := clients + [client];
    }
  }

  /** `ws_send_text(socket, text, WS_FLAG_FINAL, 0)`, and what of the frame reached the wire. */
  method SendOver(host: Host, sock: Socket, m: Text) returns (ok: bool, ghost result: SendResult)
    modifies sock`output
    ensures ok ==> result == Complete && sock.output == old(sock.output) + TextFrame(m)
    ensures !ok ==> && result.Cut? && result.octets < |TextFrame(m)|
                    && sock.output == old(sock.output) + TextFrame(m)[..result.octets]
  {
    hide Ws.Frame, Ws.SentAs, Ws.Allocated, Ws.Outgoing;
    TextReadable(m);
    CStringShorter(m);
    FinalFlag();
    var r := Ws.SendText(host, sock, m, Ws.WS_FLAG_FINAL, 0);
    ok := r > 0;
    result := Complete;
    FrameNotEmpty(m);
    Ws.DeliveredIffFits(old(sock.output), sock.output, TextFrame(m), r);
    if !ok {
      ghost var k: nat :| k < |TextFrame(m)| && sock.output == old(sock.output) + TextFrame(m)[..k];
      result := Cut(k);
    }
  }

  lemma FinalFlag()
    ensures Ws.WS_FLAG_FINAL / 128 % 2 == 0
  {
  }

  lemma FrameNotEmpty(m: Text)
    ensures |TextFrame(m)| > 0
  {
  }

  /** The oldest message and its text; there is a head, because there is a message. */
  method TakeMessage(queue: Queue) returns (text: Text)
    requires queue.Valid() && queue.Contents() != []
    modifies queue, queue.nodes
    ensures queue.Valid() && text == old(queue.Contents())[0] && queue.Contents() == old(queue.Contents())[1..]
    ensures queue.count == old(queue.count) - 1
  {
    var message := queue.Pop();
    text := message.message;
  }

  class LoggerState {
    const queue: Queue
    /** The fixed array of client slots. */
    const clients: seq<WsClient>
    /** Where each thread that reports events stands. */
    ghost var producers: seq<Producer>
    /** Where the messaging thread stands. */
    var consumer: Consumer
    /** The socket of every session so far. */
    ghost var sockets: seq<Socket>
    /** The steps taken so far, and the state of the protocol after them. */
    ghost var trace: seq<Action>
    ghost var system: System

    ghost predicate QueuePart()
      reads this, queue, queue.nodes
    {
      queue.Valid() && queue.Contents() == system.queue && queue.count == system.count
    }

    ghost predicate ThreadPart()
      reads this
    {
      producers == system.producers && consumer == system.consumer
    }

    /** Slot `i` holds the session and its socket that the protocol says it holds. */
    ghost predicate SlotPart(i: nat)
      requires i < |clients|
      reads this, clients[i]
    {
      && i < |system.slots|
      && clients[i].connected == system.slots[i].Some?
      && (clients[i].connected ==>
            system.slots[i].value < |sockets| && clients[i].socket == sockets[system.slots[i].value])
    }

    ghost predicate ClientPart()
      reads this, clients
    {
      && |clients| == |system.slots| == MAX_WS_CLIENTS
      && (forall i, j :: 0 <= i < j < |clients| ==> clients[i] != clients[j])
      && forall i :: 0 <= i < |clients| ==> SlotPart(i)
    }

    /** The octets sent through each socket are those on the wire of its session. */
    ghost predicate SocketPart()
      reads this, sockets
    {
      && |sockets| == |system.sessions|
      && (forall i, j :: 0 <= i < j < |sockets| ==> sockets[i] != sockets[j])
      && (forall i :: 0 <= i < |sockets| ==> sockets[i].output == system.sessions[i].wire)
    }

    /** The memory is in the state the protocol says. */
    ghost predicate Valid()
      reads this, queue, queue.nodes, clients, sockets
    {
      History(|producers|, trace, system) && ThreadPart() && QueuePart() && ClientPart() && SocketPart()
    }

    lemma PeekedQueue(s: System)
      requires Inv(s) && s.consumer.Peeked?
      ensures s.queue != []
    {
    }

    lemma AfterEnqueue(s: System, p: nat)
      requires Enabled(s, Action.Enqueue(p))
      ensures var m := s.producers[p].message;
              Next(s, Action.Enqueue(p)) ==
              s.(producers := s.producers[p := Outside], queue := s.queue + [m], count := s.count + 1,
                 enqueued := s.enqueued + [m])
    {
    }

    lemma AfterPop(s: System)
      requires Enabled(s, Action.Pop) && s.queue != []
      ensures Next(s, Action.Pop) ==
              s.(queue := s.queue[1..], count := s.count - 1, consumer := Sending(s.queue[0], 0),
                 popped := s.popped + [s.queue[0]])
    {
    }

    lemma NotCrashed(s: System)
      requires QueueInv(s)
      ensures !s.crashed
    {
    }

    /** Steps that touch no slot keep the slots in line. */
    twostate lemma SlotsUntouched()
      requires old(ClientPart()) && system.slots == old(system.slots) && sockets == old(sockets)
      requires forall i :: 0 <= i < |clients| ==> unchanged(clients[i])
      ensures ClientPart()
    {
      forall i | 0 <= i < |clients|
        ensures SlotPart(i)
      {
        assert old(SlotPart(i));
      }
    }

    /** Steps of the broadcast and of the clients leave the queue alone. */
    twostate lemma QueueUntouched()
      requires old(QueuePart()) && unchanged(queue) && unchanged(queue.nodes)
      requires system.queue == old(system.queue) && system.count == old(system.count)
      ensures QueuePart()
    {
    }

    /** Nor do they touch a socket of a session. */
    twostate lemma SocketsUntouched()
      requires old(SocketPart()) && system.sessions == old(system.sessions) && sockets == old(sockets)
      requires forall x :: x in sockets ==> x.output == old(x.output)
      ensures SocketPart()
    {
    }

    /** Records a step of the protocol. */
    ghost method Record(a: Action)
      requires History(|producers|, trace, system) && Ready(system, a) && Genuine(a)
      modifies this`trace, this`system
      ensures trace == old(trace) + [a] && Enabled(old(system), a) && system == Next(old(system), a)
      ensures History(|producers|, trace, system) && Inv(old(system))
    {
      hide Run, Ready, Next, Genuine, QueueInv, CapacityInv, SlotInv, WindowInv;
      RunSafe(|producers|, trace);
      assert Enabled(system, a) by {
        assert QueueInv(system);
        NotCrashed(system);
      }
      RunExtend(|producers|, trace, a);
      StepKeepsInv(system, a);
      system := Next(system, a);
      trace := trace + [a];
    }

    constructor (ghost threads: nat)
      ensures Valid() && trace == [] && |producers| == threads
    {
      queue := new Queue();
      producers, consumer := seq(threads, i => Outside), Idle;
      sockets, trace, system := [], [], Initial(threads);
      var slots := NewClients();
      clients := slots;
    }

    /** The first critical section of `send_event`. */
    method CheckCapacity(ghost p: nat, ghost report: Report) returns (ignore: bool)
      requires Valid() && p < |producers| && producers[p].Outside?
      requires |TextOf(report)| < Ws.MAX_PAYLOAD
      modifies this`producers, this`trace, this`system
      ensures Valid() && trace == old(trace) + [Action.CheckCapacity(p, TextOf(report))]
      ensures ignore <==> |old(queue.Contents())| >= MAX_MESSAGE_QUEUE_SIZE
      ensures producers == if ignore then old(producers) else old(producers)[p := Between(TextOf(report))]
    {
      hide Linked, History, Inv, TextFrame, FirstFree, Offered, ClientPart, SlotPart, SocketPart, Transmit, CloseSlot, TextOf;
      ignore := false;
      if queue.count >= MAX_MESSAGE_QUEUE_SIZE {
        ignore := true;
      }
      assert FromReport(TextOf(report));
      Record(Action.CheckCapacity(p, TextOf(report)));
      if !ignore {
        producers := producers[p := Between(TextOf(report))];
      }
      SlotsUntouched();
      SocketsUntouched();
    }

    /** The second critical section of `send_event`. */
    method Enqueue(ghost p: nat, text: Text)
      requires Valid() && p < |producers| && producers[p] == Between(text)
      modifies this`producers, this`trace, this`system, queue, queue.nodes
      ensures Valid() && trace == old(trace) + [Action.Enqueue(p)]
      ensures queue.Contents() == old(queue.Contents()) + [text]
      ensures producers == old(producers)[p := Outside]
    {
      hide Linked, History, Inv, TextFrame, FirstFree, Offered, ClientPart, SlotPart, SocketPart, Next, TextOf;
      Record(Action.Enqueue(p));
      AfterEnqueue(old(system), p);
      queue.Enqueue(text);
      producers := producers[p := Outside];
      SlotsUntouched();
      SocketsUntouched();
    }

    /** The test `message_queue == NULL`, made without the mutex. */
    method Peek() returns (empty: bool)
      requires Valid() && consumer.Idle?
      modifies this`consumer, this`trace, this`system
      ensures Valid() && trace == old(trace) + [Action.Peek]
      ensures system.popped == old(system.popped)
      ensures empty <==> queue.Contents() == []
      ensures consumer == if empty then Idle else Peeked
    {
      hide Linked, History, Inv, TextFrame, FirstFree, Offered, ClientPart, SlotPart, SocketPart, Transmit, CloseSlot, TextOf;
      Record(Action.Peek);
      empty := queue.head == null;
      if !empty {
        consumer := Peeked;
      }
      SlotsUntouched();
      SocketsUntouched();
    }

    /** The critical section of `process_pending_messages`: after a peek, whatever happened since, there is a head. */
    method Pop()
      requires Valid() && consumer.Peeked?
      modifies this`consumer, this`trace, this`system, queue, queue.nodes
      ensures Valid() && trace == old(trace) + [Action.Pop]
      ensures old(queue.Contents()) != [] && queue.Contents() == old(queue.Contents())[1..]
      ensures consumer == Sending(old(queue.Contents())[0], 0)
      ensures system.popped == old(system.popped) + [old(queue.Contents())[0]]
    {
      hide Queue.Valid, Queue.Contents, History, Inv, TextFrame, FirstFree, Offered, ClientPart, SlotPart, SocketPart, Next, TextOf;
      Record(Action.Pop);
      PeekedQueue(old(system));
      AfterPop(old(system));
      var text := TakeMessage(queue);
      consumer := Sending(text, 0);
      SlotsUntouched();
      SocketsUntouched();
    }

    /** One turn of the loop over the client slots in `process_pending_messages`. */
    method SendToSlot(host: Host) returns (ghost result: SendResult)
      requires Valid() && consumer.Sending? && consumer.next < MAX_WS_CLIENTS
      modifies this`consumer, this`trace, this`system, clients, sockets
      ensures Valid() && trace == old(trace) + [Action.SendToSlot(result)]
      ensures consumer == Sending(old(consumer).message, old(consumer).next + 1)
      ensures system.popped == old(system.popped)
    {
      hide History, Inv, TextFrame, FirstFree, Offered, QueuePart;
      var Sending(m, i) := consumer;
      result := Complete;
      assert SlotPart(i);
      ghost var id := if clients[i].connected then system.slots[i].value else 0;
      assert clients[i].connected ==> sockets[id].output == system.sessions[id].wire;
      if clients[i].connected {
        var ok;
        ok, result := SendOver(host, clients[i].socket, m);
        if !ok {
          clients[i].Free();
        }
      }
      Record(Action.SendToSlot(result));
      consumer := Sending(m, i + 1);
      QueueUntouched();
      SlotsWith(i);
      if old(clients[i].connected) {
        SocketsKept(old(system.slots)[i].value);
      }
    }

    /** The end of a round: the message is freed. */
    method FinishRound()
      requires Valid() && consumer.Sending? && consumer.next >= MAX_WS_CLIENTS
      modifies this`consumer, this`trace, this`system
      ensures Valid() && trace == old(trace) + [Action.FinishRound] && consumer == Idle
      ensures system.popped == old(system.popped)
    {
      hide Linked, History, Inv, TextFrame, FirstFree, Offered, SlotPart, SocketPart, Transmit, CloseSlot, TextOf;
      Record(Action.FinishRound);
      consumer := Idle;
      SlotsUntouched();
      SocketsUntouched();
    }

    /** The end of `process_ws_request` after the handshake: a new session in the first free slot, if there is one. */
    method Connect(sock: Socket, ghost request: seq<byte>) returns (ok: bool)
      requires Valid() && sock !in sockets && AnswersRequest(sock.output, request)
      modifies this`trace, this`system, this`sockets, clients
      ensures Valid() && trace == old(trace) + [Action.Connect(request, sock.output)]
      ensures ok <==> exists i :: 0 <= i < |clients| && !old(clients[i].connected)
      ensures sockets == old(sockets) + (if ok then [sock] else [])
    {
      hide History, Inv, TextFrame, Offered, AnswersRequest, QueuePart, CloseSlot, Transmit;
      ok := false;
      var i := 0;
      while i < MAX_WS_CLIENTS
        modifies {}
        invariant 0 <= i <= MAX_WS_CLIENTS
        invariant forall j :: 0 <= j < i ==> clients[j].connected
      {
        if !clients[i].connected {
          ok := true;
          break;
        }
        i := i + 1;
      }
      assert i < MAX_WS_CLIENTS ==> SlotPart(i);
      forall j | 0 <= j < i
        ensures system.slots[j].Some?
      {
        assert SlotPart(j);
      }
      FirstFreeIs(system.slots, i);
      Record(Action.Connect(request, sock.output));
      if ok {
        clients[i].Init(sock);
        sockets := sockets + [sock];
        SlotsWith(i);
      } else {
        SlotsUntouched();
      }
      QueueUntouched();
    }

    /** The slot of a socket, if it is connected: the first loop of `process_ws_request`. */
    method FindClient(sock: Socket) returns (slot: Option<nat>)
      requires Valid()
      ensures slot.Some? ==> slot.value < |clients| && clients[slot.value].connected && clients[slot.value].socket == sock
      ensures slot.None? ==> forall i :: 0 <= i < |clients| ==> !clients[i].connected || clients[i].socket != sock
    {
      for i := 0 to MAX_WS_CLIENTS
        invariant forall j :: 0 <= j < i ==> !clients[j].connected || clients[j].socket != sock
      {
        if clients[i].connected && clients[i].socket == sock {
          return Some(i);
        }
      }
      return None;
    }

    /** `free_ws_client` after a close frame. */
    method Close(i: nat)
      requires Valid() && i < |clients| && clients[i].connected
      modifies this`trace, this`system, clients[i]
      ensures Valid() && trace == old(trace) + [Action.Close(i)] && !clients[i].connected
    {
      hide History, Inv, TextFrame, FirstFree, Offered;
      assert SlotPart(i);
      Record(Action.Close(i));
      clients[i].Free();
      SlotsWith(i);
    }

    /** A connected client has this socket. */
    ghost predicate Known(sock: Socket)
      reads this, clients
    {
      exists i :: 0 <= i < |clients| && clients[i].connected && clients[i].socket == sock
    }

    /** A slot is free. */
    ghost predicate HasRoom()
      reads this, clients
    {
      exists i :: 0 <= i < |clients| && !clients[i].connected
    }

    /**
     * `process_ws_request` on a socket that is ready to be read; `request` is the text received
     * from a client that is not connected yet. A connected client is read a frame from, and
     * freed after a close frame.
     */
    method ProcessWsRequest(host: Host, sock: Socket, request: seq<byte>) returns (r: int)
      requires Valid()
      requires !Known(sock) ==> sock !in sockets && sock.output == []
      requires 0 !in request && |request| + 36 < TWO_32
      modifies this`trace, this`system, this`sockets, clients, sock
      ensures Valid()
      ensures old(Known(sock)) && sock.reliable && Ws.Parse(old(sock.input)).Some? ==>
                && sock.output == old(sock.output)
                && if Ws.Parse(old(sock.input)).value.opcode == WS_OP_CLOSE
                   then r == -1 && exists i :: 0 <= i < |clients| && old(clients[i].socket) == sock
                                               && trace == old(trace) + [Action.Close(i)]
                   else r == 0 && trace == old(trace)
      ensures !old(Known(sock)) ==> NewClientServed(old(trace), old(sockets), old(HasRoom()), sock, request, r)
    {
      hide Run, Ws.Parse, Decision, NewClientServed, Valid;
      var slot := FindClient(sock);
      if slot.Some? {
        r := ProcessFrame(host, sock, slot.value);
      } else {
        r := ProcessHandshake(host, sock, request);
      }
    }

    /**
     * What happens to a client that is not connected yet. A refused one is sent nothing. An accepted
     * one is sent the answer; the answer on the wire, it becomes a session in the first free slot,
     * or is sent a close frame when there is none.
     */
    ghost predicate NewClientServed(before: seq<Action>, known: seq<Socket>, room: bool, sock: Socket,
                                    request: seq<byte>, r: int)
      reads this, sock
    {
      match Decision(request)
      case Refused(_) => r == -1 && sock.output == [] && trace == before && sockets == known
      case Accepted(key) =>
        var answer := AnswerText(AcceptKey(key));
        if answer <= sock.output then
          && trace == before + [Action.Connect(request, answer)]
          && (if room then r == 0 && sock.output == answer && sockets == known + [sock]
              else
                && r == -1 && sockets == known && sock.output[|answer|..] <= CLOSE_FRAME
                && (sock.reliable ==> sock.output == answer + CLOSE_FRAME))
        else
          r == -1 && !sock.reliable && sock.output <= answer && trace == before && sockets == known
    }

    /** The part of `process_ws_request` for a connected client. */
    method ProcessFrame(host: Host, sock: Socket, slot: nat) returns (r: int)
      requires Valid() && slot < |clients| && clients[slot].connected && clients[slot].socket == sock
      modifies this`trace, this`system, clients, sock`input
      ensures Valid()
      ensures sock.reliable && Ws.Parse(old(sock.input)).Some? ==>
                if Ws.Parse(old(sock.input)).value.opcode == WS_OP_CLOSE
                then r == -1 && trace == old(trace) + [Action.Close(slot)]
                else r == 0 && trace == old(trace)
    {
      hide Run, Ws.Parse;
      var opcode;
      r, opcode := ReceiveFrom(host, sock);
      if r != 0 {
        return -1;
      }
      if opcode == WS_OP_CLOSE {
        Close(slot);
        return -1;
      }
      return 0;
    }

    /** The part of `process_ws_request` for a new client. */
    method ProcessHandshake(host: Host, sock: Socket, request: seq<byte>) returns (r: int)
      requires Valid() && sock !in sockets && sock.output == []
      requires 0 !in request && |request| + 36 < TWO_32
      modifies this`trace, this`system, this`sockets, clients, sock`output
      ensures Valid()
      ensures NewClientServed(old(trace), old(sockets), old(HasRoom()), sock, request, r)
    {
      hide Run, Decision, AnswerText, AcceptKey;
      var decision, sent := AcceptClient(sock, request);
      SlotsUntouched();
      if !sent {
        return -1;
      }
      ghost var answer := AnswerText(AcceptKey(decision.key));
      assert AnswersRequest(sock.output, request);
      var ok := Connect(sock, request);
      if ok {
        return 0;
      }
      label closing:
      SendClose(host, sock);
      SlotsUntouched@closing();
      return -1;
    }

    /** `ws_recv` on a client's socket, its payload skipped. */
    method ReceiveFrom(host: Host, sock: Socket) returns (r: int, opcode: int)
      requires Valid()
      modifies sock`input
      ensures Valid()
      ensures sock.reliable && Ws.Parse(old(sock.input)).Some? ==>
                r == 0 && opcode == Ws.Parse(old(sock.input)).value.opcode
    {
      hide Run, Ws.Parse;
      var flags, payload, len;
      r, opcode, flags, payload, len := Ws.Recv(host, sock, false);
      SlotsUntouched();
    }

    /** A step that changes one slot keeps the others in line. */
    twostate lemma SlotsWith(i: nat)
      requires old(ClientPart()) && i < |clients| && old(sockets) <= sockets
      requires forall j :: 0 <= j < |clients| && j != i ==> unchanged(clients[j])
      requires |system.slots| == |old(system.slots)|
      requires forall j :: 0 <= j < |clients| && j != i ==> system.slots[j] == old(system.slots)[j]
      requires SlotPart(i)
      ensures ClientPart()
    {
      forall j | 0 <= j < |clients|
        ensures SlotPart(j)
      {
        assert old(SlotPart(j));
      }
    }

    /** A step that sends through one socket keeps the others in line. */
    twostate lemma SocketsKept(id: nat)
      requires old(SocketPart()) && id < |sockets| && sockets == old(sockets)
      requires |system.sessions| == |old(system.sessions)|
      requires forall j :: 0 <= j < |sockets| && j != id ==>
                 unchanged(sockets[j]) && system.sessions[j].wire == old(system.sessions)[j].wire
      requires sockets[id].output == system.sessions[id].wire
      ensures SocketPart()
    {
    }

    // ----- the functions of the source, run without interference -----

    /** `send_event`, for a clock reading `time`: the text is built between its two critical sections. */
    method SendEvent(ghost p: nat, target: Target, event: Event, time: int64)
      requires Valid() && p < |producers| && producers[p].Outside?
      requires |EventText(target, event, time)| < Ws.MAX_PAYLOAD
      modifies this`producers, this`trace, this`system, queue, queue.nodes
      ensures Valid() && producers == old(producers)
      ensures queue.Contents() == old(queue.Contents())
                                  + (if |old(queue.Contents())| < MAX_MESSAGE_QUEUE_SIZE
                                     then [EventText(target, event, time)] else [])
    {
      hide Run, EventText;
      var ignore := CheckCapacity(p, Report(target, event, time));
      if ignore {
        return;
      }
      var json := BuildEvent(target, event, time);
      Enqueue(p, json.str[..json.length]);
    }

    /** One turn of the loop of `process_pending_messages`: the oldest message goes round all slots. */
    method ProcessPendingMessage(host: Host)
      requires Valid() && consumer.Idle?
      modifies this`consumer, this`trace, this`system, queue, queue.nodes, clients, sockets
      ensures Valid() && consumer.Idle?
      ensures old(queue.Contents()) == [] ==>
                queue.Contents() == [] && trace == old(trace) + [Action.Peek] && system.popped == old(system.popped)
      ensures old(queue.Contents()) != [] ==>
                && queue.Contents() == old(queue.Contents())[1..]
                && old(trace) + [Action.Peek, Action.Pop] <= trace
                && system.popped == old(system.popped) + [old(queue.Contents())[0]]
      ensures forall i :: 0 <= i < |clients| && clients[i].connected ==> Delivered(i)
    {
      hide Run, Valid, Delivered;
      var empty := Peek();
      if !empty {
        Pop();
        while consumer.next < MAX_WS_CLIENTS
          invariant Valid() && consumer.Sending? && consumer.next <= MAX_WS_CLIENTS
          invariant queue.Contents() == old(queue.Contents())[1..]
          invariant old(trace) + [Action.Peek, Action.Pop] <= trace
          invariant system.popped == old(system.popped) + [old(queue.Contents())[0]]
          decreases MAX_WS_CLIENTS - consumer.next
        {
          var _ := SendToSlot(host);
        }
        FinishRound();
      }
      forall i | 0 <= i < |clients| && clients[i].connected
        ensures Delivered(i)
      {
        AllDelivered(i);
      }
    }

    /** The wire of the client in slot `i` carries its whole window, up to the last popped message. */
    ghost predicate Delivered(i: nat)
      requires i < |clients|
      reads this, clients, sockets
    {
      && i < |system.slots| && system.slots[i].Some? && system.slots[i].value < |system.sessions|
      && system.slots[i].value < |sockets|
      && var x := system.sessions[system.slots[i].value];
         && clients[i].socket == sockets[system.slots[i].value]
         && x.start <= |system.popped|
         && sockets[system.slots[i].value].output == x.answer + WireOf(system.popped[x.start..])
    }

    lemma AllDelivered(i: nat)
      requires Valid() && consumer.Idle? && i < |clients| && clients[i].connected
      ensures Delivered(i)
    {
      hide Run, TextFrame, WireOf;
      RunSafe(|producers|, trace);
      assert SlotPart(i);
      ghost var x := system.sessions[system.slots[i].value];
      assert x.start + |x.sent| == Offered(system, i) == |system.popped|;
      assert SessionInv(system.popped, x);
      assert system.popped[x.start..] == system.popped[x.start..|system.popped|] == x.sent;
    }
  }
}
