/** When a connection can still deliver more. A block left behind in the out-of-order queue, as a
    duplicated out-of-order segment leaves it, stops delivery for good, and nothing else does. */
module TcpStall {
  import opened Wrappers
  import opened SeqNum
  import opened RingBuffer
  import opened TcpState
  import opened TcpStream
  import opened TcpRun

  // The error branch of ofo_packet_dequeue: the first block of the queue is already past.
  predicate Stuck(r: Receiver) {
    r.queue != [] && LessThan(r.queue[0].seqNo, r.rcvNxt)
  }

  lemma StuckByIndex(net: Net)
    requires Inv(net)
    ensures Stuck(net.rcv) <==> net.late != [] && net.late[0] < net.next
  {
    if net.late != [] {
      NearNext(net.chunks, net.late[0], net.next);
      SeqCompare(net.iss, net.chunks, net.late[0], net.next);
    }
  }

  // ---------------------------------------------------------------- stuck for good

  lemma StuckAnswer(net: Net, r: Receiver, held: seq<nat>, ack: nat)
    requires Inv(net) && Reflects(net.iss, net.chunks, r, held, net.next, net.read)
    requires held != [] && held[0] < net.next
    ensures var after := Reacted(net, held, Answer(r, ack));
            after.next == net.next && after.late == held
  {
    AnswerEffect(net, r, held, ack);
    assert held[0..] == held;
  }

  lemma StuckStep(net: Net, e: Event)
    requires Inv(net) && Enabled(net, e) && net.late != [] && net.late[0] < net.next
    ensures var after := Step(net, e);
            && after.next == net.next && after.late != [] && after.late[0] < after.next
            && after.chunks[..net.next] == net.chunks[..net.next]
  {
    match e
    case ArriveData(w, behind) =>
      ArriveCases(net, w, behind);
      if net.next <= w.idx {
        var r := net.rcv.(queue := Enqueue(net.rcv.queue, Block(w.seg.seqNo, w.seg.payload)));
        StuckAnswer(net, r, InsertIndex(net.late, w.idx), w.seg.ack);
      }
    case WakeUp => StuckAnswer(net, net.rcv, net.late, net.rcv.asleep.value);
    case Send(chunk) =>
    case Retransmit =>
    case Read(n) =>
    case AckAgain =>
    case ArriveAck(w) =>
  }

  lemma {:induction false} StuckRun(net: Net, events: seq<Event>)
    requires Inv(net) && NoMarker(events) && Run(net, events).Some?
    requires net.late != [] && net.late[0] < net.next
    ensures var after := Run(net, events).value;
            after.next == net.next && net.next <= |after.chunks| && after.chunks[..net.next] == net.chunks[..net.next]
    decreases |events|
  {
    if events != [] {
      StuckStep(net, events[0]);
      StepKeepsInv(net, events[0]);
      StuckRun(Step(net, events[0]), events[1..]);
    }
  }

  // A stuck receiver never delivers another byte, whatever is sent, resent, acknowledged or read.
  lemma StuckForever(net: Net, events: seq<Event>)
    requires Inv(net) && Stuck(net.rcv) && NoMarker(events) && Run(net, events).Some?
    ensures Delivered(Run(net, events).value) == Delivered(net)
  {
    StuckByIndex(net);
    StuckRun(net, events);
    RunKeepsInv(net, events);
  }

  // ---------------------------------------------------------------- not stuck

  // What more holds in reachable states: a sleeping handler waits for room for the next chunk, and
  // otherwise everything delivered has been acknowledged.
  ghost predicate Live(net: Net) {
    && Inv(net)
    && net.rcv.capacity == TCP_DEFAULT_WINDOW - 1
    && (net.rcv.asleep.Some? ==> net.late != [] && net.late[0] == net.next)
    && (net.rcv.asleep.None? ==> net.next == 0 || Acknowledged(net))
  }

  ghost predicate Acknowledged(net: Net) {
    exists w :: w in net.acks && w.idx == net.next
  }

  lemma InitLive(iss: nat, riss: nat)
    ensures Live(InitNet(iss, riss))
  {
  }

  lemma AnswerLive(net: Net, r: Receiver, held: seq<nat>, ack: nat)
    requires Live(net) && Reflects(net.iss, net.chunks, r, held, net.next, net.read) && r.capacity == net.rcv.capacity
    requires OnlyGets(r.blocks)
    ensures Live(Reacted(net, held, Answer(r, ack)))
  {
    var after := Reacted(net, held, Answer(r, ack));
    AnswerEffect(net, r, held, ack);
    AnswerKeepsInv(net, r, held, ack);
    if Answer(r, ack).1.Some? {
      assert Wire(after.next, Answer(r, ack).1.value) in after.acks;
    }
  }

  lemma StepKeepsLive(net: Net, e: Event)
    requires Live(net) && Enabled(net, e) && (e.Send? ==> !MayBeGet(e.chunk))
    ensures Live(Step(net, e))
  {
    StepKeepsInv(net, e);
    match e
    case ArriveData(w, behind) =>
      ArriveCases(net, w, behind);
      if net.next <= w.idx {
        var r := net.rcv.(queue := Enqueue(net.rcv.queue, Block(w.seg.seqNo, w.seg.payload)));
        AnswerLive(net, r, InsertIndex(net.late, w.idx), w.seg.ack);
      }
    case WakeUp => AnswerLive(net, net.rcv, net.late, net.rcv.asleep.value);
    case AckAgain => StillAcknowledged(net, Step(net, e));
    case Send(chunk) => StillAcknowledged(net, Step(net, e));
    case Retransmit => StillAcknowledged(net, Step(net, e));
    case Read(n) => StillAcknowledged(net, Step(net, e));
    case ArriveAck(w) => StillAcknowledged(net, Step(net, e));
  }

  lemma StillAcknowledged(net: Net, after: Net)
    requires Live(net) && Inv(after) && net.acks <= after.acks && after.next == net.next && after.late == net.late
    requires after.rcv.asleep == net.rcv.asleep && after.rcv.capacity == net.rcv.capacity
    ensures Live(after)
  {
    if Acknowledged(net) {
      var w :| w in net.acks && w.idx == net.next;
      assert w in after.acks;
    }
  }

  lemma {:induction false} RunKeepsLive(net: Net, events: seq<Event>)
    requires Live(net) && NoMarker(events) && Run(net, events).Some?
    ensures Live(Run(net, events).value)
    decreases |events|
  {
    if events != [] {
      StepKeepsLive(net, events[0]);
      RunKeepsLive(Step(net, events[0]), events[1..]);
    }
  }

  // These events can happen one after the other and deliver more of the stream.
  ghost predicate Advances(net: Net, events: seq<Event>) {
    NoMarker(events) && Run(net, events).Some? && Run(net, events).value.next > net.next
  }

  lemma AdvancesLater(net: Net, e: Event, events: seq<Event>)
    requires Enabled(net, e) && !e.Send? && Step(net, e).next == net.next && Advances(Step(net, e), events)
    ensures Advances(net, [e] + events)
  {
    assert ([e] + events)[1..] == events;
  }

  lemma AdvancesNow(net: Net, e: Event)
    requires Enabled(net, e) && !e.Send? && Step(net, e).next > net.next
    ensures Advances(net, [e])
  {
    assert [e][1..] == [];
    assert Run(Step(net, e), []) == Some(Step(net, e));
  }

  // With an empty ring the next chunk, once at the head of the queue, is delivered.
  lemma RunStarts(net: Net, r: Receiver, held: seq<nat>, ack: nat)
    requires Live(net) && Reflects(net.iss, net.chunks, r, held, net.next, net.read)
    requires r.capacity == net.rcv.capacity && r.ring == [] && held != [] && held[0] == net.next
    ensures Reacted(net, held, Answer(r, ack)).next > net.next
  {
    AnswerEffect(net, r, held, ack);
  }

  lemma WakeAdvances(net: Net)
    requires Live(net) && net.rcv.asleep.Some? && net.rcv.ring == []
    ensures Advances(net, [WakeUp])
  {
    RunStarts(net, net.rcv, net.late, net.rcv.asleep.value);
    AdvancesNow(net, WakeUp);
  }

  // The next chunk arrives at a receiver that is not stuck.
  lemma ArrivalAdvances(net: Net, w: Wire)
    requires Live(net) && net.rcv.ring == [] && net.rcv.asleep.None? && w in net.data && w.idx == net.next
    requires net.late != [] ==> net.late[0] >= net.next
    ensures Advances(net, [ArriveData(w, [])])
  {
    ArriveCases(net, w, []);
    var r := net.rcv.(queue := Enqueue(net.rcv.queue, Block(w.seg.seqNo, w.seg.payload)));
    RunStarts(net, r, InsertIndex(net.late, w.idx), w.seg.ack);
    AdvancesNow(net, ArriveData(w, []));
  }

  // The sender's oldest block is the next chunk: resend it.
  lemma ResendAdvances(net: Net) returns (events: seq<Event>)
    requires Live(net) && net.rcv.ring == [] && net.rcv.asleep.None? && net.acked == net.next < |net.chunks|
    requires net.late != [] ==> net.late[0] >= net.next
    ensures Advances(net, events)
  {
    var w := Wire(net.acked, Retransmission(net.snd).value);
    StepKeepsLive(net, Retransmit);
    ArrivalAdvances(Step(net, Retransmit), w);
    AdvancesLater(net, Retransmit, [ArriveData(w, [])]);
    events := [Retransmit] + [ArriveData(w, [])];
  }

  // The sender lags behind: its last acknowledgement arrives first.
  lemma AckedAdvances(net: Net) returns (events: seq<Event>)
    requires Live(net) && net.rcv.ring == [] && net.rcv.asleep.None? && net.next < |net.chunks|
    requires net.late != [] ==> net.late[0] >= net.next
    ensures Advances(net, events)
  {
    if net.acked == net.next {
      events := ResendAdvances(net);
    } else {
      var w :| w in net.acks && w.idx == net.next;
      WindowFromSize(net);
      StepKeepsLive(net, ArriveAck(w));
      events := ResendAdvances(Step(net, ArriveAck(w)));
      AdvancesLater(net, ArriveAck(w), events);
      events := [ArriveAck(w)] + events;
    }
  }

  lemma EmptyRingAdvances(net: Net) returns (events: seq<Event>)
    requires Live(net) && net.rcv.ring == [] && net.next < |net.chunks|
    requires net.late != [] ==> net.late[0] >= net.next
    ensures Advances(net, events)
  {
    if net.rcv.asleep.Some? {
      WakeAdvances(net);
      events := [WakeUp];
    } else {
      events := AckedAdvances(net);
    }
  }

  lemma NotStuckAdvances(net: Net) returns (events: seq<Event>)
    requires Live(net) && net.next < |net.chunks|
    requires net.late != [] ==> net.late[0] >= net.next
    ensures Advances(net, events)
  {
    if net.rcv.ring == [] {
      events := EmptyRingAdvances(net);
    } else {
      var e := Read(|net.rcv.ring|);
      StepKeepsLive(net, e);
      events := EmptyRingAdvances(Step(net, e));
      AdvancesLater(net, e, events);
      events := [e] + events;
    }
  }

  lemma StepExtends(net: Net, e: Event, k: nat)
    requires Enabled(net, e) && k <= |net.chunks|
    ensures k <= |Step(net, e).chunks| && Off(Step(net, e).chunks, k) == Off(net.chunks, k)
  {
    if e.Send? { OffStable(net.chunks, e.chunk, k); }
  }

  // A run only adds chunks at the end.
  lemma {:induction false} RunExtends(net: Net, events: seq<Event>, k: nat)
    requires k <= |net.chunks| && Run(net, events).Some?
    ensures var after := Run(net, events).value;
            k <= |after.chunks| && Off(after.chunks, k) == Off(net.chunks, k)
    decreases |events|
  {
    if events != [] {
      StepExtends(net, events[0], k);
      RunExtends(Step(net, events[0]), events[1..], k);
    }
  }

  // More chunks delivered means more bytes delivered.
  lemma AdvanceInBytes(net: Net, events: seq<Event>)
    requires Inv(net) && NoMarker(events) && Run(net, events).Some?
    ensures Run(net, events).value.next > net.next <==>
              |Delivered(Run(net, events).value)| > |Delivered(net)|
  {
    var after := Run(net, events).value;
    RunKeepsInv(net, events);
    RunExtends(net, events, net.next);
    DeliveredIsPrefix(net);
    DeliveredIsPrefix(after);
    if after.next > net.next {
      OffGrows(after.chunks, net.next, after.next);
    } else {
      OffGrows(after.chunks, after.next, net.next);
    }
  }

  // Some bytes written have not been delivered yet.
  lemma UndeliveredInBytes(net: Net)
    requires Inv(net)
    ensures |Delivered(net)| < |Stream(net)| <==> net.next < |net.chunks|
  {
    DeliveredIsPrefix(net);
    OffGrows(net.chunks, net.next, |net.chunks|);
  }

  ghost predicate DeliversMore(net: Net, events: seq<Event>) {
    && NoMarker(events) && Run(net, events).Some?
    && |Delivered(Run(net, events).value)| > |Delivered(net)|
  }

  // While part of the written stream is undelivered, the connection can go on to deliver more
  // exactly when the first block of the out-of-order queue is not already past.
  lemma DeliversMoreIffNotStuck(iss: nat, riss: nat, past: seq<Event>)
    requires NoMarker(past) && Run(InitNet(iss, riss), past).Some?
    requires var net := Run(InitNet(iss, riss), past).value; |Delivered(net)| < |Stream(net)|
    ensures var net := Run(InitNet(iss, riss), past).value;
            (exists events :: DeliversMore(net, events)) <==> !Stuck(net.rcv)
  {
    var net := Run(InitNet(iss, riss), past).value;
    InitLive(iss, riss);
    RunKeepsLive(InitNet(iss, riss), past);
    if Stuck(net.rcv) {
      forall events | NoMarker(events) && Run(net, events).Some?
        ensures !DeliversMore(net, events)
      {
        StuckForever(net, events);
      }
    } else {
      StuckByIndex(net);
      UndeliveredInBytes(net);
      var events := NotStuckAdvances(net);
      AdvanceInBytes(net, events);
      assert DeliversMore(net, events);
    }
  }

  // ---------------------------------------------------------------- how it gets stuck

  // The same bytes delivered and read leave the same room.
  lemma SameRoom(net: Net, after: Net)
    requires Inv(net) && Inv(after) && after.chunks == net.chunks && after.read == net.read
    requires after.rcv.capacity == net.rcv.capacity
    ensures after.next == net.next ==> Room(after.rcv) == Room(net.rcv)
  {
    DeliveredIsPrefix(net);
    DeliveredIsPrefix(after);
  }

  // The chunk numbers held once chunk k has joined those waiting, and how many of them go on.
  ghost predicate Joined(chunks: Chunks, late: seq<nat>, k: nat, next: nat, room: int, held: seq<nat>, c: nat) {
    && held == InsertIndex(late, k) && (forall j :: 0 <= j < |held| ==> held[j] < |chunks|)
    && c == RunLength(chunks, held, next, room)
  }

  lemma ArriveEffect(net: Net, w: Wire, held: seq<nat>, c: nat) returns (after: Net)
    requires Inv(net) && Enabled(net, ArriveData(w, [])) && net.next <= w.idx
    requires Joined(net.chunks, net.late, w.idx, net.next, Room(net.rcv), held, c)
    ensures after == Step(net, ArriveData(w, [])) && after.chunks == net.chunks && after.data == net.data && after.read == net.read
    ensures after.next == net.next + c && c <= |held| && after.late == held[c..] && after.rcv.capacity == net.rcv.capacity
    ensures c == |held| || held[c] != net.next + c ==> after.rcv.asleep.None?
  {
    after := Step(net, ArriveData(w, []));
    ArriveCases(net, w, []);
    var r := net.rcv.(queue := Enqueue(net.rcv.queue, Block(w.seg.seqNo, w.seg.payload)));
    AnswerEffect(net, r, held, w.seg.ack);
  }

  // after is net with one more chunk waiting at the end of the queue.
  ghost predicate OneMoreWaits(net: Net, after: Net, k: nat) {
    && Inv(after) && after.chunks == net.chunks && after.data == net.data && after.next == net.next
    && after.late == net.late + [k] && after.rcv.asleep.None? && Room(after.rcv) == Room(net.rcv)
  }

  lemma WaitingJoins(chunks: Chunks, late: seq<nat>, k: nat, next: nat, room: int)
    requires k == next + 1 < |chunks| && (late == [] || late == [k])
    ensures Joined(chunks, late, k, next, room, late + [k], 0)
  {
  }

  // A copy of the chunk after the next one waits in the queue.
  lemma SecondWaits(net: Net, w: Wire)
    requires Inv(net) && net.rcv.asleep.None? && net.next + 1 < |net.chunks| && w in net.data && w.idx == net.next + 1
    requires net.late == [] || net.late == [w.idx]
    ensures Enabled(net, ArriveData(w, [])) && OneMoreWaits(net, Step(net, ArriveData(w, [])), w.idx)
  {
    FreshAhead(net, w);
    WaitingJoins(net.chunks, net.late, w.idx, net.next, Room(net.rcv));
    var held := net.late + [w.idx];
    var after := ArriveEffect(net, w, held, 0);
    ArriveKeepsInv(net, w, []);
    SameRoom(net, after);
    assert held[0..] == held;
  }

  lemma NextJoins(chunks: Chunks, next: nat, room: int)
    requires next + 2 == |chunks| && |chunks[next]| + |chunks[next + 1]| <= room
    ensures Joined(chunks, [next + 1, next + 1], next, next, room, [next, next + 1, next + 1], 2)
    ensures [next, next + 1, next + 1][2..] == [next + 1]
  {
    var held := [next, next + 1, next + 1];
    var one, two := held[1..], held[1..][1..];
    assert one == [next + 1, next + 1] && two == [next + 1];
    assert RunLength(chunks, two, next + 2, room - |chunks[next]| - |chunks[next + 1]|) == 0;
    assert RunLength(chunks, one, next + 1, room - |chunks[next]|) == 1;
  }

  // The next chunk takes one of two waiting copies along and leaves the other behind.
  lemma FirstDelivers(net: Net, w: Wire)
    requires Inv(net) && Enabled(net, ArriveData(w, [])) && w.idx == net.next
    requires net.late == [net.next + 1, net.next + 1] && net.next + 2 == |net.chunks|
    requires |net.chunks[net.next]| + |net.chunks[net.next + 1]| <= Room(net.rcv)
    ensures var after := Step(net, ArriveData(w, []));
            && Inv(after) && after.chunks == net.chunks && after.next == |net.chunks| && after.late == [net.next + 1]
  {
    NextJoins(net.chunks, net.next, Room(net.rcv));
    var after := ArriveEffect(net, w, [net.next, net.next + 1, net.next + 1], 2);
    ArriveKeepsInv(net, w, []);
  }

  // The two packets after sending a and b.
  lemma BothSent(net: Net, a: seq<byte>, b: seq<byte>)
    requires Inv(net) && net.next == |net.chunks|
    requires Enabled(net, Send(a)) && Enabled(Step(net, Send(a)), Send(b)) && !MayBeGet(a) && !MayBeGet(b)
    ensures var sent := Step(Step(net, Send(a)), Send(b));
            && Inv(sent) && sent.chunks == net.chunks + [a] + [b] && sent.next == net.next && sent.late == net.late
            && sent.rcv == net.rcv
            && Wire(|net.chunks|, DataSegment(net.snd, a)) in sent.data
            && Wire(|net.chunks| + 1, DataSegment(Step(net, Send(a)).snd, b)) in sent.data
  {
    SendKeepsInv(net, a);
    SendKeepsInv(Step(net, Send(a)), b);
  }

  lemma AllDelivered(net: Net)
    requires Inv(net) && net.next == |net.chunks|
    ensures Delivered(net) == Stream(net)
  {
    DeliveredIsPrefix(net);
  }

  // The state before the last arrivals: the next two chunks are the last ones and under way.
  ghost predicate LastTwo(net: Net, first: Wire, second: Wire) {
    && Inv(net) && net.rcv.asleep.None? && net.next + 2 == |net.chunks|
    && first in net.data && first.idx == net.next && second in net.data && second.idx == net.next + 1
    && |net.chunks[net.next]| + |net.chunks[net.next + 1]| <= Room(net.rcv)
  }

  lemma CopyStays(net: Net, first: Wire, second: Wire) returns (after: Net)
    requires LastTwo(net, first, second) && net.late == [net.next + 1, net.next + 1]
    ensures Run(net, [ArriveData(first, [])] + []) == Some(after)
    ensures Delivered(after) == Stream(after) && Stuck(after.rcv)
  {
    FreshAhead(net, first);
    FirstDelivers(net, first);
    after := Step(net, ArriveData(first, []));
    RunFirst(net, ArriveData(first, []), []);
    StuckByIndex(after);
    AllDelivered(after);
  }

  lemma CopyArrives(net: Net, first: Wire, second: Wire) returns (after: Net)
    requires LastTwo(net, first, second) && net.late == [net.next + 1]
    ensures Run(net, [ArriveData(second, [])] + ([ArriveData(first, [])] + [])) == Some(after)
    ensures Delivered(after) == Stream(after) && Stuck(after.rcv)
  {
    SecondWaits(net, second);
    after := CopyStays(Step(net, ArriveData(second, [])), first, second);
    RunFirst(net, ArriveData(second, []), [ArriveData(first, [])] + []);
  }

  lemma ThreeEvents(a: Event, b: Event, c: Event)
    ensures [a] + ([b] + ([c] + [])) == [a, b, c]
  {
  }

  // Of the last two chunks the second arrives twice before the first.
  lemma DuplicateArrives(net: Net, first: Wire, second: Wire) returns (after: Net)
    requires LastTwo(net, first, second) && net.late == []
    ensures Run(net, [ArriveData(second, []), ArriveData(second, []), ArriveData(first, [])]) == Some(after)
    ensures Delivered(after) == Stream(after) && Stuck(after.rcv)
  {
    SecondWaits(net, second);
    after := CopyArrives(Step(net, ArriveData(second, [])), first, second);
    RunFirst(net, ArriveData(second, []), [ArriveData(second, [])] + ([ArriveData(first, [])] + []));
    ThreeEvents(ArriveData(second, []), ArriveData(second, []), ArriveData(first, []));
  }

  // Two chunks are sent to a receiver that is up to date; the second one arrives twice before the
  // first. Everything sent is delivered, and the receiver is stuck with the extra copy.
  lemma DuplicateSticks(net: Net, a: seq<byte>, b: seq<byte>) returns (after: Net)
    requires Inv(net) && net.rcv.asleep.None? && net.next == |net.chunks| && net.late == []
    requires Enabled(net, Send(a)) && Enabled(Step(net, Send(a)), Send(b)) && !MayBeGet(a) && !MayBeGet(b)
    requires |a| + |b| <= Room(net.rcv)
    ensures var sent := Step(Step(net, Send(a)), Send(b));
            var first, second := Wire(|net.chunks|, DataSegment(net.snd, a)),
                                 Wire(|net.chunks| + 1, DataSegment(Step(net, Send(a)).snd, b));
            Run(sent, [ArriveData(second, []), ArriveData(second, []), ArriveData(first, [])]) == Some(after)
    ensures Delivered(after) == Stream(after) && Stuck(after.rcv)
  {
    var sent := Step(Step(net, Send(a)), Send(b));
    BothSent(net, a, b);
    after := DuplicateArrives(sent, Wire(|net.chunks|, DataSegment(net.snd, a)),
                              Wire(|net.chunks| + 1, DataSegment(Step(net, Send(a)).snd, b)));
  }
}
