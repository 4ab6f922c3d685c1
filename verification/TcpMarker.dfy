/** Which streams are delivered reliably: the receiver tells acknowledgements from data by the
    payload, and the memory behind it, so a chunk that begins with the marker, or is a beginning of it,
    can be lost. */
module TcpMarker {
  import opened Wrappers
  import opened SeqNum
  import opened RingBuffer
  import opened TcpState
  import opened TcpStream
  import opened TcpRun
  import opened TcpStall
  import opened TcpWrite

  // ---------------------------------------------------------------- one chunk

  // The packet a chunk is sent in.
  function Packet(net: Net, chunk: seq<byte>): Wire {
    Wire(|net.chunks|, DataSegment(net.snd, chunk))
  }

  // A chunk that has just been sent can arrive at once.
  lemma JustSentArrives(net: Net, chunk: seq<byte>, behind: seq<byte>)
    requires Inv(net) && Enabled(net, Send(chunk)) && net.rcv.asleep.None?
    ensures Enabled(Step(net, Send(chunk)), ArriveData(Packet(net, chunk), behind))
  {
    OffStable(net.chunks, chunk, net.next);
    OffStable(net.chunks, chunk, |net.chunks|);
    OffGrows(net.chunks, net.next, |net.chunks|);
  }

  // A window apart, and one more, is never a multiple of 2^32 apart.
  lemma NotSameNumber(a: nat, b: nat)
    requires a <= b <= a + TCP_DEFAULT_WINDOW
    ensures U32(U32(b) + 1) != U32(a)
  {
    assert U32(U32(b) + 1) == U32(b + 1);
    CompareOffsets(a, b + 1);
  }

  // The receiver takes the marker for an acknowledgement: it drops the bytes and steps to one past
  // their first number.
  lemma MarkerArrives(net: Net, w: Wire, behind: seq<byte>)
    requires Enabled(net, ArriveData(w, behind)) && IsGet(w.seg.payload + behind)
    ensures var after := Step(net, ArriveData(w, behind));
            && after.rcv.rcvNxt == U32(w.seg.seqNo + 1) && Delivered(after) == Delivered(net) && after.iss == net.iss
  {
    assert Process(net.rcv, w.seg, behind) == (WithSendHalf(net.rcv, HandleAck(SendHalf(net.rcv), w.seg)), None);
  }

  // The number after the marker's first is not the number after what has been delivered.
  lemma NumbersApart(net: Net)
    requires Inv(net)
    ensures U32(net.snd.sndNxt + 1) != U32(net.iss + |Delivered(net)|)
  {
    DeliveredIsPrefix(net);
    WindowFromSize(net);
    OffGrows(net.chunks, net.next, |net.chunks|);
    NotSameNumber(net.iss + Off(net.chunks, net.next), net.iss + Off(net.chunks, |net.chunks|));
  }

  lemma WrongNumber(net: Net)
    requires net.rcv.rcvNxt != U32(net.iss + |Delivered(net)|)
    ensures !Reliable(net)
  {
  }

  // A chunk that is taken for the marker breaks the run.
  lemma MarkerBreaks(net: Net, chunk: seq<byte>, behind: seq<byte>)
    requires Inv(net) && Enabled(net, Send(chunk)) && net.rcv.asleep.None? && IsGet(chunk + behind)
    ensures Enabled(Step(net, Send(chunk)), ArriveData(Packet(net, chunk), behind))
    ensures !Reliable(Step(Step(net, Send(chunk)), ArriveData(Packet(net, chunk), behind)))
  {
    JustSentArrives(net, chunk, behind);
    NumbersApart(net);
    MarkerLost(net, Step(net, Send(chunk)), chunk, behind);
  }

  lemma MarkerLost(net: Net, sent: Net, chunk: seq<byte>, behind: seq<byte>)
    requires Enabled(net, Send(chunk)) && sent == Step(net, Send(chunk)) && IsGet(chunk + behind)
    requires Enabled(sent, ArriveData(Packet(net, chunk), behind))
    requires U32(net.snd.sndNxt + 1) != U32(net.iss + |Delivered(net)|)
    ensures !Reliable(Step(sent, ArriveData(Packet(net, chunk), behind)))
  {
    MarkerArrives(sent, Packet(net, chunk), behind);
    assert Delivered(sent) == Delivered(net);
    WrongNumber(Step(sent, ArriveData(Packet(net, chunk), behind)));
  }

  // Sending one more chunk and having it arrive is reliable whatever lies behind it in memory.
  ghost predicate ArrivesReliably(net: Net, chunk: seq<byte>)
    requires Enabled(net, Send(chunk))
  {
    forall behind :: Enabled(Step(net, Send(chunk)), ArriveData(Packet(net, chunk), behind))
                     && Reliable(Step(Step(net, Send(chunk)), ArriveData(Packet(net, chunk), behind)))
  }

  // From any reachable point with the handler awake that holds exactly of the chunks that neither
  // begin with the marker nor are a beginning of it.
  lemma MarkerDecides(net: Net, chunk: seq<byte>)
    requires Inv(net) && Enabled(net, Send(chunk)) && net.rcv.asleep.None?
    ensures ArrivesReliably(net, chunk) <==> !MayBeGet(chunk)
  {
    MayBeGetExact(chunk);
    if MayBeGet(chunk) {
      var behind :| IsGet(chunk + behind);
      MarkerBreaks(net, chunk, behind);
    } else {
      forall behind
        ensures Enabled(Step(net, Send(chunk)), ArriveData(Packet(net, chunk), behind))
        ensures Reliable(Step(Step(net, Send(chunk)), ArriveData(Packet(net, chunk), behind)))
      {
        JustSentArrives(net, chunk, behind);
        SendKeepsInv(net, chunk);
        ArriveKeepsInv(Step(net, Send(chunk)), Packet(net, chunk), behind);
        InvIsReliable(Step(Step(net, Send(chunk)), ArriveData(Packet(net, chunk), behind)));
      }
    }
  }

  // ---------------------------------------------------------------- all runs

  // The chunks the writer sends in a run, in order.
  function SentBy(events: seq<Event>): Chunks {
    if events == [] then []
    else (if events[0].Send? then [events[0].chunk] else []) + SentBy(events[1..])
  }

  // No marker among the chunks of the send events.
  lemma {:induction false} NoMarkerSent(events: seq<Event>)
    requires forall k :: 0 <= k < |SentBy(events)| ==> !MayBeGet(SentBy(events)[k])
    ensures NoMarker(events)
    decreases |events|
  {
    if events != [] {
      var rest := SentBy(events[1..]);
      var first := if events[0].Send? then [events[0].chunk] else [];
      assert SentBy(events) == first + rest;
      forall k | 0 <= k < |rest|
        ensures !MayBeGet(rest[k])
      {
        assert rest[k] == SentBy(events)[|first| + k];
      }
      NoMarkerSent(events[1..]);
      if events[0].Send? {
        assert SentBy(events)[0] == events[0].chunk;
      }
      forall k | 0 <= k < |events| && events[k].Send?
        ensures !MayBeGet(events[k].chunk)
      {
        if k > 0 { assert events[k] == events[1..][k - 1]; }
      }
    }
  }

  lemma SentByFirst(e: Event, rest: seq<Event>)
    ensures SentBy([e] + rest) == (if e.Send? then [e.chunk] else []) + SentBy(rest)
  {
    assert ([e] + rest)[1..] == rest;
  }

  lemma Associative(a: seq<Event>, b: seq<Event>, c: seq<Event>)
    ensures (a + b) + c == a + (b + c)
  {
  }

  lemma {:induction false} SentByAppend(events: seq<Event>, more: seq<Event>)
    ensures SentBy(events + more) == SentBy(events) + SentBy(more)
    decreases |events|
  {
    if events == [] {
      assert events + more == more;
    } else {
      var first, rest := [events[0]], events[1..];
      assert events == first + rest;
      Associative(first, rest, more);
      SentByFirst(events[0], rest + more);
      SentByAppend(rest, more);
    }
  }

  lemma {:induction false} RunAppend(net: Net, events: seq<Event>, more: seq<Event>)
    requires Run(net, events).Some?
    ensures Run(net, events + more) == Run(Run(net, events).value, more)
    decreases |events|
  {
    if events == [] {
      assert events + more == more;
    } else {
      assert (events + more)[1..] == events[1..] + more;
      RunAppend(Step(net, events[0]), events[1..], more);
    }
  }

  // Everything sent has been delivered, read and acknowledged.
  ghost predicate Idle(net: Net) {
    && Live(net) && net.rcv.asleep.None? && net.late == [] && net.rcv.ring == []
    && net.acked == net.next == |net.chunks|
  }

  lemma InitIdle(iss: nat, riss: nat)
    ensures Idle(InitNet(iss, riss))
  {
    InitLive(iss, riss);
  }

  // The next chunk arrives at a receiver that has read everything before it.
  lemma ChunkDelivered(net: Net, w: Wire)
    requires Live(net) && net.rcv.asleep.None? && net.late == [] && net.rcv.ring == []
    requires net.next + 1 == |net.chunks| && w in net.data && w.idx == net.next
    ensures Enabled(net, ArriveData(w, []))
    ensures var after := Step(net, ArriveData(w, []));
            && Live(after) && after.rcv.asleep.None? && after.late == [] && after.next == |after.chunks|
            && after.chunks == net.chunks && after.acked == net.acked
  {
    FreshAhead(net, w);
    StepKeepsLive(net, ArriveData(w, []));
    OnlyOneJoins(net.chunks, net.next, Room(net.rcv));
    var after := ArriveEffect(net, w, [w.idx], 1);
  }

  lemma OnlyOneJoins(chunks: Chunks, next: nat, room: int)
    requires next < |chunks| && |chunks[next]| <= room
    ensures Joined(chunks, [], next, next, room, [next], 1)
  {
    assert [next][1..] == [];
  }

  // What the receiver holds is read.
  lemma ReadAll(net: Net) returns (events: seq<Event>, after: Net)
    requires Live(net) && net.rcv.asleep.None? && net.late == [] && net.next == |net.chunks|
    ensures Run(net, events) == Some(after) && SentBy(events) == []
    ensures Live(after) && after.rcv.asleep.None? && after.late == [] && after.next == |after.chunks|
    ensures after.rcv.ring == [] && after.chunks == net.chunks
  {
    if net.rcv.ring == [] {
      events, after := [], net;
    } else {
      var e := Read(|net.rcv.ring|);
      StepKeepsLive(net, e);
      after := Step(net, e);
      RunFirst(net, e, []);
      events := [e] + [];
    }
  }

  // The last acknowledgement reaches the sender.
  lemma AckAll(net: Net) returns (events: seq<Event>)
    requires Live(net) && net.rcv.asleep.None? && net.late == [] && net.next == |net.chunks| > 0 && net.rcv.ring == []
    ensures Run(net, events).Some? && SentBy(events) == []
    ensures Idle(Run(net, events).value) && Run(net, events).value.chunks == net.chunks
  {
    var w :| w in net.acks && w.idx == net.next;
    StepKeepsLive(net, ArriveAck(w));
    RunFirst(net, ArriveAck(w), []);
    events := [ArriveAck(w)] + [];
  }

  lemma Then(start: Net, before: seq<Event>, net: Net, more: seq<Event>)
    requires Run(start, before) == Some(net)
    ensures Run(start, before + more) == Run(net, more) && SentBy(before + more) == SentBy(before) + SentBy(more)
  {
    RunAppend(start, before, more);
    SentByAppend(before, more);
  }

  // One chunk goes all the way.
  lemma ChunkThrough(net: Net, chunk: seq<byte>) returns (events: seq<Event>, after: Net)
    requires Idle(net) && 0 < |chunk| <= NORMAL_TCP_DATA_LEN && !MayBeGet(chunk)
    ensures Run(net, events) == Some(after) && SentBy(events) == [chunk] && Idle(after)
  {
    var w, sent := Packet(net, chunk), Step(net, Send(chunk));
    StepKeepsLive(net, Send(chunk));
    ChunkDelivered(sent, w);
    var arrived := Step(sent, ArriveData(w, []));
    var readings, done := ReadAll(arrived);
    var acks := AckAll(done);
    after := Run(done, acks).value;
    Then(arrived, readings, done, acks);
    RunFirst(sent, ArriveData(w, []), readings + acks);
    SentByFirst(ArriveData(w, []), readings + acks);
    RunFirst(net, Send(chunk), [ArriveData(w, [])] + (readings + acks));
    SentByFirst(Send(chunk), [ArriveData(w, [])] + (readings + acks));
    events := [Send(chunk)] + ([ArriveData(w, [])] + (readings + acks));
  }

  // Chunks without marker but the last, and the last one.
  lemma AllButLast(cs: Chunks) returns (first: Chunks, last: seq<byte>)
    requires cs != [] && Proper(cs) && forall k :: 0 <= k < |cs| ==> !MayBeGet(cs[k])
    ensures |first| == |cs| - 1 && cs == first + [last] && Proper(first) && forall k :: 0 <= k < |first| ==> !MayBeGet(first[k])
    ensures 0 < |last| <= NORMAL_TCP_DATA_LEN && !MayBeGet(last)
  {
    first, last := cs[..|cs| - 1], cs[|cs| - 1];
  }

  // The chunks go through one after the other.
  lemma {:induction false} ChunksThrough(start: Net, cs: Chunks) returns (events: seq<Event>, net: Net)
    requires Idle(start) && Proper(cs) && forall k :: 0 <= k < |cs| ==> !MayBeGet(cs[k])
    ensures Run(start, events) == Some(net) && SentBy(events) == cs && Idle(net)
    decreases |cs|
  {
    if cs == [] {
      events, net := [], start;
    } else {
      var first, last := AllButLast(cs);
      var before, between := ChunksThrough(start, first);
      var more, after := ChunkThrough(between, last);
      Then(start, before, between, more);
      events, net := before + more, after;
    }
  }

  // A chunk that may be taken for the marker, sent when everything before it has gone through.
  lemma MarkerSent(net: Net, chunk: seq<byte>) returns (events: seq<Event>)
    requires Idle(net) && 0 < |chunk| <= NORMAL_TCP_DATA_LEN && MayBeGet(chunk)
    ensures Run(net, events).Some? && !Reliable(Run(net, events).value) && SentBy(events) == [chunk]
  {
    MayBeGetExact(chunk);
    var behind :| IsGet(chunk + behind);
    var e := ArriveData(Packet(net, chunk), behind);
    MarkerBreaks(net, chunk, behind);
    RunFirst(Step(net, Send(chunk)), e, []);
    RunFirst(net, Send(chunk), [e] + []);
    SentByFirst(Send(chunk), [e] + []);
    SentByFirst(e, []);
    events := [Send(chunk)] + ([e] + []);
  }

  lemma BeforeMarker(cs: Chunks, k: nat)
    requires Proper(cs) && k < |cs| && forall j :: 0 <= j < k ==> !MayBeGet(cs[j])
    ensures Proper(cs[..k]) && forall j :: 0 <= j < k ==> !MayBeGet(cs[..k][j])
    ensures cs[..k] + [cs[k]] <= cs
  {
    assert cs[..k] + [cs[k]] == cs[..k + 1];
  }

  // The first chunk that may be taken for the marker breaks a run.
  lemma MarkerReached(start: Net, cs: Chunks, k: nat) returns (events: seq<Event>)
    requires Idle(start) && Proper(cs) && k < |cs| && MayBeGet(cs[k]) && forall j :: 0 <= j < k ==> !MayBeGet(cs[j])
    ensures Run(start, events).Some? && SentBy(events) <= cs
    ensures !Reliable(Run(start, events).value)
  {
    BeforeMarker(cs, k);
    var before, net := ChunksThrough(start, cs[..k]);
    var more := MarkerSent(net, cs[k]);
    Then(start, before, net, more);
    events := before + more;
  }

  // A written stream, cut into chunks, is delivered reliably in every run exactly when none of its
  // chunks begins with the marker or is a beginning of it.
  lemma ReliableIffNoMarker(iss: nat, riss: nat, cs: Chunks)
    requires Proper(cs)
    ensures (forall events :: SentBy(events) <= cs && Run(InitNet(iss, riss), events).Some? ==>
               Reliable(Run(InitNet(iss, riss), events).value))
        <==> (forall k :: 0 <= k < |cs| ==> !MayBeGet(cs[k]))
  {
    if forall k :: 0 <= k < |cs| ==> !MayBeGet(cs[k]) {
      forall events | SentBy(events) <= cs && Run(InitNet(iss, riss), events).Some?
        ensures Reliable(Run(InitNet(iss, riss), events).value)
      {
        NoMarkerSent(events);
        RunsAreReliable(iss, riss, events);
      }
    } else {
      var k := FirstMarker(cs);
      InitIdle(iss, riss);
      var events := MarkerReached(InitNet(iss, riss), cs, k);
    }
  }

  lemma {:induction false} FirstMarker(cs: Chunks) returns (k: nat)
    requires exists j :: 0 <= j < |cs| && MayBeGet(cs[j])
    ensures k < |cs| && MayBeGet(cs[k]) && forall j :: 0 <= j < k ==> !MayBeGet(cs[j])
    decreases |cs|
  {
    k := 0;
    if !MayBeGet(cs[0]) {
      var j :| 0 <= j < |cs| && MayBeGet(cs[j]);
      assert MayBeGet(cs[1..][j - 1]);
      var rest := FirstMarker(cs[1..]);
      k := rest + 1;
      assert forall i :: 1 <= i < k ==> cs[i] == cs[1..][i - 1];
    }
  }

  // A whole call of tcp_sock_write: every run that sends its pieces is reliable exactly when no
  // piece begins with the marker or is a beginning of it.
  lemma WriteReliableIff(iss: nat, riss: nat, data: seq<byte>, cs: Chunks)
    requires CutTo(cs, data, |data|)
    ensures (forall events :: SentBy(events) <= cs && Run(InitNet(iss, riss), events).Some? ==>
               Reliable(Run(InitNet(iss, riss), events).value))
        <==> (forall k: nat :: NORMAL_TCP_DATA_LEN * k < |data| ==> !MayBeGet(Piece(data, k)))
  {
    CutIsProper(cs, data, |data|);
    ReliableIffNoMarker(iss, riss, cs);
    assert forall k: nat :: NORMAL_TCP_DATA_LEN * k < |data| <==> k < |cs|;
    assert forall k :: 0 <= k < |cs| ==> cs[k] == Piece(data, k);
  }
}
