/** Runs of one direction of a connection over channels that lose, duplicate, delay and reorder. */
module TcpRun {
  import opened Wrappers
  import opened SeqNum
  import opened RingBuffer
  import opened TcpState
  import opened TcpStream

  // A packet on the wire, with the number of the chunk it carries or acknowledges up to.
  datatype Wire = Wire(idx: nat, seg: Segment)

  // chunks: everything tcp_sock_write has sent so far, as cut; read: what tcp_sock_read has
  // returned; data, acks: every packet ever sent. acked, next and late say, in chunk numbers,
  // where the sender's buffer begins, what the receiver expects, and what its queue holds.
  datatype Net = Net(
    iss: nat, chunks: Chunks, snd: Sender, rcv: Receiver, read: seq<byte>,
    data: set<Wire>, acks: set<Wire>,
    acked: nat, next: nat, late: seq<nat>)

  datatype Event =
    | Send(chunk: seq<byte>)      // one turn of the loop of tcp_sock_write
    | Retransmit                  // the retransmission timer of the sender
    | ArriveData(w: Wire, behind: seq<byte>)  // with what lies behind its payload in memory
    | WakeUp                      // the reader made room for the sleeping handler
    | Read(n: nat)
    | AckAgain                    // the retransmission timer of the receiver: its first 666-get, with the current ack
    | ArriveAck(w: Wire)

  function InitNet(iss: nat, riss: nat): Net {
    Net(iss, [],
        Sender(U32(iss), U32(iss), TCP_DEFAULT_WINDOW, U32(riss), [], 0),
        Receiver(U32(iss), U32(riss), U32(riss), [], [], TCP_DEFAULT_WINDOW - 1, None, TCP_DEFAULT_WINDOW, [], 0),
        [], {}, {}, 0, 0, [])
  }

  // No packet is older than half the sequence space when it arrives.
  predicate Fresh(net: Net, w: Wire, newest: nat)
    requires newest <= |net.chunks|
  {
    w.idx <= |net.chunks| && Off(net.chunks, newest) - Off(net.chunks, w.idx) <= TWO31
  }

  predicate Enabled(net: Net, e: Event) {
    match e
    case Send(chunk) => 0 < |chunk| <= NORMAL_TCP_DATA_LEN && net.snd.size + |chunk| <= net.snd.sndWnd
    case Retransmit => net.snd.blocks != []
    case ArriveData(w, behind) => w in net.data && net.rcv.asleep.None? && net.next <= |net.chunks| && Fresh(net, w, net.next)
    case WakeUp => net.rcv.asleep.Some?
    case Read(n) => n > 0 && net.rcv.ring != []
    case AckAgain => net.rcv.blocks != []
    case ArriveAck(w) => w in net.acks && Fresh(net, w, |net.chunks|)
  }

  // A chunk the receiver has not delivered yet is never too old.
  lemma FreshAhead(net: Net, w: Wire)
    requires Proper(net.chunks) && net.next <= w.idx <= |net.chunks|
    ensures Fresh(net, w, net.next)
  {
    OffGrows(net.chunks, net.next, w.idx);
  }

  function Emit(wires: set<Wire>, idx: nat, out: Option<Segment>): set<Wire> {
    match out
    case None => wires
    case Some(seg) => wires + {Wire(idx, seg)}
  }

  // The receiver's reaction, and with it the chunk numbers of what it delivered and still holds.
  function Reacted(net: Net, held: seq<nat>, reaction: Reaction): Net {
    var delivered := |held| - |reaction.0.queue|;
    var next := if delivered >= 0 then net.next + delivered else net.next;
    net.(rcv := reaction.0, next := next,
         late := if 0 <= delivered <= |held| then held[delivered..] else held,
         acks := Emit(net.acks, next, reaction.1))
  }

  function Step(net: Net, e: Event): Net
    requires Enabled(net, e)
  {
    match e
    case Send(chunk) =>
      net.(chunks := net.chunks + [chunk], snd := SendData(net.snd, chunk),
           data := net.data + {Wire(|net.chunks|, DataSegment(net.snd, chunk))})
    case Retransmit =>
      net.(data := Emit(net.data, net.acked, Retransmission(net.snd)))
    case ArriveData(w, behind) =>
      // an old segment is dropped before the queue; any other joins it
      var joins := !IsGet(w.seg.payload + behind) && |w.seg.payload| > 0 && !LessThan(w.seg.seqNo, net.rcv.rcvNxt);
      Reacted(net, if joins then InsertIndex(net.late, w.idx) else net.late, Process(net.rcv, w.seg, behind))
    case WakeUp => Reacted(net, net.late, Wake(net.rcv))
    case Read(n) => net.(rcv := ReadRing(net.rcv, n), read := net.read + net.rcv.ring[..Min(|net.rcv.ring|, n)])
    case AckAgain => net.(acks := Emit(net.acks, net.next, Retransmission(SendHalf(net.rcv))))
    case ArriveAck(w) =>
      net.(snd := HandleAck(net.snd, w.seg), acked := if net.acked <= w.idx then w.idx else net.acked)
  }

  function Run(net: Net, events: seq<Event>): Option<Net>
    decreases |events|
  {
    if events == [] then Some(net)
    else if !Enabled(net, events[0]) then None
    else Run(Step(net, events[0]), events[1..])
  }

  lemma RunFirst(net: Net, e: Event, rest: seq<Event>)
    requires Enabled(net, e)
    ensures Run(net, [e] + rest) == Run(Step(net, e), rest)
  {
    assert ([e] + rest)[1..] == rest;
  }

  // No chunk the writer cuts looks like an acknowledgement to the receiver.
  ghost predicate NoMarker(events: seq<Event>) {
    forall k :: 0 <= k < |events| && events[k].Send? ==> !MayBeGet(events[k].chunk)
  }

  // ---------------------------------------------------------------- invariant

  ghost predicate SenderInv(net: Net) {
    var n := |net.chunks|;
    && net.acked <= net.next <= n
    && net.snd.sndNxt == SeqOf(net.iss, net.chunks, n)
    && net.snd.sndWnd == TCP_DEFAULT_WINDOW
    && net.snd.blocks == BlockRange(net.iss, net.chunks, net.acked, n)
    && net.snd.size == Off(net.chunks, n) - Off(net.chunks, net.acked) <= TCP_DEFAULT_WINDOW
  }

  ghost predicate DataInv(net: Net) {
    forall w :: w in net.data ==>
      && w.idx < |net.chunks|
      && w.seg.seqNo == SeqOf(net.iss, net.chunks, w.idx) && w.seg.payload == net.chunks[w.idx]
  }

  ghost predicate AcksInv(net: Net) {
    net.next <= |net.chunks| && forall w :: w in net.acks ==>
      w.idx <= net.next && w.seg.ack == SeqOf(net.iss, net.chunks, w.idx) && w.seg.rwnd == TCP_DEFAULT_WINDOW && w.seg.payload == GET
  }

  // Whatever the receiving end has sent and buffered is an acknowledgement, so the sending end takes
  // its packets for acknowledgements.
  ghost predicate OnlyGets(blocks: seq<Block>) {
    forall k :: 0 <= k < |blocks| ==> blocks[k].data == GET
  }

  ghost predicate Inv(net: Net) {
    && Proper(net.chunks)
    && (forall k :: 0 <= k < |net.chunks| ==> !MayBeGet(net.chunks[k]))
    && SenderInv(net) && DataInv(net) && AcksInv(net) && OnlyGets(net.rcv.blocks)
    && Reflects(net.iss, net.chunks, net.rcv, net.late, net.next, net.read)
  }

  lemma InitInv(iss: nat, riss: nat)
    ensures Inv(InitNet(iss, riss))
  {
  }

  // ---------------------------------------------------------------- preservation

  lemma WindowFromSize(net: Net)
    requires Proper(net.chunks) && SenderInv(net)
    ensures Off(net.chunks, |net.chunks|) - Off(net.chunks, net.next) <= TCP_DEFAULT_WINDOW
  {
    OffGrows(net.chunks, net.acked, net.next);
  }

  lemma SeqStable(iss: nat, chunks: Chunks, c: seq<byte>)
    ensures forall k :: 0 <= k <= |chunks| ==>
              SeqOf(iss, chunks + [c], k) == SeqOf(iss, chunks, k) && Off(chunks + [c], k) == Off(chunks, k)
  {
    forall k | 0 <= k <= |chunks|
      ensures Off(chunks + [c], k) == Off(chunks, k)
    {
      OffStable(chunks, c, k);
    }
  }

  lemma RangeGrows(iss: nat, chunks: Chunks, c: seq<byte>, a: nat)
    requires a <= |chunks|
    ensures BlockRange(iss, chunks + [c], a, |chunks| + 1)
         == BlockRange(iss, chunks, a, |chunks|) + [Block(SeqOf(iss, chunks, |chunks|), c)]
  {
    SeqStable(iss, chunks, c);
    var all, prior, last := BlockRange(iss, chunks + [c], a, |chunks| + 1), BlockRange(iss, chunks, a, |chunks|),
                           Block(SeqOf(iss, chunks, |chunks|), c);
    forall i | 0 <= i < |prior|
      ensures all[i] == prior[i]
    {
      assert all[i] == BlockOf(iss, chunks + [c], a + i) && prior[i] == BlockOf(iss, chunks, a + i);
      assert SeqOf(iss, chunks + [c], a + i) == SeqOf(iss, chunks, a + i);
    }
    assert all[|prior|] == BlockOf(iss, chunks + [c], |chunks|) == last;
  }

  lemma ReflectsStable(iss: nat, chunks: Chunks, c: seq<byte>, r: Receiver, late: seq<nat>, next: nat, read: seq<byte>)
    requires Reflects(iss, chunks, r, late, next, read)
    requires Off(chunks, |chunks|) + |c| - Off(chunks, next) <= TCP_DEFAULT_WINDOW
    ensures Reflects(iss, chunks + [c], r, late, next, read)
  {
    SeqStable(iss, chunks, c);
    assert Off(chunks + [c], |chunks| + 1) == Off(chunks, |chunks|) + |c|;
    assert (chunks + [c])[..next] == chunks[..next];
    assert BlocksFor(iss, chunks + [c], late) == BlocksFor(iss, chunks, late);
  }

  lemma SeqNext(iss: nat, chunks: Chunks, c: seq<byte>)
    ensures SeqOf(iss, chunks + [c], |chunks| + 1) == U32(SeqOf(iss, chunks, |chunks|) + |c|)
    ensures Off(chunks + [c], |chunks| + 1) == Off(chunks, |chunks|) + |c|
  {
    OffStable(chunks, c, |chunks|);
  }

  lemma SendKeepsSender(net: Net, chunk: seq<byte>)
    requires SenderInv(net) && Enabled(net, Send(chunk))
    ensures SenderInv(Step(net, Send(chunk)))
  {
    SeqStable(net.iss, net.chunks, chunk);
    RangeGrows(net.iss, net.chunks, chunk, net.acked);
    SeqNext(net.iss, net.chunks, chunk);
  }

  lemma SendKeepsPackets(net: Net, chunk: seq<byte>)
    requires SenderInv(net) && DataInv(net) && AcksInv(net) && Enabled(net, Send(chunk))
    ensures DataInv(Step(net, Send(chunk))) && AcksInv(Step(net, Send(chunk)))
  {
    SeqStable(net.iss, net.chunks, chunk);
  }

  lemma SendKeepsInv(net: Net, chunk: seq<byte>)
    requires Inv(net) && Enabled(net, Send(chunk)) && !MayBeGet(chunk)
    ensures Inv(Step(net, Send(chunk)))
  {
    SendKeepsSender(net, chunk);
    SendKeepsPackets(net, chunk);
    OffGrows(net.chunks, net.acked, net.next);
    ReflectsStable(net.iss, net.chunks, chunk, net.rcv, net.late, net.next, net.read);
  }

  lemma RetransmitKeepsInv(net: Net)
    requires Inv(net) && Enabled(net, Retransmit)
    ensures Inv(Step(net, Retransmit))
  {
    assert net.snd.blocks[0] == BlockOf(net.iss, net.chunks, net.acked);
  }

  lemma ReflectsSame(iss: nat, chunks: Chunks, r: Receiver, r1: Receiver, late: seq<nat>, next: nat, read: seq<byte>)
    requires Reflects(iss, chunks, r, late, next, read)
    requires r1.rcvNxt == r.rcvNxt && r1.queue == r.queue && r1.ring == r.ring && r1.capacity == r.capacity
    ensures Reflects(iss, chunks, r1, late, next, read)
  {
  }

  // An acknowledgement of what has been delivered joins the others.
  lemma AcksKept(net: Net, after: Net, out: Option<Segment>)
    requires AcksInv(net) && net.next <= after.next <= |net.chunks|
    requires after.iss == net.iss && after.chunks == net.chunks && after.acks == Emit(net.acks, after.next, out)
    requires out.Some? ==>
               out.value.ack == SeqOf(net.iss, net.chunks, after.next) && out.value.rwnd == TCP_DEFAULT_WINDOW && out.value.payload == GET
    ensures AcksInv(after)
  {
  }

  // Answering is dequeueing, and then falling asleep or sending one acknowledgement.
  lemma AnswerShape(r: Receiver, ack: nat)
    ensures var (r1, outcome), (r2, out) := Dequeue(r), Answer(r, ack);
            && r2.rcvNxt == r1.rcvNxt && r2.queue == r1.queue && r2.ring == r1.ring && r2.capacity == r1.capacity
            && (outcome == Blocked ==> r2.asleep.Some? && out.None? && r2.blocks == r1.blocks)
            && (outcome != Blocked ==> r2.asleep.None? && out.Some? && (OnlyGets(r1.blocks) ==> OnlyGets(r2.blocks)))
  {
  }

  // What any reaction that amounts to dequeueing does, in chunk numbers: the run at the head of
  // the queue is delivered, and then the receiver acknowledges unless it sleeps before the next chunk.
  lemma AnswerEffect(net: Net, r: Receiver, held: seq<nat>, ack: nat)
    requires Proper(net.chunks) && Reflects(net.iss, net.chunks, r, held, net.next, net.read)
    ensures var c := RunLength(net.chunks, held, net.next, Room(r));
            var after := Reacted(net, held, Answer(r, ack));
            && after.next == net.next + c && after.late == held[c..]
            && Reflects(net.iss, net.chunks, after.rcv, after.late, after.next, net.read)
            && after.rcv.capacity == r.capacity && (OnlyGets(r.blocks) ==> OnlyGets(after.rcv.blocks))
            && after.acks == Emit(net.acks, after.next, Answer(r, ack).1)
            && if Answer(r, ack).1.None? then after.rcv.asleep.Some? && after.late != [] && after.late[0] == after.next
               else after.rcv.asleep.None?
  {
    var c, rest := DequeueByIndex(net.iss, net.chunks, r, held, net.next, net.read);
    var after := Reacted(net, held, Answer(r, ack));
    AnswerShape(r, ack);
    DequeueKeepsSending(r);
    assert |Dequeue(r).0.queue| == |held| - c;
    ReflectsSame(net.iss, net.chunks, Dequeue(r).0, after.rcv, held[c..], net.next + c, net.read);
  }

  // The receiver's side of any such reaction.
  lemma AnswerKeepsInv(net: Net, r: Receiver, held: seq<nat>, ack: nat)
    requires Inv(net) && Reflects(net.iss, net.chunks, r, held, net.next, net.read) && OnlyGets(r.blocks)
    ensures Inv(Reacted(net, held, Answer(r, ack)))
  {
    AnswerEffect(net, r, held, ack);
    AcksKept(net, Reacted(net, held, Answer(r, ack)), Answer(r, ack).1);
  }

  lemma AckAgainKeepsInv(net: Net)
    requires Inv(net) && Enabled(net, AckAgain)
    ensures Inv(Step(net, AckAgain))
  {
    AcksKept(net, Step(net, AckAgain), Retransmission(SendHalf(net.rcv)));
  }

  lemma ReadKeepsInv(net: Net, n: nat)
    requires Inv(net) && Enabled(net, Read(n))
    ensures Inv(Step(net, Read(n)))
  {
    var k := Min(|net.rcv.ring|, n);
    assert net.rcv.ring == net.rcv.ring[..k] + net.rcv.ring[k..];
    assert net.read + net.rcv.ring[..k] + net.rcv.ring[k..] == net.read + net.rcv.ring;
  }

  // A segment at or past what the receiver expects joins the queue at its chunk number's place.
  lemma JoinsQueue(net: Net, w: Wire)
    requires Inv(net) && w in net.data && net.next <= w.idx
    ensures Reflects(net.iss, net.chunks,
                     net.rcv.(queue := Enqueue(net.rcv.queue, Block(w.seg.seqNo, w.seg.payload))),
                     InsertIndex(net.late, w.idx), net.next, net.read)
  {
    EnqueueByIndex(net.iss, net.chunks, net.late, w.idx, net.next);
    InsertIndexSorted(net.late, w.idx);
    InsertIndexMembers(net.late, w.idx);
    var held := InsertIndex(net.late, w.idx);
    forall j | 0 <= j < |held|
      ensures held[j] < |net.chunks| && net.next <= held[j] + 1
    {
      assert held[j] in held;
    }
    assert Block(w.seg.seqNo, w.seg.payload) == BlockOf(net.iss, net.chunks, w.idx);
  }

  // The receiver's test for an old segment, in chunk numbers.
  lemma OldSegment(net: Net, w: Wire, behind: seq<byte>)
    requires Inv(net) && Enabled(net, ArriveData(w, behind))
    ensures LessThan(w.seg.seqNo, net.rcv.rcvNxt) <==> w.idx < net.next
  {
    OffGrows(net.chunks, w.idx, |net.chunks|);
    SeqCompare(net.iss, net.chunks, w.idx, net.next);
  }

  // A segment either is old and changes nothing, or joins the queue and is answered.
  lemma ArriveCases(net: Net, w: Wire, behind: seq<byte>)
    requires Inv(net) && Enabled(net, ArriveData(w, behind))
    ensures var after := Step(net, ArriveData(w, behind));
            var r := net.rcv.(queue := Enqueue(net.rcv.queue, Block(w.seg.seqNo, w.seg.payload)));
            if w.idx < net.next then after == net
            else
              && Reflects(net.iss, net.chunks, r, InsertIndex(net.late, w.idx), net.next, net.read)
              && after == Reacted(net, InsertIndex(net.late, w.idx), Answer(r, w.seg.ack))
  {
    OldSegment(net, w, behind);
    NeverGet(w.seg.payload, behind);
    if w.idx < net.next {
      assert Step(net, ArriveData(w, behind)) == Reacted(net, net.late, (net.rcv, None));
      assert net.late[0..] == net.late;
    } else {
      JoinsQueue(net, w);
    }
  }

  lemma ArriveKeepsInv(net: Net, w: Wire, behind: seq<byte>)
    requires Inv(net) && Enabled(net, ArriveData(w, behind))
    ensures Inv(Step(net, ArriveData(w, behind)))
  {
    ArriveCases(net, w, behind);
    if net.next <= w.idx {
      var r := net.rcv.(queue := Enqueue(net.rcv.queue, Block(w.seg.seqNo, w.seg.payload)));
      AnswerKeepsInv(net, r, InsertIndex(net.late, w.idx), w.seg.ack);
    }
  }

  lemma AckKeepsInv(net: Net, w: Wire)
    requires Inv(net) && Enabled(net, ArriveAck(w))
    ensures Inv(Step(net, ArriveAck(w)))
  {
    var n := |net.chunks|;
    KeptRange(net.iss, net.chunks, net.acked, n, w.idx);
    var a := if net.acked <= w.idx then w.idx else net.acked;
    RangeLength(net.iss, net.chunks, net.acked, n);
    RangeLength(net.iss, net.chunks, a, n);
    OffGrows(net.chunks, net.acked, a);
  }

  lemma StepKeepsInv(net: Net, e: Event)
    requires Inv(net) && Enabled(net, e) && (e.Send? ==> !MayBeGet(e.chunk))
    ensures Inv(Step(net, e))
  {
    match e
    case Send(chunk) => SendKeepsInv(net, chunk);
    case Retransmit => RetransmitKeepsInv(net);
    case ArriveData(w, behind) => ArriveKeepsInv(net, w, behind);
    case WakeUp => AnswerKeepsInv(net, net.rcv, net.late, net.rcv.asleep.value);
    case Read(n) => ReadKeepsInv(net, n);
    case AckAgain => AckAgainKeepsInv(net);
    case ArriveAck(w) => AckKeepsInv(net, w);
  }

  lemma {:induction false} RunKeepsInv(net: Net, events: seq<Event>)
    requires Inv(net) && NoMarker(events) && Run(net, events).Some?
    ensures Inv(Run(net, events).value)
    decreases |events|
  {
    if events != [] {
      StepKeepsInv(net, events[0]);
      RunKeepsInv(Step(net, events[0]), events[1..]);
    }
  }

  // ---------------------------------------------------------------- reliability

  function Stream(net: Net): seq<byte> { Concat(net.chunks) }

  // What the application has read and the ring still holds.
  function Delivered(net: Net): seq<byte> { net.read + net.rcv.ring }

  // Delivered bytes are the stream in order, up to the number the receiver expects; the sender
  // still buffers the stream from some point the receiver has reached, and no more than a window.
  ghost predicate Reliable(net: Net) {
    && Delivered(net) <= Stream(net)
    && net.rcv.rcvNxt == U32(net.iss + |Delivered(net)|)
    && |net.rcv.ring| <= net.rcv.capacity
    && net.snd.size == DataLength(net.snd.blocks) <= TCP_DEFAULT_WINDOW
    && net.snd.size <= |Stream(net)|
    && |Stream(net)| - net.snd.size <= |Delivered(net)|
    && Concat(Payloads(net.snd.blocks)) == Stream(net)[|Stream(net)| - net.snd.size..]
  }

  lemma DeliveredIsPrefix(net: Net)
    requires Inv(net)
    ensures Delivered(net) <= Stream(net) && |Delivered(net)| == Off(net.chunks, net.next)
    ensures |Stream(net)| == Off(net.chunks, |net.chunks|)
  {
    assert net.chunks[..|net.chunks|] == net.chunks;
    ConcatPrefix(net.chunks, net.next, |net.chunks|);
    OffIsLength(net.chunks, net.next);
    OffIsLength(net.chunks, |net.chunks|);
  }

  lemma BufferIsSuffix(net: Net)
    requires Proper(net.chunks) && SenderInv(net)
    ensures Stream(net) == Concat(net.chunks[..net.acked]) + Concat(Payloads(net.snd.blocks))
    ensures |Concat(net.chunks[..net.acked])| == Off(net.chunks, net.acked) <= Off(net.chunks, net.next)
    ensures net.snd.size == DataLength(net.snd.blocks)
  {
    assert net.chunks[..|net.chunks|] == net.chunks;
    OffIsLength(net.chunks, net.acked);
    OffGrows(net.chunks, net.acked, net.next);
    RangeLength(net.iss, net.chunks, net.acked, |net.chunks|);
    RangeIsSuffix(net.iss, net.chunks, net.acked, |net.chunks|);
  }

  lemma SuffixAt(stream: seq<byte>, a: seq<byte>, b: seq<byte>, size: nat)
    requires stream == a + b && |stream| == |a| + size
    ensures b == stream[|stream| - size..]
  {
  }

  // What the sender buffers is the end of the stream, from some point the receiver has reached.
  lemma BufferedSuffix(net: Net)
    requires Inv(net)
    ensures net.snd.size == DataLength(net.snd.blocks) <= TCP_DEFAULT_WINDOW
    ensures 0 <= net.snd.size <= |Stream(net)| && |Stream(net)| - net.snd.size <= |Delivered(net)|
    ensures Concat(Payloads(net.snd.blocks)) == Stream(net)[|Stream(net)| - net.snd.size..]
  {
    DeliveredIsPrefix(net);
    BufferIsSuffix(net);
    SuffixAt(Stream(net), Concat(net.chunks[..net.acked]), Concat(Payloads(net.snd.blocks)), net.snd.size);
  }

  lemma NumberAgrees(net: Net)
    requires Inv(net)
    ensures net.rcv.rcvNxt == U32(net.iss + |Delivered(net)|) && |net.rcv.ring| <= net.rcv.capacity
  {
    DeliveredIsPrefix(net);
  }

  lemma InvIsReliable(net: Net)
    requires Inv(net)
    ensures Reliable(net)
  {
    DeliveredIsPrefix(net);
    BufferedSuffix(net);
    NumberAgrees(net);
  }

  // The out-of-order queue is sorted by sequence number, across wrap-around.
  lemma QueueIsSorted(net: Net, i: nat, j: nat)
    requires Inv(net) && i < j < |net.rcv.queue|
    ensures LessOrEqual(net.rcv.queue[i].seqNo, net.rcv.queue[j].seqNo)
  {
    QueuedInOrder(net.iss, net.chunks, net.late[i], net.late[j], net.next);
  }

  lemma QueuedInOrder(iss: nat, chunks: Chunks, x: nat, y: nat, next: nat)
    requires Proper(chunks) && x <= y < |chunks| && next <= |chunks| && next <= x + 1
    requires Off(chunks, |chunks|) - Off(chunks, next) <= TCP_DEFAULT_WINDOW
    ensures LessOrEqual(SeqOf(iss, chunks, x), SeqOf(iss, chunks, y))
  {
    NearNext(chunks, x, next);
    NearNext(chunks, y, next);
    OffGrows(chunks, x, y);
    CompareOffsets(iss + Off(chunks, x), iss + Off(chunks, y));
  }

  // Every run whose chunks do not start with the marker delivers the written stream, however
  // packets are lost, repeated and reordered.
  lemma RunsAreReliable(iss: nat, riss: nat, events: seq<Event>)
    requires NoMarker(events) && Run(InitNet(iss, riss), events).Some?
    ensures Reliable(Run(InitNet(iss, riss), events).value)
  {
    InitInv(iss, riss);
    RunKeepsInv(InitNet(iss, riss), events);
    InvIsReliable(Run(InitNet(iss, riss), events).value);
  }
}
