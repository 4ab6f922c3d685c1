/** The two ends of a connection as values: what the send buffer, the out-of-order queue and the
    receive buffer do on each packet. */
module TcpState {
  import opened Wrappers
  import opened SeqNum
  import opened RingBuffer

  const NORMAL_TCP_DATA_LEN: nat := 1024
  const TCP_DEFAULT_WINDOW: nat := 65535

  // A byte stream cut into what tcp_sock_write sends at a time.
  type Chunks = seq<seq<byte>>

  ghost predicate Proper(chunks: Chunks) {
    forall k :: 0 <= k < |chunks| ==> 0 < |chunks[k]| <= NORMAL_TCP_DATA_LEN
  }

  // The payload "666-get" with its terminating zero, by which the data receiver acknowledges.
  const GET: seq<byte> := [54, 54, 54, 45, 103, 101, 116, 0]

  // The comparison with "666-get", on the payload and the memory behind it: it stops at the first
  // difference or at the zero, and does not know where the payload ends.
  predicate IsGet(memory: seq<byte>) {
    GET <= memory
  }

  // A payload that begins with the marker, or that the memory behind it can complete to the marker.
  predicate MayBeGet(payload: seq<byte>) {
    GET <= payload || payload <= GET
  }

  // It depends on the memory behind the payload whether one of these is taken for the marker, and on
  // nothing else: no other payload ever is.
  lemma MayBeGetExact(payload: seq<byte>)
    ensures MayBeGet(payload) <==> exists behind :: IsGet(payload + behind)
  {
    if MayBeGet(payload) {
      var behind := if GET <= payload then [] else GET[|payload|..];
      assert IsGet(payload + behind);
    } else {
      forall behind
        ensures !IsGet(payload + behind)
      {
        NeverGet(payload, behind);
      }
    }
  }

  lemma NeverGet(payload: seq<byte>, behind: seq<byte>)
    requires !MayBeGet(payload)
    ensures !IsGet(payload + behind)
  {
  }

  // The packet fields the established state reads.
  datatype Segment = Segment(seqNo: nat, ack: nat, rwnd: nat, payload: seq<byte>)

  // tcp_buf_block and tcp_ofo_block: a payload and where it starts.
  datatype Block = Block(seqNo: nat, data: seq<byte>)

  // ---------------------------------------------------------------- sending end

  datatype Sender = Sender(
    sndUna: nat, sndNxt: nat, sndWnd: nat, rcvNxt: nat,
    blocks: seq<Block>,   // trans_buf.list
    size: int)            // trans_buf.size

  // tcp_send_data and tcp_send_packet: one segment out, and its copy at the end of the buffer.
  function SendData(s: Sender, payload: seq<byte>): Sender {
    s.(sndNxt := U32(s.sndNxt + |payload|),
       blocks := s.blocks + [Block(s.sndNxt, payload)],
       size := s.size + |payload|)
  }

  function DataSegment(s: Sender, payload: seq<byte>): Segment {
    Segment(s.sndNxt, s.rcvNxt, TCP_DEFAULT_WINDOW, payload)
  }

  // The blocks buf_ack keeps: those that do not start before the ack.
  function Kept(blocks: seq<Block>, ack: nat): seq<Block> {
    if blocks == [] then []
    else if LessThan(blocks[0].seqNo, ack) then Kept(blocks[1..], ack)
    else [blocks[0]] + Kept(blocks[1..], ack)
  }

  function DataLength(blocks: seq<Block>): nat {
    if blocks == [] then 0 else |blocks[0].data| + DataLength(blocks[1..])
  }

  lemma KeptHead(b: Block, rest: seq<Block>, ack: nat)
    ensures Kept([b] + rest, ack) == if LessThan(b.seqNo, ack) then Kept(rest, ack) else [b] + Kept(rest, ack)
    ensures DataLength([b] + rest) == |b.data| + DataLength(rest)
    ensures DataLength([b] + Kept(rest, ack)) == |b.data| + DataLength(Kept(rest, ack))
  {
    assert ([b] + rest)[1..] == rest;
    assert ([b] + Kept(rest, ack))[1..] == Kept(rest, ack);
  }

  lemma {:induction false} KeptShorter(blocks: seq<Block>, ack: nat)
    ensures DataLength(Kept(blocks, ack)) <= DataLength(blocks)
  {
    if blocks != [] {
      KeptShorter(blocks[1..], ack);
      assert blocks == [blocks[0]] + blocks[1..];
      KeptHead(blocks[0], blocks[1..], ack);
    }
  }

  lemma {:induction false} DataLengthAppend(blocks: seq<Block>, b: Block)
    ensures DataLength(blocks + [b]) == DataLength(blocks) + |b.data|
  {
    if blocks == [] {
      assert [b][1..] == [];
    } else {
      assert (blocks + [b])[1..] == blocks[1..] + [b];
      DataLengthAppend(blocks[1..], b);
    }
  }

  function Concat(chunks: seq<seq<byte>>): seq<byte> {
    if chunks == [] then [] else Concat(chunks[..|chunks| - 1]) + chunks[|chunks| - 1]
  }

  function BufAck(s: Sender, ack: nat): Sender {
    s.(blocks := Kept(s.blocks, ack), size := s.size - (DataLength(s.blocks) - DataLength(Kept(s.blocks, ack))))
  }

  // The established-state branch for an acknowledgement.
  function HandleAck(s: Sender, m: Segment): Sender {
    var s1 := s.(sndUna := m.ack, rcvNxt := U32(m.seqNo + 1));
    var s2 := if LessOrEqual(s1.sndUna, m.ack) && LessOrEqual(m.ack, s1.sndNxt) then s1.(sndWnd := m.rwnd) else s1;
    BufAck(s2, m.ack)
  }

  // buf_retrans_first: the oldest block again, with the current ack number.
  function Retransmission(s: Sender): Option<Segment> {
    if s.blocks == [] then None
    else Some(Segment(s.blocks[0].seqNo, s.rcvNxt, TCP_DEFAULT_WINDOW, s.blocks[0].data))
  }

  // ---------------------------------------------------------------- receiving end

  datatype Receiver = Receiver(
    rcvNxt: nat,
    sndUna: nat,
    sndNxt: nat,
    queue: seq<Block>,     // rcv_ofo_list
    ring: seq<byte>,       // bytes in rcv_buf
    capacity: nat,         // what rcv_buf can hold
    asleep: Option<nat>,   // the packet handler sleeps inside ofo_packet_dequeue; the ack it is handling
    sndWnd: nat,
    blocks: seq<Block>,    // trans_buf.list of this end: the acknowledgements it has sent
    size: int)

  // The socket fields the sending code works on, at the receiving end too.
  function SendHalf(r: Receiver): Sender {
    Sender(r.sndUna, r.sndNxt, r.sndWnd, r.rcvNxt, r.blocks, r.size)
  }

  function WithSendHalf(r: Receiver, s: Sender): Receiver {
    r.(sndUna := s.sndUna, sndNxt := s.sndNxt, sndWnd := s.sndWnd, rcvNxt := s.rcvNxt, blocks := s.blocks, size := s.size)
  }

  // ofo_packet_enqueue: before the first block with a greater number.
  function Enqueue(queue: seq<Block>, b: Block): seq<Block> {
    if queue == [] then [b]
    else if LessThan(b.seqNo, queue[0].seqNo) then [b] + queue
    else [queue[0]] + Enqueue(queue[1..], b)
  }

  datatype Outcome = Finished | Blocked

  // ofo_packet_dequeue: move what continues the stream into the ring, until a gap, a block that
  // is already past, or a block for which the ring lacks room.
  function Dequeue(r: Receiver): (Receiver, Outcome)
    decreases |r.queue|
  {
    if r.queue == [] then (r, Finished)
    else
      var b := r.queue[0];
      if r.rcvNxt == b.seqNo then
        if |r.ring| + |b.data| > r.capacity then (r, Blocked)
        else Dequeue(r.(rcvNxt := U32(r.rcvNxt + |b.data|), ring := r.ring + b.data, queue := r.queue[1..]))
      else (r, Finished)
  }

  // Dequeueing works on the receiving side only.
  lemma {:induction false} DequeueKeepsSending(r: Receiver)
    ensures var after := Dequeue(r).0;
            after == r.(rcvNxt := after.rcvNxt, queue := after.queue, ring := after.ring)
    decreases |r.queue|
  {
    if r.queue != [] && r.rcvNxt == r.queue[0].seqNo && |r.ring| + |r.queue[0].data| <= r.capacity {
      var b := r.queue[0];
      DequeueKeepsSending(r.(rcvNxt := U32(r.rcvNxt + |b.data|), ring := r.ring + b.data, queue := r.queue[1..]));
    }
  }

  // The data segment that carries the marker.
  function GetSegment(r: Receiver): Segment {
    DataSegment(SendHalf(r), GET)
  }

  // What a packet does to the receiver, and the acknowledgement it sends, if any.
  type Reaction = (Receiver, Option<Segment>)

  // tcp_recv_data from the dequeue on: acknowledge, unless the handler falls asleep first.
  function Answer(r: Receiver, ack: nat): Reaction {
    var (r1, outcome) := Dequeue(r);
    if outcome == Blocked then (r1.(asleep := Some(ack)), None)
    else
      var r2 := r1.(sndUna := if GreaterThan(ack, r1.sndUna) then ack else r1.sndUna, asleep := None);
      (WithSendHalf(r2, SendData(SendHalf(r2), GET)), Some(GetSegment(r2)))
  }

  // tcp_recv_data: an old segment is dropped without an acknowledgement.
  function RecvData(r: Receiver, m: Segment): Reaction {
    if LessThan(m.seqNo, r.rcvNxt) then (r, None)
    else Answer(r.(queue := Enqueue(r.queue, Block(m.seqNo, m.payload))), m.ack)
  }

  // Enqueueing adds the block and loses none.
  lemma {:induction false} EnqueueAdds(queue: seq<Block>, b: Block)
    ensures multiset(Enqueue(queue, b)) == multiset(queue) + multiset{b}
  {
    if queue != [] {
      EnqueueAdds(queue[1..], b);
      assert queue == [queue[0]] + queue[1..];
    }
  }

  ghost predicate NoEmptyBlock(queue: seq<Block>) {
    forall k :: 0 <= k < |queue| ==> |queue[k].data| > 0
  }

  lemma {:induction false} EnqueueNoEmptyBlock(queue: seq<Block>, b: Block)
    requires NoEmptyBlock(queue) && |b.data| > 0
    ensures NoEmptyBlock(Enqueue(queue, b))
  {
    if queue != [] {
      EnqueueNoEmptyBlock(queue[1..], b);
    }
  }

  // The established-state branch of tcp_process for a packet from the data sender, with what lies
  // behind its payload in memory.
  function Process(r: Receiver, m: Segment, behind: seq<byte>): Reaction {
    if |m.payload| == 0 || IsGet(m.payload + behind) then (WithSendHalf(r, HandleAck(SendHalf(r), m)), None)
    else RecvData(r, m)
  }

  // The sleeping handler wakes up and goes on where it was.
  function Wake(r: Receiver): Reaction {
    if r.asleep.None? then (r, None) else Answer(r, r.asleep.value)
  }

  // tcp_sock_read once there is something to read
  function ReadRing(r: Receiver, n: nat): Receiver {
    r.(ring := r.ring[Min(|r.ring|, n)..])
  }
}
