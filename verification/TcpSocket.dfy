/** The sockets at both ends as objects: lists and counters updated packet by packet. */
module TcpSocket {
  import opened Wrappers
  import opened SeqNum
  import opened RingBuffer
  import opened TcpState
  import opened TcpWrite

  lemma Regrouped(xs: seq<Block>, b: Block, ys: seq<Block>)
    ensures xs + [b] + ys == xs + ([b] + ys)
  {
  }

  // The search goes on past a block that does not have a greater number.
  lemma PassOver(queue: seq<Block>, b: Block, i: nat)
    requires i < |queue| && !LessThan(b.seqNo, queue[i].seqNo)
    ensures queue[..i] + TcpState.Enqueue(queue[i..], b) == queue[..i + 1] + TcpState.Enqueue(queue[i + 1..], b)
  {
    assert queue[i..][1..] == queue[i + 1..];
    Regrouped(queue[..i], queue[i], TcpState.Enqueue(queue[i + 1..], b));
    assert queue[..i + 1] == queue[..i] + [queue[i]];
  }

  // It stops at the end or before one that does.
  lemma StopAt(queue: seq<Block>, b: Block, i: nat)
    requires i <= |queue| && (i == |queue| || LessThan(b.seqNo, queue[i].seqNo))
    ensures TcpState.Enqueue(queue[i..], b) == [b] + queue[i..]
  {
    assert i == |queue| || queue[i..][0] == queue[i];
  }

  class SendSocket {
    var sndUna: nat
    var sndNxt: nat
    var sndWnd: nat
    var rcvNxt: nat
    var blocks: seq<Block>
    var size: int

    ghost function State(): Sender
      reads this
    {
      Sender(sndUna, sndNxt, sndWnd, rcvNxt, blocks, size)
    }

    constructor (iss: nat, rcvNxt: nat)
      ensures State() == Sender(iss, iss, TCP_DEFAULT_WINDOW, rcvNxt, [], 0)
    {
      sndUna, sndNxt, sndWnd, this.rcvNxt, blocks, size := iss, iss, TCP_DEFAULT_WINDOW, rcvNxt, [], 0;
    }

    // buf_append_packet
    method AppendPacket(seqNo: nat, payload: seq<byte>)
      modifies this`blocks, this`size
      ensures State() == old(State()).(blocks := old(blocks) + [Block(seqNo, payload)], size := old(size) + |payload|)
    {
      size := size + |payload|;
      blocks := blocks + [Block(seqNo, payload)];
    }

    // tcp_send_data
    method SendData(payload: seq<byte>) returns (out: Segment)
      modifies this
      ensures State() == TcpState.SendData(old(State()), payload)
      ensures out == DataSegment(old(State()), payload)
    {
      out := Segment(sndNxt, rcvNxt, TCP_DEFAULT_WINDOW, payload);
      AppendPacket(sndNxt, payload);
      sndNxt := U32(sndNxt + |payload|);
    }

    // buf_ack
    method BufAck(ack: nat)
      modifies this`blocks, this`size
      ensures State() == TcpState.BufAck(old(State()), ack)
    {
      var i := 0;
      ghost var kept, rest := [], blocks;
      while i < |blocks|
        invariant blocks == kept + rest && |kept| == i
        invariant kept + Kept(rest, ack) == Kept(old(blocks), ack)
        invariant size == old(size) - (DataLength(old(blocks)) - DataLength(Kept(old(blocks), ack)))
                          + (DataLength(rest) - DataLength(Kept(rest, ack)))
        decreases |rest|
      {
        ghost var b, after := rest[0], rest[1..];
        assert blocks[i] == b && blocks[..i] == kept && blocks[i + 1..] == after && rest == [b] + after;
        KeptHead(b, after, ack);
        var acked := LessThan(blocks[i].seqNo, ack);
        if acked {
          size := size - |blocks[i].data|;
          blocks := blocks[..i] + blocks[i + 1..];
        } else {
          Regrouped(kept, b, Kept(after, ack));
          Regrouped(kept, b, after);
          kept := kept + [b];
          i := i + 1;
        }
        rest := after;
      }
    }

    // the established-state branch of tcp_process for an acknowledgement
    method HandleAck(m: Segment)
      modifies this
      ensures State() == TcpState.HandleAck(old(State()), m)
    {
      sndUna := m.ack;
      rcvNxt := U32(m.seqNo + 1);
      if LessOrEqual(sndUna, m.ack) && LessOrEqual(m.ack, sndNxt) {
        sndWnd := m.rwnd;
      }
      BufAck(m.ack);
    }

    // buf_retrans_first
    method RetransmitFirst() returns (out: Option<Segment>)
      ensures out == Retransmission(State())
    {
      if |blocks| == 0 {
        return None;
      }
      out := Some(Segment(blocks[0].seqNo, rcvNxt, TCP_DEFAULT_WINDOW, blocks[0].data));
    }

    // The acknowledgements that arrive at one point of tcp_sock_write.
    method TakeAcks(acks: seq<Segment>)
      modifies this
      ensures State() == HandleAcks(old(State()), acks)
    {
      for k := 0 to |acks|
        invariant State() == HandleAcks(old(State()), acks[..k])
      {
        assert acks[..k + 1][..k] == acks[..k];
        HandleAck(acks[k]);
      }
      assert acks[..|acks|] == acks;
    }

    // One batch of acknowledgements, recorded as a turn.
    method TakeTurn(ghost data: seq<byte>, arrivals: seq<seq<Segment>>, used: nat, ghost s: Sender, ghost turns: seq<Turn>)
      returns (ghost after: seq<Turn>)
      requires used < |arrivals| && Ran(s, turns, State()) && AcksIn(turns) == arrivals[..used]
      requires AsLooped(s, data, arrivals, turns) && (NextPiece(data, turns) || MustWait(s, data, turns))
      modifies this
      ensures Ran(s, after, State()) && AcksIn(after) == arrivals[..used + 1] && SentIn(after) == SentIn(turns)
      ensures AsLooped(s, data, arrivals, after) && CaughtUp(data, arrivals, after)
    {
      AsLoopedNext(s, data, arrivals, turns, Acked(arrivals[used]));
      AckedNext(s, turns, State(), arrivals[used]);
      TakeAcks(arrivals[used]);
      after := turns + [Acked(arrivals[used])];
    }

    // sleep_on(wait_send) until there is room for sendLen bytes, or for good.
    method AwaitRoom(ghost data: seq<byte>, ghost offset: nat, sendLen: nat, arrivals: seq<seq<Segment>>, used: nat,
                     ghost s: Sender, ghost turns: seq<Turn>)
      returns (ok: bool, now: nat, ghost after: seq<Turn>)
      requires CutTo(SentIn(turns), data, offset) && offset < |data| && sendLen == Min(|data| - offset, NORMAL_TCP_DATA_LEN)
      requires used <= |arrivals| && Ran(s, turns, State()) && AcksIn(turns) == arrivals[..used]
      requires AsLooped(s, data, arrivals, turns) && CaughtUp(data, arrivals, turns)
      modifies this
      ensures now <= |arrivals| && Ran(s, after, State()) && AcksIn(after) == arrivals[..now] && SentIn(after) == SentIn(turns)
      ensures AsLooped(s, data, arrivals, after) && CaughtUp(data, arrivals, after)
      ensures if ok then size + sendLen <= sndWnd else now == |arrivals| && MustWait(s, data, after)
    {
      now, after := used, turns;
      while size + sendLen > sndWnd
        invariant now <= |arrivals| && Ran(s, after, State()) && AcksIn(after) == arrivals[..now] && SentIn(after) == SentIn(turns)
        invariant AsLooped(s, data, arrivals, after) && CaughtUp(data, arrivals, after)
        decreases |arrivals| - now
      {
        assert MustWait(s, data, after);
        if now == |arrivals| {
          return false, now, after;
        }
        after := TakeTurn(data, arrivals, now, s, after);
        now := now + 1;
      }
      ok := true;
    }

    // sleep_on(wait_send) until everything is acknowledged, or for good.
    method AwaitEmpty(ghost data: seq<byte>, arrivals: seq<seq<Segment>>, used: nat, ghost s: Sender, ghost turns: seq<Turn>)
      returns (ok: bool, now: nat, ghost after: seq<Turn>)
      requires CutTo(SentIn(turns), data, |data|)
      requires used <= |arrivals| && Ran(s, turns, State()) && AcksIn(turns) == arrivals[..used] && AsLooped(s, data, arrivals, turns)
      modifies this
      ensures now <= |arrivals| && Ran(s, after, State()) && AcksIn(after) == arrivals[..now] && SentIn(after) == SentIn(turns)
      ensures AsLooped(s, data, arrivals, after)
      ensures if ok then size <= 0 else now == |arrivals| && MustWait(s, data, after)
    {
      now, after := used, turns;
      while size > 0
        invariant now <= |arrivals| && Ran(s, after, State()) && AcksIn(after) == arrivals[..now] && SentIn(after) == SentIn(turns)
        invariant AsLooped(s, data, arrivals, after)
        decreases |arrivals| - now
      {
        assert MustWait(s, data, after);
        if now == |arrivals| {
          return false, now, after;
        }
        after := TakeTurn(data, arrivals, now, s, after);
        now := now + 1;
      }
      ok := true;
    }

    // The next piece leaves.
    method SendPiece(data: seq<byte>, offset: nat, sendLen: nat, ghost arrivals: seq<seq<Segment>>, ghost s: Sender, ghost turns: seq<Turn>)
      returns (ghost after: seq<Turn>)
      requires CutTo(SentIn(turns), data, offset) && offset < |data| && sendLen == Min(|data| - offset, NORMAL_TCP_DATA_LEN)
      requires Ran(s, turns, State()) && size + sendLen <= sndWnd
      requires AsLooped(s, data, arrivals, turns) && CaughtUp(data, arrivals, turns)
      modifies this
      ensures Ran(s, after, State()) && AcksIn(after) == AcksIn(turns) && AsLooped(s, data, arrivals, after)
      ensures CutTo(SentIn(after), data, offset + sendLen) && (offset + sendLen < |data| ==> NextPiece(data, after))
    {
      var chunk := data[offset..offset + sendLen];
      CutNext(SentIn(turns), data, offset, chunk);
      SentNext(s, turns, State(), chunk);
      AsLoopedNext(s, data, arrivals, turns, Sent(chunk));
      var segment := SendData(chunk);
      after := turns + [Sent(chunk)];
    }

    // One turn of the first loop of tcp_sock_write, with the acknowledgements that arrive in it.
    method WriteChunk(data: seq<byte>, offset: nat, arrivals: seq<seq<Segment>>, used: nat, ghost s: Sender, ghost turns: seq<Turn>)
      returns (ok: bool, sendLen: nat, now: nat, ghost after: seq<Turn>)
      requires offset < |data| && CutTo(SentIn(turns), data, offset)
      requires used <= |arrivals| && Ran(s, turns, State()) && AcksIn(turns) == arrivals[..used]
      requires AsLooped(s, data, arrivals, turns) && NextPiece(data, turns)
      modifies this
      ensures now <= |arrivals| && Ran(s, after, State()) && AcksIn(after) == arrivals[..now] && AsLooped(s, data, arrivals, after)
      ensures 0 < sendLen <= |data| - offset
      ensures if ok then CutTo(SentIn(after), data, offset + sendLen) && (offset + sendLen < |data| ==> NextPiece(data, after))
              else now == |arrivals| && MustWait(s, data, after)
    {
      now, after := used, turns;
      if now < |arrivals| {
        after := TakeTurn(data, arrivals, now, s, after);
        now := now + 1;
      } else {
        assert arrivals[..now] == arrivals;
      }
      sendLen := Min(|data| - offset, NORMAL_TCP_DATA_LEN);
      ok, now, after := AwaitRoom(data, offset, sendLen, arrivals, now, s, after);
      if ok {
        after := SendPiece(data, offset, sendLen, arrivals, s, after);
      }
    }

    // The first loop of tcp_sock_write.
    method SendPieces(data: seq<byte>, arrivals: seq<seq<Segment>>) returns (ok: bool, used: nat, ghost turns: seq<Turn>)
      modifies this
      ensures used <= |arrivals| && Ran(old(State()), turns, State()) && AcksIn(turns) == arrivals[..used]
      ensures AsLooped(old(State()), data, arrivals, turns)
      ensures if ok then CutTo(SentIn(turns), data, |data|) else used == |arrivals| && MustWait(old(State()), data, turns)
    {
      var remain: nat, offset: nat := |data|, 0;
      var sendLen;
      ok, used, turns := true, 0, [];
      ghost var s := State();
      while remain > 0
        invariant offset + remain == |data| && used <= |arrivals|
        invariant Ran(s, turns, State()) && AcksIn(turns) == arrivals[..used] && CutTo(SentIn(turns), data, offset)
        invariant AsLooped(s, data, arrivals, turns) && (offset < |data| ==> NextPiece(data, turns))
      {
        ok, sendLen, used, turns := WriteChunk(data, offset, arrivals, used, s, turns);
        if !ok {
          return;
        }
        offset := offset + sendLen;
        remain := remain - sendLen;
      }
      ok := true;
    }

    // tcp_sock_write. arrivals gives, for every turn of its loops, the acknowledgements that
    // arrive in that turn, any number of them; -1 if it still sleeps when arrivals is used up.
    // turns is what happened: the pieces of data sent, each when the window had room for it, and
    // the acknowledgements taken, before a piece or while it had to sleep.
    method Write(data: seq<byte>, arrivals: seq<seq<Segment>>) returns (rc: int, ghost turns: seq<Turn>)
      requires SizeRight(State())
      modifies this
      ensures Ran(old(State()), turns, State())
      ensures AcksIn(turns) <= arrivals && CutTo(SentIn(turns), data, Written(data, turns))
      ensures AsLooped(old(State()), data, arrivals, turns)
      ensures StaysRight(old(State()), turns)
      ensures old(size) <= old(sndWnd) && FixedWindow(arrivals, old(sndWnd)) ==> SizeBounded(old(State()), turns, old(sndWnd))
      ensures rc == 0 || rc == -1
      ensures rc == 0 ==> Written(data, turns) == |data| && size == 0
      ensures rc == -1 ==> AcksIn(turns) == arrivals && MustWait(old(State()), data, turns)
    {
      ghost var s := State();
      var ok, used;
      ok, used, turns := SendPieces(data, arrivals);
      if ok {
        ok, used, turns := AwaitEmpty(data, arrivals, used, s, turns);
      }
      Throughout(s, turns);
      AlwaysConsistent(s, turns);
      rc := if ok then 0 else -1;
    }
  }

  class ReceiveSocket {
    const snd: SendSocket   // the fields and the buffer both directions share
    var queue: seq<Block>
    const ring: Ring
    var asleep: Option<nat>

    ghost predicate Valid()
      reads this, ring
    {
      ring.Valid() && NoEmptyBlock(queue)
    }

    ghost function State(): Receiver
      requires Valid()
      reads this, snd, ring, ring.buf
    {
      Receiver(snd.rcvNxt, snd.sndUna, snd.sndNxt, queue, ring.Contents(), ring.size - 1, asleep, snd.sndWnd, snd.blocks, snd.size)
    }

    constructor (rcvNxt: nat, iss: nat)
      ensures Valid() && State() == Receiver(rcvNxt, iss, iss, [], [], TCP_DEFAULT_WINDOW - 1, None, TCP_DEFAULT_WINDOW, [], 0)
      ensures fresh(snd) && fresh(ring) && fresh(ring.buf)
    {
      queue, asleep := [], None;
      snd := new SendSocket(iss, rcvNxt);
      ring := new Ring(TCP_DEFAULT_WINDOW);
    }

    // the search of ofo_packet_enqueue for the first block with a greater number
    method PlaceFor(b: Block) returns (i: nat)
      ensures i <= |queue| && TcpState.Enqueue(queue, b) == queue[..i] + [b] + queue[i..]
    {
      i := 0;
      while i < |queue| && !LessThan(b.seqNo, queue[i].seqNo)
        invariant i <= |queue|
        invariant TcpState.Enqueue(queue, b) == queue[..i] + TcpState.Enqueue(queue[i..], b)
      {
        PassOver(queue, b, i);
        i := i + 1;
      }
      StopAt(queue, b, i);
      Regrouped(queue[..i], b, queue[i..]);
    }

    // ofo_packet_enqueue
    method Enqueue(b: Block)
      requires Valid() && |b.data| > 0
      modifies this`queue
      ensures Valid() && queue == TcpState.Enqueue(old(queue), b)
    {
      EnqueueNoEmptyBlock(queue, b);
      var i := PlaceFor(b);
      queue := queue[..i] + [b] + queue[i..];
    }

    // ofo_packet_dequeue, up to where it returns or goes to sleep
    method Dequeue() returns (outcome: Outcome)
      requires Valid()
      modifies snd`rcvNxt, this`queue, ring, ring.buf
      ensures Valid() && (State(), outcome) == TcpState.Dequeue(old(State()))
    {
      while |queue| > 0
        invariant Valid()
        invariant TcpState.Dequeue(State()) == TcpState.Dequeue(old(State()))
        decreases |queue|
      {
        if snd.rcvNxt != queue[0].seqNo {
          return Finished;
        }
        if |queue[0].data| > ring.Free() {
          return Blocked;
        }
        ring.Write(queue[0].data);
        snd.rcvNxt := U32(snd.rcvNxt + |queue[0].data|);
        queue := queue[1..];
      }
      outcome := Finished;
    }

    // tcp_recv_data from the dequeue on, also where a handler that slept in it resumes
    method DequeueAndAnswer(ack: nat) returns (out: Option<Segment>)
      requires Valid()
      modifies this, snd, ring, ring.buf
      ensures Valid() && (State(), out) == Answer(old(State()), ack)
    {
      var outcome := Dequeue();
      if outcome == Blocked {
        asleep := Some(ack);
        return None;
      }
      var advances := GreaterThan(ack, snd.sndUna);
      snd.sndUna := if advances then ack else snd.sndUna;
      asleep := None;
      var segment := snd.SendData(GET);
      out := Some(segment);
    }

    // tcp_recv_data
    method RecvData(m: Segment) returns (out: Option<Segment>)
      requires Valid() && |m.payload| > 0
      modifies this, snd, ring, ring.buf
      ensures Valid() && (State(), out) == TcpState.RecvData(old(State()), m)
    {
      var late := LessThan(m.seqNo, snd.rcvNxt);
      if late {
        return None;
      }
      Enqueue(Block(m.seqNo, m.payload));
      out := DequeueAndAnswer(m.ack);
    }

    // the established-state branch of tcp_process for a packet from the data sender; behind is what
    // lies behind the payload in memory
    method ProcessPacket(m: Segment, behind: seq<byte>) returns (out: Option<Segment>)
      requires Valid()
      modifies this, snd, ring, ring.buf
      ensures Valid() && (State(), out) == TcpState.Process(old(State()), m, behind)
    {
      if |m.payload| == 0 || IsGet(m.payload + behind) {
        snd.HandleAck(m);
        return None;
      }
      out := RecvData(m);
    }

    // tcp_sock_read, asleep while there is nothing to read
    method SockRead(n: nat) returns (data: seq<byte>)
      requires Valid() && n > 0 && !ring.IsEmpty()
      modifies ring
      ensures Valid() && State() == ReadRing(old(State()), n) && data + State().ring == old(State()).ring && |data| == Min(|old(State()).ring|, n)
    {
      var len;
      data, len := ring.Read(n);
    }
  }
}
