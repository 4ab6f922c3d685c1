/** What the two ends keep of each other: the numbers of the acknowledgements the receiving end sends
    and buffers, and the numbers and the window an acknowledgement sets. */
module TcpAnswers {
  import opened Wrappers
  import opened SeqNum
  import opened RingBuffer
  import opened TcpState
  import opened TcpStream
  import opened TcpRun

  // ---------------------------------------------------------------- one answer

  // The k-th acknowledgement of a receiving end that starts at riss: eight bytes each.
  function AnswerNumber(riss: nat, k: nat): nat { U32(riss + 8 * k) }

  // All acknowledgements sent are buffered, numbered one behind the other, and counted.
  ghost predicate Numbered(r: Receiver, riss: nat) {
    && (forall k :: 0 <= k < |r.blocks| ==> r.blocks[k] == Block(AnswerNumber(riss, k), GET))
    && r.sndNxt == AnswerNumber(riss, |r.blocks|)
    && r.size == 8 * |r.blocks|
  }

  // Nothing is sent, or one acknowledgement of what is expected next, and its copy is buffered.
  ghost predicate AddsOne(r: Receiver, after: Receiver, out: Option<Segment>) {
    match out
    case None => after.blocks == r.blocks && after.sndNxt == r.sndNxt && after.size == r.size
    case Some(m) =>
      && m == Segment(r.sndNxt, after.rcvNxt, TCP_DEFAULT_WINDOW, GET)
      && after.blocks == r.blocks + [Block(m.seqNo, m.payload)]
      && after.sndNxt == U32(r.sndNxt + 8) && after.size == r.size + 8
  }

  // Every answer is sent once and buffered once, unless the handler falls asleep over it and keeps it.
  lemma AnswerAddsOne(r: Receiver, ack: nat)
    ensures var (after, out) := Answer(r, ack);
            AddsOne(r, after, out) && after.asleep == if out.None? then Some(ack) else None
  {
    DequeueKeepsSending(r);
  }

  // The acknowledgement number that came with it is taken if it is the later position.
  lemma AnswerTakesLater(r: Receiver, ack: nat, x: nat, y: nat)
    requires r.sndUna == U32(x) && ack == U32(y) && -TWO31 < y - x < TWO31
    ensures var (after, out) := Answer(r, ack);
            after.sndUna == if out.Some? && x < y then U32(y) else U32(x)
  {
    DequeueKeepsSending(r);
    CompareOffsets(y, x);
  }

  // A handler that slept goes on with the number its segment brought.
  lemma WakeTakesLater(r: Receiver, x: nat, y: nat)
    requires r.asleep == Some(U32(y)) && r.sndUna == U32(x) && -TWO31 < y - x < TWO31
    ensures var (after, out) := Wake(r);
            && after.sndUna == (if out.Some? && x < y then U32(y) else U32(x))
            && after.asleep == (if out.Some? then None else r.asleep)
  {
    AnswerTakesLater(r, U32(y), x, y);
    AnswerAddsOne(r, U32(y));
  }

  lemma AddsOneNumbered(r: Receiver, after: Receiver, out: Option<Segment>, riss: nat)
    requires Numbered(r, riss) && AddsOne(r, after, out)
    ensures Numbered(after, riss) && r.blocks <= after.blocks
    ensures out.Some? ==> out.value.seqNo == AnswerNumber(riss, |r.blocks|) && |after.blocks| == |r.blocks| + 1
  {
  }

  // ---------------------------------------------------------------- steps

  // An event after which the receiving end has a segment to answer.
  predicate Answers(net: Net, e: Event)
    requires Enabled(net, e)
  {
    e.WakeUp? || (e.ArriveData? && net.next <= e.w.idx)
  }

  // The acknowledgement a step sends, if any, is on its way and in the buffer.
  ghost predicate SendsOne(net: Net, after: Net, out: Option<Segment>) {
    AddsOne(net.rcv, after.rcv, out) && after.acks == Emit(net.acks, after.next, out)
  }

  // What answering does, seen from the state before the segment joined the queue.
  lemma ReactedSendsOne(net: Net, held: seq<nat>, r: Receiver, ack: nat)
    requires r.blocks == net.rcv.blocks && r.sndNxt == net.rcv.sndNxt && r.size == net.rcv.size
    ensures var after, out := Reacted(net, held, Answer(r, ack)), Answer(r, ack).1;
            SendsOne(net, after, out) && (out.None? <==> after.rcv.asleep.Some?)
  {
    AnswerAddsOne(r, ack);
  }

  lemma SegmentSendsOne(net: Net, w: Wire, behind: seq<byte>) returns (out: Option<Segment>)
    requires Inv(net) && Enabled(net, ArriveData(w, behind))
    ensures var after := Step(net, ArriveData(w, behind));
            SendsOne(net, after, out) && (out.None? <==> w.idx < net.next || after.rcv.asleep.Some?)
  {
    ArriveCases(net, w, behind);
    if w.idx < net.next {
      out := None;
    } else {
      var r := net.rcv.(queue := Enqueue(net.rcv.queue, Block(w.seg.seqNo, w.seg.payload)));
      ReactedSendsOne(net, InsertIndex(net.late, w.idx), r, w.seg.ack);
      out := Answer(r, w.seg.ack).1;
    }
  }

  // A segment that is not old, and a handler that wakes up, are answered by exactly one acknowledgement,
  // or the handler sleeps; nothing else is.
  lemma AnsweredOnce(net: Net, e: Event) returns (out: Option<Segment>)
    requires Inv(net) && Enabled(net, e) && (e.ArriveData? || e.WakeUp?)
    ensures SendsOne(net, Step(net, e), out)
    ensures out.Some? <==> Answers(net, e) && Step(net, e).rcv.asleep.None?
  {
    if e.WakeUp? {
      ReactedSendsOne(net, net.late, net.rcv, net.rcv.asleep.value);
      out := Wake(net.rcv).1;
    } else {
      out := SegmentSendsOne(net, e.w, e.behind);
    }
  }

  // ---------------------------------------------------------------- runs

  // m carries the number of an acknowledgement that has been sent.
  ghost predicate IsAnswer(m: Segment, riss: nat, sent: nat) {
    exists k: nat :: k < sent && m.seqNo == AnswerNumber(riss, k)
  }

  // The number the sending end expects: where the other end started, or the one behind the first byte
  // of some acknowledgement.
  ghost predicate Expects(nxt: nat, riss: nat, sent: nat) {
    nxt == U32(riss) || exists k: nat :: k < sent && nxt == U32(AnswerNumber(riss, k) + 1)
  }

  ghost predicate AnswersKept(net: Net, riss: nat) {
    && Numbered(net.rcv, riss)
    && (forall w :: w in net.acks ==> IsAnswer(w.seg, riss, |net.rcv.blocks|))
    && Expects(net.snd.rcvNxt, riss, |net.rcv.blocks|)
    && (forall w :: w in net.data ==> Expects(w.seg.ack, riss, |net.rcv.blocks|) && w.seg.rwnd == TCP_DEFAULT_WINDOW)
  }

  lemma MoreAnswers(net: Net, after: Net, riss: nat, out: Option<Segment>)
    requires AnswersKept(net, riss) && SendsOne(net, after, out)
    requires after.snd == net.snd && after.data == net.data
    ensures AnswersKept(after, riss)
  {
    AddsOneNumbered(net.rcv, after.rcv, out, riss);
    var n, m := |net.rcv.blocks|, |after.rcv.blocks|;
    forall w | w in after.acks
      ensures IsAnswer(w.seg, riss, m)
    {
      if w in net.acks { assert IsAnswer(w.seg, riss, n); }
    }
    StillExpects(net.snd.rcvNxt, riss, n, m);
    forall w | w in net.data
      ensures Expects(w.seg.ack, riss, m)
    {
      StillExpects(w.seg.ack, riss, n, m);
    }
  }

  lemma StillExpects(nxt: nat, riss: nat, n: nat, m: nat)
    requires Expects(nxt, riss, n) && n <= m
    ensures Expects(nxt, riss, m)
  {
  }

  lemma StepKeepsAnswers(net: Net, e: Event, riss: nat)
    requires Inv(net) && Enabled(net, e) && AnswersKept(net, riss)
    ensures AnswersKept(Step(net, e), riss)
  {
    var after := Step(net, e);
    match e
    case Send(_) =>
    case Retransmit =>
    case ArriveData(_, _) =>
      var out := AnsweredOnce(net, e);
      MoreAnswers(net, after, riss, out);
    case WakeUp =>
      var out := AnsweredOnce(net, e);
      MoreAnswers(net, after, riss, out);
    case Read(_) =>
    case AckAgain => assert net.rcv.blocks[0] == Block(AnswerNumber(riss, 0), GET);
    case ArriveAck(w) => assert IsAnswer(w.seg, riss, |net.rcv.blocks|);
  }

  lemma {:induction false} RunKeepsAnswers(net: Net, events: seq<Event>, riss: nat)
    requires Inv(net) && AnswersKept(net, riss) && NoMarker(events) && Run(net, events).Some?
    ensures AnswersKept(Run(net, events).value, riss)
    decreases |events|
  {
    if events != [] {
      StepKeepsAnswers(net, events[0], riss);
      StepKeepsInv(net, events[0]);
      RunKeepsAnswers(Step(net, events[0]), events[1..], riss);
    }
  }

  // In every run whose chunks cannot be taken for the marker, the acknowledgements sent are all
  // buffered, eight bytes each and numbered without gap from riss on; every one on its way has such a
  // number; and what the sending end expects, and acknowledges with each segment, comes from one.
  lemma AnswersNumbered(iss: nat, riss: nat, events: seq<Event>)
    requires NoMarker(events) && Run(InitNet(iss, riss), events).Some?
    ensures AnswersKept(Run(InitNet(iss, riss), events).value, riss)
  {
    InitInv(iss, riss);
    RunKeepsAnswers(InitNet(iss, riss), events, riss);
  }

  // ---------------------------------------------------------------- an acknowledgement arrives

  // Its number is the first unacknowledged one from now on, and the window it offers is taken if it
  // acknowledges nothing that has not been sent.
  lemma AckSetsWindow(s: Sender, m: Segment, a: nat, n: nat)
    requires m.ack == U32(a) && s.sndNxt == U32(n) && -TWO31 <= a - n < TWO31
    ensures HandleAck(s, m).sndUna == U32(a)
    ensures HandleAck(s, m).sndWnd == if a <= n then m.rwnd else s.sndWnd
  {
    CompareOffsets(a, n);
    CompareOffsets(a, a);
  }

  // In a run: an acknowledgement up to chunk w.idx makes that the first unacknowledged one, and its
  // window is taken.
  lemma AckTaken(net: Net, w: Wire)
    requires Inv(net) && Enabled(net, ArriveAck(w))
    ensures var snd := Step(net, ArriveAck(w)).snd;
            && snd.sndUna == SeqOf(net.iss, net.chunks, w.idx) && snd.sndWnd == w.seg.rwnd
            && snd.rcvNxt == U32(w.seg.seqNo + 1) && snd.sndNxt == net.snd.sndNxt
  {
    var n := |net.chunks|;
    OffGrows(net.chunks, w.idx, n);
    assert w.seg.ack == SeqOf(net.iss, net.chunks, w.idx) && w.seg.rwnd == TCP_DEFAULT_WINDOW;
    AckSetsWindow(net.snd, w.seg, net.iss + Off(net.chunks, w.idx), net.iss + Off(net.chunks, n));
  }
}
