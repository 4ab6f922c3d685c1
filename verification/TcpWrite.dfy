/** What happens to the sending end while tcp_sock_write runs: chunks go out and acknowledgements
    come in, turn by turn. */
module TcpWrite {
  import opened RingBuffer
  import opened TcpState

  // trans_buf.size is the sum of the buffered payload lengths.
  ghost predicate SizeRight(s: Sender) {
    s.size == DataLength(s.blocks)
  }

  // Acknowledgements that arrive one after the other.
  function HandleAcks(s: Sender, acks: seq<Segment>): Sender {
    if acks == [] then s else HandleAck(HandleAcks(s, acks[..|acks| - 1]), acks[|acks| - 1])
  }

  // Every acknowledgement offers this window.
  ghost predicate Offer(acks: seq<Segment>, wnd: nat) {
    forall k :: 0 <= k < |acks| ==> acks[k].rwnd == wnd
  }

  // Acknowledgements keep the size right and never make it grow.
  lemma {:induction false} AcksShrink(s: Sender, acks: seq<Segment>)
    requires SizeRight(s)
    ensures SizeRight(HandleAcks(s, acks)) && HandleAcks(s, acks).size <= s.size
    ensures Offer(acks, s.sndWnd) ==> HandleAcks(s, acks).sndWnd == s.sndWnd
    decreases |acks|
  {
    if acks != [] {
      var before := HandleAcks(s, acks[..|acks| - 1]);
      AcksShrink(s, acks[..|acks| - 1]);
      KeptShorter(before.blocks, acks[|acks| - 1].ack);
    }
  }

  // One acknowledgement after the other: what comes later finds what the earlier ones left.
  lemma {:induction false} AcksInTurn(s: Sender, first: seq<Segment>, rest: seq<Segment>)
    ensures HandleAcks(s, first + rest) == HandleAcks(HandleAcks(s, first), rest)
    ensures |rest| == 1 ==> HandleAcks(s, first + rest) == HandleAck(HandleAcks(s, first), rest[0])
    decreases |rest|
  {
    if rest == [] {
      assert first + rest == first;
    } else {
      assert (first + rest)[..|first| + |rest| - 1] == first + rest[..|rest| - 1];
      AcksInTurn(s, first, rest[..|rest| - 1]);
    }
  }

  datatype Turn = Sent(chunk: seq<byte>) | Acked(acks: seq<Segment>)

  function Replay(s: Sender, turns: seq<Turn>): Sender {
    if turns == [] then s
    else
      var before := Replay(s, turns[..|turns| - 1]);
      match turns[|turns| - 1]
      case Sent(chunk) => SendData(before, chunk)
      case Acked(acks) => HandleAcks(before, acks)
  }

  // The chunks sent, in order.
  function SentIn(turns: seq<Turn>): Chunks {
    if turns == [] then []
    else
      var before := SentIn(turns[..|turns| - 1]);
      match turns[|turns| - 1]
      case Sent(chunk) => before + [chunk]
      case Acked(_) => before
  }

  // The batches of acknowledgements taken, in order.
  function AcksIn(turns: seq<Turn>): seq<seq<Segment>> {
    if turns == [] then []
    else
      var before := AcksIn(turns[..|turns| - 1]);
      match turns[|turns| - 1]
      case Sent(_) => before
      case Acked(acks) => before + [acks]
  }

  // Every chunk was sent when the window had room for it.
  ghost predicate RoomForEach(s: Sender, turns: seq<Turn>) {
    turns == []
    || (var before, turn := turns[..|turns| - 1], turns[|turns| - 1];
        && RoomForEach(s, before)
        && (turn.Sent? ==> Replay(s, before).size + |turn.chunk| <= Replay(s, before).sndWnd))
  }

  // Every acknowledgement of every batch offers this window.
  ghost predicate FixedWindow(batches: seq<seq<Segment>>, wnd: nat) {
    forall k :: 0 <= k < |batches| ==> Offer(batches[k], wnd)
  }

  // These turns lead from s to the sender now, and each chunk was sent within the window.
  ghost predicate Ran(s: Sender, turns: seq<Turn>, now: Sender) {
    now == Replay(s, turns) && RoomForEach(s, turns)
  }

  // Sending one more chunk.
  lemma SentNext(s: Sender, turns: seq<Turn>, now: Sender, chunk: seq<byte>)
    requires Ran(s, turns, now) && now.size + |chunk| <= now.sndWnd
    ensures Ran(s, turns + [Sent(chunk)], SendData(now, chunk))
    ensures SentIn(turns + [Sent(chunk)]) == SentIn(turns) + [chunk] && AcksIn(turns + [Sent(chunk)]) == AcksIn(turns)
  {
    assert (turns + [Sent(chunk)])[..|turns|] == turns;
  }

  // Taking some acknowledgements.
  lemma AckedNext(s: Sender, turns: seq<Turn>, now: Sender, acks: seq<Segment>)
    requires Ran(s, turns, now)
    ensures Ran(s, turns + [Acked(acks)], HandleAcks(now, acks))
    ensures SentIn(turns + [Acked(acks)]) == SentIn(turns) && AcksIn(turns + [Acked(acks)]) == AcksIn(turns) + [acks]
  {
    assert (turns + [Acked(acks)])[..|turns|] == turns;
  }

  lemma ConcatSnoc(chunks: Chunks, chunk: seq<byte>)
    ensures Concat(chunks + [chunk]) == Concat(chunks) + chunk
  {
    assert (chunks + [chunk])[..|chunks|] == chunks;
  }

  // The size is right after every turn, whatever is sent and acknowledged.
  lemma {:induction false} AlwaysConsistent(s: Sender, turns: seq<Turn>)
    requires SizeRight(s)
    ensures SizeRight(Replay(s, turns))
    decreases |turns|
  {
    if turns != [] {
      var before := Replay(s, turns[..|turns| - 1]);
      AlwaysConsistent(s, turns[..|turns| - 1]);
      match turns[|turns| - 1]
      case Sent(chunk) => DataLengthAppend(before.blocks, Block(before.sndNxt, chunk));
      case Acked(acks) => AcksShrink(before, acks);
    }
  }

  // With a fixed window the buffer never outgrows it.
  lemma {:induction false} WithinWindow(s: Sender, turns: seq<Turn>)
    requires SizeRight(s) && s.size <= s.sndWnd && RoomForEach(s, turns) && FixedWindow(AcksIn(turns), s.sndWnd)
    ensures Replay(s, turns).size <= s.sndWnd == Replay(s, turns).sndWnd
    decreases |turns|
  {
    if turns != [] {
      var before := turns[..|turns| - 1];
      assert AcksIn(before) <= AcksIn(turns);
      WithinWindow(s, before);
      AlwaysConsistent(s, before);
      if turns[|turns| - 1].Acked? {
        assert AcksIn(turns)[|AcksIn(before)|] == turns[|turns| - 1].acks;
        AcksShrink(Replay(s, before), turns[|turns| - 1].acks);
      }
    }
  }

  lemma {:induction false} PrefixRoom(s: Sender, turns: seq<Turn>, k: nat)
    requires k <= |turns| && RoomForEach(s, turns)
    ensures RoomForEach(s, turns[..k]) && AcksIn(turns[..k]) <= AcksIn(turns)
    decreases |turns|
  {
    if k < |turns| {
      PrefixRoom(s, turns[..|turns| - 1], k);
      assert turns[..|turns| - 1][..k] == turns[..k];
    } else {
      assert turns[..k] == turns;
    }
  }

  // After each of the turns the size is the buffered length.
  ghost predicate StaysRight(s: Sender, turns: seq<Turn>) {
    forall k :: 0 <= k <= |turns| ==> SizeRight(Replay(s, turns[..k]))
  }

  // After each of the turns the size is at most wnd.
  ghost predicate SizeBounded(s: Sender, turns: seq<Turn>, wnd: nat) {
    forall k :: 0 <= k <= |turns| ==> Replay(s, turns[..k]).size <= wnd
  }

  // What a run of turns keeps throughout.
  lemma Throughout(s: Sender, turns: seq<Turn>)
    requires SizeRight(s) && RoomForEach(s, turns)
    ensures StaysRight(s, turns)
    ensures s.size <= s.sndWnd && FixedWindow(AcksIn(turns), s.sndWnd) ==> SizeBounded(s, turns, s.sndWnd)
  {
    forall k | 0 <= k <= |turns|
      ensures SizeRight(Replay(s, turns[..k]))
      ensures s.size <= s.sndWnd && FixedWindow(AcksIn(turns), s.sndWnd) ==> Replay(s, turns[..k]).size <= s.sndWnd
    {
      AlwaysConsistent(s, turns[..k]);
      PrefixRoom(s, turns, k);
      if s.size <= s.sndWnd && FixedWindow(AcksIn(turns), s.sndWnd) {
        WithinWindow(s, turns[..k]);
      }
    }
  }

  // The k-th piece tcp_sock_write cuts off: 1024 bytes, the last one what is left.
  function Piece(data: seq<byte>, k: nat): seq<byte>
    requires NORMAL_TCP_DATA_LEN * k <= |data|
  {
    data[NORMAL_TCP_DATA_LEN * k..Min(NORMAL_TCP_DATA_LEN * (k + 1), |data|)]
  }

  ghost predicate Pieces(chunks: Chunks, data: seq<byte>) {
    forall k :: 0 <= k < |chunks| ==> NORMAL_TCP_DATA_LEN * k < |data| && chunks[k] == Piece(data, k)
  }

  // The chunks are the first pieces of data, and end at offset.
  ghost predicate CutTo(chunks: Chunks, data: seq<byte>, offset: nat) {
    offset == Min(NORMAL_TCP_DATA_LEN * |chunks|, |data|) && Concat(chunks) == data[..offset] && Pieces(chunks, data)
  }

  lemma PiecesNext(chunks: Chunks, data: seq<byte>)
    requires Pieces(chunks, data) && NORMAL_TCP_DATA_LEN * |chunks| < |data|
    ensures Pieces(chunks + [Piece(data, |chunks|)], data)
  {
  }

  lemma TakeMore(data: seq<byte>, i: nat, j: nat)
    requires i <= j <= |data|
    ensures data[..i] + data[i..j] == data[..j]
  {
  }

  lemma CutNext(chunks: Chunks, data: seq<byte>, offset: nat, chunk: seq<byte>)
    requires CutTo(chunks, data, offset) && offset < |data|
    requires chunk == data[offset..offset + Min(|data| - offset, NORMAL_TCP_DATA_LEN)]
    ensures CutTo(chunks + [chunk], data, offset + |chunk|)
  {
    assert chunk == Piece(data, |chunks|);
    PiecesNext(chunks, data);
    ConcatSnoc(chunks, chunk);
    TakeMore(data, offset, offset + |chunk|);
  }

  // How much of data the turns have sent, if they sent the first pieces.
  function Written(data: seq<byte>, turns: seq<Turn>): (offset: nat)
    ensures offset <= |data|
  {
    Min(NORMAL_TCP_DATA_LEN * |SentIn(turns)|, |data|)
  }

  // After the turns tcp_sock_write has to sleep: the next piece does not fit the window, or
  // everything is sent and something is still unacknowledged.
  ghost predicate MustWait(s: Sender, data: seq<byte>, turns: seq<Turn>) {
    var offset, now := Written(data, turns), Replay(s, turns);
    && CutTo(SentIn(turns), data, offset)
    && if offset < |data| then now.size + Min(|data| - offset, NORMAL_TCP_DATA_LEN) > now.sndWnd else now.size > 0
  }

  // After the turns tcp_sock_write begins with another piece.
  ghost predicate NextPiece(data: seq<byte>, turns: seq<Turn>) {
    (turns == [] || turns[|turns| - 1].Sent?) && Written(data, turns) < |data|
  }

  // What arrives before a piece has been taken, or nothing more arrives.
  ghost predicate CaughtUp(data: seq<byte>, arrivals: seq<seq<Segment>>, turns: seq<Turn>) {
    NextPiece(data, turns) ==> AcksIn(turns) == arrivals
  }

  // What comes after the turns: acknowledgements only then or while it has to sleep, and a piece
  // only behind those that arrive before it.
  ghost predicate Follows(s: Sender, data: seq<byte>, arrivals: seq<seq<Segment>>, turns: seq<Turn>, turn: Turn) {
    match turn
    case Acked(_) => NextPiece(data, turns) || MustWait(s, data, turns)
    case Sent(_) => CaughtUp(data, arrivals, turns)
  }

  ghost predicate AsLooped(s: Sender, data: seq<byte>, arrivals: seq<seq<Segment>>, turns: seq<Turn>) {
    forall k :: 0 <= k < |turns| ==> Follows(s, data, arrivals, turns[..k], turns[k])
  }

  lemma AsLoopedNext(s: Sender, data: seq<byte>, arrivals: seq<seq<Segment>>, turns: seq<Turn>, turn: Turn)
    requires AsLooped(s, data, arrivals, turns) && Follows(s, data, arrivals, turns, turn)
    ensures AsLooped(s, data, arrivals, turns + [turn])
  {
    var longer := turns + [turn];
    forall k | 0 <= k < |longer|
      ensures Follows(s, data, arrivals, longer[..k], longer[k])
    {
      assert longer[..k] == turns[..k];
      if k == |turns| { assert turns[..k] == turns; }
    }
  }

  // Of two batches of acknowledgements in a row the second is taken only while it has to sleep.
  lemma SecondBatchWaited(s: Sender, data: seq<byte>, arrivals: seq<seq<Segment>>, turns: seq<Turn>, k: nat)
    requires AsLooped(s, data, arrivals, turns) && k + 1 < |turns| && turns[k].Acked? && turns[k + 1].Acked?
    ensures MustWait(s, data, turns[..k + 1])
  {
    assert turns[..k + 1][k] == turns[k] && Follows(s, data, arrivals, turns[..k + 1], turns[k + 1]);
  }

  // Every piece but the last is full, and none is empty.
  lemma CutIsProper(chunks: Chunks, data: seq<byte>, offset: nat)
    requires CutTo(chunks, data, offset)
    ensures Proper(chunks) && forall k :: 0 <= k < |chunks| - 1 ==> |chunks[k]| == NORMAL_TCP_DATA_LEN
  {
  }
}
