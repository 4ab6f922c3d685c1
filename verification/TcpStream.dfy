/** The written stream cut into chunks, and where the chunks start in it. */
module TcpStream {
  import opened SeqNum
  import opened RingBuffer
  import opened TcpState

  // How many bytes the first k chunks have.
  function Off(chunks: Chunks, k: nat): nat
    requires k <= |chunks|
  {
    if k == 0 then 0 else Off(chunks, k - 1) + |chunks[k - 1]|
  }

  // The sequence number chunk k starts at.
  function SeqOf(iss: nat, chunks: Chunks, k: nat): nat
    requires k <= |chunks|
  {
    U32(iss + Off(chunks, k))
  }

  function BlockOf(iss: nat, chunks: Chunks, k: nat): Block
    requires k < |chunks|
  {
    Block(SeqOf(iss, chunks, k), chunks[k])
  }

  // The blocks for chunks a, a + 1, ..., n - 1.
  function BlockRange(iss: nat, chunks: Chunks, a: nat, n: nat): seq<Block>
    requires a <= n <= |chunks|
  {
    seq(n - a, i requires 0 <= i < n - a => BlockOf(iss, chunks, a + i))
  }

  // The blocks for the chunks with the given numbers.
  function BlocksFor(iss: nat, chunks: Chunks, late: seq<nat>): seq<Block>
    requires forall j :: 0 <= j < |late| ==> late[j] < |chunks|
  {
    seq(|late|, j requires 0 <= j < |late| => BlockOf(iss, chunks, late[j]))
  }

  lemma {:induction false} OffGrows(chunks: Chunks, j: nat, k: nat)
    requires Proper(chunks) && j <= k <= |chunks|
    ensures Off(chunks, j) + (k - j) <= Off(chunks, k)
    decreases k
  {
    if j < k {
      OffGrows(chunks, j, k - 1);
    }
  }

  lemma {:induction false} OffStable(chunks: Chunks, c: seq<byte>, k: nat)
    requires k <= |chunks|
    ensures Off(chunks + [c], k) == Off(chunks, k)
    decreases k
  {
    if k > 0 {
      OffStable(chunks, c, k - 1);
    }
  }

  lemma {:induction false} OffIsLength(chunks: Chunks, k: nat)
    requires k <= |chunks|
    ensures |Concat(chunks[..k])| == Off(chunks, k)
    decreases k
  {
    if k > 0 {
      OffIsLength(chunks, k - 1);
      ConcatNext(chunks, k - 1);
    }
  }

  lemma ConcatNext(chunks: Chunks, k: nat)
    requires k < |chunks|
    ensures Concat(chunks[..k + 1]) == Concat(chunks[..k]) + chunks[k]
  {
    assert chunks[..k + 1][..k] == chunks[..k];
  }

  lemma {:induction false} ConcatPrefix(chunks: Chunks, k: nat, n: nat)
    requires k <= n <= |chunks|
    ensures Concat(chunks[..k]) <= Concat(chunks[..n])
    decreases n
  {
    if k < n {
      ConcatPrefix(chunks, k, n - 1);
      ConcatNext(chunks, n - 1);
    }
  }

  function Payloads(blocks: seq<Block>): (p: seq<seq<byte>>)
    ensures |p| == |blocks|
  {
    seq(|blocks|, i requires 0 <= i < |blocks| => blocks[i].data)
  }

  lemma OneMore(x: seq<byte>, y: seq<byte>, z: seq<byte>, c: seq<byte>)
    requires x + y == z
    ensures x + (y + c) == z + c
  {
    assert x + (y + c) == (x + y) + c;
  }

  lemma RangeNext(iss: nat, chunks: Chunks, a: nat, n: nat)
    requires a < n <= |chunks|
    ensures Payloads(BlockRange(iss, chunks, a, n)) == Payloads(BlockRange(iss, chunks, a, n - 1)) + [chunks[n - 1]]
  {
    assert BlockRange(iss, chunks, a, n)[n - 1 - a] == BlockOf(iss, chunks, n - 1);
  }

  lemma ConcatLast(cs: seq<seq<byte>>, c: seq<byte>)
    ensures Concat(cs + [c]) == Concat(cs) + c
  {
    assert (cs + [c])[..|cs|] == cs;
  }

  // The payloads of the blocks from chunk a on are the stream from there on.
  lemma {:induction false} RangeIsSuffix(iss: nat, chunks: Chunks, a: nat, n: nat)
    requires a <= n <= |chunks|
    ensures Concat(chunks[..a]) + Concat(Payloads(BlockRange(iss, chunks, a, n))) == Concat(chunks[..n])
    decreases n - a
  {
    if a == n {
      assert Payloads(BlockRange(iss, chunks, a, n)) == [];
    } else {
      var p := Payloads(BlockRange(iss, chunks, a, n - 1));
      RangeIsSuffix(iss, chunks, a, n - 1);
      ConcatNext(chunks, n - 1);
      RangeNext(iss, chunks, a, n);
      ConcatLast(p, chunks[n - 1]);
      OneMore(Concat(chunks[..a]), Concat(p), Concat(chunks[..n - 1]), chunks[n - 1]);
    }
  }

  // Sequence numbers of chunks at most 2^31 bytes apart compare like the chunk numbers.
  lemma SeqCompare(iss: nat, chunks: Chunks, j: nat, k: nat)
    requires Proper(chunks) && j <= |chunks| && k <= |chunks|
    requires -TWO31 <= Off(chunks, j) - Off(chunks, k) < TWO31
    ensures LessThan(SeqOf(iss, chunks, j), SeqOf(iss, chunks, k)) <==> j < k
    ensures SeqOf(iss, chunks, j) == SeqOf(iss, chunks, k) <==> j == k
  {
    CompareOffsets(iss + Off(chunks, j), iss + Off(chunks, k));
    if j < k {
      OffGrows(chunks, j, k);
    } else if k < j {
      OffGrows(chunks, k, j);
    }
  }

  // ---------------------------------------------------------------- buf_ack

  lemma {:induction false} RangeLength(iss: nat, chunks: Chunks, a: nat, n: nat)
    requires a <= n <= |chunks|
    ensures DataLength(BlockRange(iss, chunks, a, n)) == Off(chunks, n) - Off(chunks, a)
    decreases n - a
  {
    if a < n {
      RangeLength(iss, chunks, a, n - 1);
      assert BlockRange(iss, chunks, a, n) == BlockRange(iss, chunks, a, n - 1) + [BlockOf(iss, chunks, n - 1)];
      DataLengthAppend(BlockRange(iss, chunks, a, n - 1), BlockOf(iss, chunks, n - 1));
    }
  }

  // An ack on a chunk boundary drops exactly the blocks before it.
  lemma {:induction false} KeptRange(iss: nat, chunks: Chunks, a: nat, n: nat, ack: nat)
    requires Proper(chunks) && a <= n <= |chunks| && ack <= n
    requires Off(chunks, n) - Off(chunks, ack) <= TWO31 && Off(chunks, n) - Off(chunks, a) <= TWO31
    ensures Kept(BlockRange(iss, chunks, a, n), SeqOf(iss, chunks, ack))
         == BlockRange(iss, chunks, if a <= ack then ack else a, n)
    decreases n - a
  {
    var blocks := BlockRange(iss, chunks, a, n);
    if a < n {
      OffGrows(chunks, a, n);
      OffGrows(chunks, a, a + 1);
      OffGrows(chunks, a + 1, n);
      OffGrows(chunks, ack, n);
      SeqCompare(iss, chunks, a, ack);
      assert blocks[0] == BlockOf(iss, chunks, a) && blocks[1..] == BlockRange(iss, chunks, a + 1, n);
      KeptRange(iss, chunks, a + 1, n, ack);
      if ack <= a {
        assert [blocks[0]] + BlockRange(iss, chunks, a + 1, n) == blocks;
      }
    }
  }

  // ---------------------------------------------------------------- the out-of-order queue

  function InsertIndex(late: seq<nat>, k: nat): seq<nat> {
    if late == [] then [k]
    else if k < late[0] then [k] + late
    else [late[0]] + InsertIndex(late[1..], k)
  }

  ghost predicate Sorted(late: seq<nat>) {
    forall i, j :: 0 <= i < j < |late| ==> late[i] <= late[j]
  }

  // Chunk numbers the queue can hold while the receiver expects chunk next: none is more than one
  // behind, none is past the sender's window.
  ghost predicate InWindow(chunks: Chunks, late: seq<nat>, next: nat) {
    && next <= |chunks|
    && Off(chunks, |chunks|) - Off(chunks, next) <= TCP_DEFAULT_WINDOW
    && forall j :: 0 <= j < |late| ==> late[j] < |chunks| && next <= late[j] + 1
  }

  lemma NearNext(chunks: Chunks, k: nat, next: nat)
    requires Proper(chunks) && k <= |chunks| && next <= |chunks| && next <= k + 1
    requires Off(chunks, |chunks|) - Off(chunks, next) <= TCP_DEFAULT_WINDOW
    ensures -1024 <= Off(chunks, k) - Off(chunks, next) <= TCP_DEFAULT_WINDOW
  {
    OffGrows(chunks, k, |chunks|);
    if next <= k {
      OffGrows(chunks, next, k);
    }
  }

  lemma {:induction false} InsertIndexMembers(late: seq<nat>, k: nat)
    ensures multiset(InsertIndex(late, k)) == multiset(late) + multiset{k}
    ensures |InsertIndex(late, k)| == |late| + 1
    ensures forall x :: x in InsertIndex(late, k) <==> x == k || x in late
  {
    if late != [] && k >= late[0] {
      InsertIndexMembers(late[1..], k);
      assert late == [late[0]] + late[1..];
    }
  }

  lemma ConsSorted(first: nat, rest: seq<nat>)
    requires Sorted(rest) && forall x :: x in rest ==> first <= x
    ensures Sorted([first] + rest)
  {
    var all := [first] + rest;
    forall i, j | 0 <= i < j < |all|
      ensures all[i] <= all[j]
    {
      assert all[j] == rest[j - 1] && rest[j - 1] in rest;
    }
  }

  lemma {:induction false} InsertIndexSorted(late: seq<nat>, k: nat)
    requires Sorted(late)
    ensures Sorted(InsertIndex(late, k))
    decreases |late|
  {
    if late != [] {
      var first, rest := late[0], late[1..];
      assert late == [first] + rest;
      if k < first {
        ConsSorted(k, late);
      } else {
        InsertIndexSorted(rest, k);
        InsertIndexMembers(rest, k);
        ConsSorted(first, InsertIndex(rest, k));
      }
    }
  }

  lemma BlocksForCons(iss: nat, chunks: Chunks, k: nat, late: seq<nat>)
    requires k < |chunks| && forall j :: 0 <= j < |late| ==> late[j] < |chunks|
    ensures BlocksFor(iss, chunks, [k] + late) == [BlockOf(iss, chunks, k)] + BlocksFor(iss, chunks, late)
  {
  }

  // Insertion by sequence number, wrap-around and all, is insertion by chunk number.
  lemma {:induction false} EnqueueByIndex(iss: nat, chunks: Chunks, late: seq<nat>, k: nat, next: nat)
    requires Proper(chunks) && InWindow(chunks, late, next) && k < |chunks| && next <= k
    ensures forall j :: 0 <= j < |InsertIndex(late, k)| ==> InsertIndex(late, k)[j] < |chunks|
    ensures Enqueue(BlocksFor(iss, chunks, late), BlockOf(iss, chunks, k))
         == BlocksFor(iss, chunks, InsertIndex(late, k))
    decreases |late|
  {
    InsertIndexMembers(late, k);
    forall j | 0 <= j < |InsertIndex(late, k)|
      ensures InsertIndex(late, k)[j] < |chunks|
    {
      assert InsertIndex(late, k)[j] in InsertIndex(late, k);
    }
    if late == [] {
      BlocksForCons(iss, chunks, k, []);
    } else {
      var rest := late[1..];
      assert late == [late[0]] + rest;
      NearNext(chunks, k, next);
      NearNext(chunks, late[0], next);
      SeqCompare(iss, chunks, k, late[0]);
      BlocksForCons(iss, chunks, late[0], rest);
      if k < late[0] {
        BlocksForCons(iss, chunks, k, late);
      } else {
        EnqueueByIndex(iss, chunks, rest, k, next);
        BlocksForCons(iss, chunks, late[0], InsertIndex(rest, k));
        EnqueueSkips(BlockOf(iss, chunks, k), BlockOf(iss, chunks, late[0]), BlocksFor(iss, chunks, rest));
      }
    }
  }

  lemma EnqueueSkips(b: Block, first: Block, rest: seq<Block>)
    requires !LessThan(b.seqNo, first.seqNo)
    ensures Enqueue([first] + rest, b) == [first] + Enqueue(rest, b)
  {
    assert ([first] + rest)[1..] == rest;
  }

  // ---------------------------------------------------------------- ofo_packet_dequeue

  // How many chunks at the head of the queue continue the stream and fit the ring.
  function RunLength(chunks: Chunks, late: seq<nat>, next: nat, room: int): (c: nat)
    requires forall j :: 0 <= j < |late| ==> late[j] < |chunks|
    ensures c <= |late| && forall j :: 0 <= j < c ==> late[j] == next + j
    decreases |late|
  {
    if late == [] || late[0] != next || |chunks[next]| > room then 0
    else 1 + RunLength(chunks, late[1..], next + 1, room - |chunks[next]|)
  }

  // It ends at the end of the queue, before a gap or a duplicate, or before a chunk without room.
  lemma {:induction false} RunIsMaximal(chunks: Chunks, late: seq<nat>, next: nat, room: nat)
    requires forall j :: 0 <= j < |late| ==> late[j] < |chunks|
    ensures var c := RunLength(chunks, late, next, room);
            && (c > 0 ==> next + c <= |chunks| && Off(chunks, next + c) - Off(chunks, next) <= room)
            && (c < |late| && late[c] == next + c ==>
                  next + c + 1 <= |chunks| && Off(chunks, next + c + 1) - Off(chunks, next) > room)
    decreases |late|
  {
    var c := RunLength(chunks, late, next, room);
    if c > 0 {
      RunIsMaximal(chunks, late[1..], next + 1, room - |chunks[next]|);
    }
  }

  // r is the receiver that has delivered the first next chunks, read of them already taken by the
  // application, and holds the chunks late out of order.
  ghost predicate Reflects(iss: nat, chunks: Chunks, r: Receiver, late: seq<nat>, next: nat, read: seq<byte>) {
    && InWindow(chunks, late, next) && Sorted(late)
    && r.queue == BlocksFor(iss, chunks, late)
    && r.rcvNxt == SeqOf(iss, chunks, next)
    && read + r.ring == Concat(chunks[..next]) && |r.ring| <= r.capacity
  }

  // The head of the queue, delivered.
  function HeadDelivered(r: Receiver, b: Block): Receiver
    requires r.queue != []
  {
    r.(rcvNxt := U32(r.rcvNxt + |b.data|), ring := r.ring + b.data, queue := r.queue[1..])
  }

  lemma DeliverNext(iss: nat, chunks: Chunks, r: Receiver, late: seq<nat>, next: nat, read: seq<byte>)
    requires Proper(chunks) && Reflects(iss, chunks, r, late, next, read) && late != [] && late[0] == next
    requires |r.ring| + |chunks[next]| <= r.capacity
    ensures Reflects(iss, chunks, HeadDelivered(r, r.queue[0]), late[1..], next + 1, read)
  {
    NextInWindow(chunks, late, next);
    ConcatNext(chunks, next);
    assert read + (r.ring + chunks[next]) == read + r.ring + chunks[next];
  }

  // The test at the head of the queue, in chunk numbers.
  lemma HeadTest(iss: nat, chunks: Chunks, r: Receiver, late: seq<nat>, next: nat, read: seq<byte>)
    requires Proper(chunks) && Reflects(iss, chunks, r, late, next, read) && late != []
    ensures r.queue[0] == BlockOf(iss, chunks, late[0])
    ensures r.rcvNxt == r.queue[0].seqNo <==> late[0] == next
  {
    NearNext(chunks, late[0], next);
    SeqCompare(iss, chunks, late[0], next);
  }

  lemma DequeueMoves(r: Receiver)
    requires r.queue != [] && r.rcvNxt == r.queue[0].seqNo && |r.ring| + |r.queue[0].data| <= r.capacity
    ensures Dequeue(r) == Dequeue(HeadDelivered(r, r.queue[0]))
  {
  }

  lemma DequeueStops(r: Receiver)
    requires r.queue == [] || r.rcvNxt != r.queue[0].seqNo || |r.ring| + |r.queue[0].data| > r.capacity
    ensures Dequeue(r) == (r, if r.queue != [] && r.rcvNxt == r.queue[0].seqNo then Blocked else Finished)
  {
  }

  // What dequeueing must come to: the receiver expects chunk n, still holds the chunks rest, and its
  // handler sleeps only before the next chunk, for lack of room.
  ghost predicate RunDelivered(iss: nat, chunks: Chunks, rest: seq<nat>, n: nat, read: seq<byte>, r1: Receiver, outcome: Outcome) {
    && Reflects(iss, chunks, r1, rest, n, read)
    && (outcome == Blocked <==> rest != [] && rest[0] == n)
  }

  lemma DropMore(late: seq<nat>, c: nat)
    requires late != [] && c <= |late| - 1
    ensures late[1..][c..] == late[1 + c..]
  {
  }

  // The head of the queue continues the stream and fits.
  predicate RunGoesOn(chunks: Chunks, late: seq<nat>, next: nat, room: int)
    requires forall j :: 0 <= j < |late| ==> late[j] < |chunks|
  {
    late != [] && late[0] == next && |chunks[next]| <= room
  }

  function Room(r: Receiver): int { r.capacity - |r.ring| }

  lemma RunEnds(iss: nat, chunks: Chunks, r: Receiver, late: seq<nat>, next: nat, read: seq<byte>)
    requires Proper(chunks) && Reflects(iss, chunks, r, late, next, read) && !RunGoesOn(chunks, late, next, Room(r))
    ensures RunDelivered(iss, chunks, late, next, read, Dequeue(r).0, Dequeue(r).1)
    ensures RunLength(chunks, late, next, Room(r)) == 0
  {
    if late != [] {
      HeadTest(iss, chunks, r, late, next, read);
    }
    DequeueStops(r);
  }

  lemma RunContinues(iss: nat, chunks: Chunks, r: Receiver, late: seq<nat>, next: nat, read: seq<byte>) returns (r0: Receiver)
    requires Proper(chunks) && Reflects(iss, chunks, r, late, next, read) && RunGoesOn(chunks, late, next, Room(r))
    ensures Dequeue(r) == Dequeue(r0)
    ensures Reflects(iss, chunks, r0, late[1..], next + 1, read)
    ensures RunLength(chunks, late, next, Room(r)) == 1 + RunLength(chunks, late[1..], next + 1, Room(r0))
  {
    HeadTest(iss, chunks, r, late, next, read);
    DeliverNext(iss, chunks, r, late, next, read);
    DequeueMoves(r);
    r0 := HeadDelivered(r, r.queue[0]);
  }

  // Dequeueing moves exactly that run of c chunks into the ring, whatever the sequence numbers wrap to.
  lemma {:induction false} DequeueByIndex(iss: nat, chunks: Chunks, r: Receiver, late: seq<nat>, next: nat, read: seq<byte>)
    returns (c: nat, rest: seq<nat>)
    requires Proper(chunks) && Reflects(iss, chunks, r, late, next, read)
    ensures c == RunLength(chunks, late, next, Room(r)) && c <= |late| && rest == late[c..]
    ensures RunDelivered(iss, chunks, rest, next + c, read, Dequeue(r).0, Dequeue(r).1)
    decreases |late|
  {
    if RunGoesOn(chunks, late, next, Room(r)) {
      var r0 := RunContinues(iss, chunks, r, late, next, read);
      var more;
      more, rest := DequeueByIndex(iss, chunks, r0, late[1..], next + 1, read);
      DropMore(late, more);
      c := 1 + more;
    } else {
      RunEnds(iss, chunks, r, late, next, read);
      c, rest := 0, late;
    }
  }

  lemma NextInWindow(chunks: Chunks, late: seq<nat>, next: nat)
    requires Proper(chunks) && InWindow(chunks, late, next) && Sorted(late) && late != [] && late[0] == next
    ensures InWindow(chunks, late[1..], next + 1) && Sorted(late[1..])
  {
    OffGrows(chunks, next, next + 1);
    forall j | 0 <= j < |late[1..]|
      ensures late[1..][j] >= next
    {
      assert late[0] <= late[j + 1];
    }
  }
}
