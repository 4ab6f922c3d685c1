/** The receive buffer (ring_buffer.h): a bounded FIFO in an array, one byte of which stays free. */
module RingBuffer {
  import opened Powers

  type byte = x | 0 <= x < 256

  function Min(x: int, y: int): int { if x < y then x else y }

  // Positions go round at the end of the ring.
  function Wrap(x: nat, size: nat): (w: nat)
    requires 0 < size && x < 2 * size
    ensures w < size
  {
    if x < size then x else x - size
  }

  lemma ModOnce(x: nat, size: nat)
    requires 0 < size && x < 2 * size
    ensures x % size == if x < size then x else x - size
  {
    if x < size { QuotientUnique(x, size, 0, x); } else { QuotientUnique(x, size, 1, x - size); }
    assert x % size == Remainder(x, size);
  }

  // The used bytes of the ring from head on, going round its end.
  function Unrolled(data: seq<byte>, size: nat, head: nat, used: nat): (s: seq<byte>)
    requires 0 < size <= |data| && head < size && used <= size
    ensures |s| == used
  {
    seq(used, i requires 0 <= i < used => data[Wrap(head + i, size)])
  }

  // The oldest bytes as memcpy finds them: one run, or two if they go round the end.
  lemma UnrolledRuns(data: seq<byte>, size: nat, head: nat, used: nat, len: nat)
    requires 0 < size <= |data| && head < size && len <= used <= size
    ensures Unrolled(data, size, head, used)[..len] ==
              if head + len <= size then data[head..head + len] else data[head..size] + data[..head + len - size]
  {
    var runs := if head + len <= size then data[head..head + len] else data[head..size] + data[..head + len - size];
    assert |runs| == len;
    forall i | 0 <= i < len
      ensures runs[i] == data[Wrap(head + i, size)]
    {
    }
    assert Unrolled(data, size, head, used)[..len] == runs;
  }

  lemma WrapTwice(x: nat, i: nat, size: nat)
    requires 0 < size && x < 2 * size && x + i < 2 * size
    ensures Wrap(Wrap(x, size) + i, size) == Wrap(x + i, size)
  {
  }

  // Reading moves the head past what was read.
  lemma UnrolledDrop(data: seq<byte>, size: nat, head: nat, used: nat, len: nat)
    requires 0 < size <= |data| && head < size && len <= used <= size && len < size
    ensures Unrolled(data, size, Wrap(head + len, size), used - len) == Unrolled(data, size, head, used)[len..]
  {
    var now, was := Unrolled(data, size, Wrap(head + len, size), used - len), Unrolled(data, size, head, used);
    forall i | 0 <= i < used - len
      ensures now[i] == was[len + i]
    {
      WrapTwice(head + len, i, size);
    }
    SameFrom(now, was, len);
  }

  lemma SameFrom(now: seq<byte>, was: seq<byte>, len: nat)
    requires |was| == len + |now| && forall i :: 0 <= i < |now| ==> now[i] == was[len + i]
    ensures now == was[len..]
  {
  }

  // How far position k lies behind tail, going round.
  function Gap(tail: nat, k: nat, size: nat): nat
    requires tail < size && k < size
  {
    if k >= tail then k - tail else k + size - tail
  }

  // after holds src in the positions from tail on and is otherwise like before.
  ghost predicate WrittenAt(before: seq<byte>, after: seq<byte>, size: nat, tail: nat, src: seq<byte>)
    requires 0 < size <= |before| && |before| == |after| && tail < size
  {
    forall k {:trigger after[k]} :: 0 <= k < size ==>
      after[k] == if Gap(tail, k, size) < |src| then src[Gap(tail, k, size)] else before[k]
  }

  lemma GapAt(head: nat, used: nat, i: nat, size: nat)
    requires head < size && used < size && i < size
    ensures Gap(Wrap(head + used, size), Wrap(head + i, size), size) == if i < used then i + size - used else i - used
  {
  }

  // Writing at the tail appends.
  lemma UnrolledAppend(before: seq<byte>, after: seq<byte>, size: nat, head: nat, used: nat, src: seq<byte>)
    requires 0 < size <= |before| && |before| == |after| && head < size && used + |src| < size
    requires WrittenAt(before, after, size, Wrap(head + used, size), src)
    ensures Unrolled(after, size, head, used + |src|) == Unrolled(before, size, head, used) + src
  {
    var now, was := Unrolled(after, size, head, used + |src|), Unrolled(before, size, head, used);
    forall i | 0 <= i < used + |src|
      ensures now[i] == if i < used then was[i] else src[i - used]
    {
      GapAt(head, used, i, size);
    }
    SameJoined(now, was, src);
  }

  lemma SameJoined(now: seq<byte>, was: seq<byte>, src: seq<byte>)
    requires |now| == |was| + |src|
    requires forall i :: 0 <= i < |now| ==> now[i] == if i < |was| then was[i] else src[i - |was|]
    ensures now == was + src
  {
  }

  class Ring {
    const size: nat
    var head: nat
    var tail: nat
    const buf: array<byte>

    ghost predicate Valid()
      reads this
    {
      0 < size <= buf.Length && head < size && tail < size
    }

    // ring_buffer_used
    function Used(): (n: nat)
      requires Valid()
      reads this
      ensures n < size
      ensures tail == Wrap(head + n, size)
    {
      ModOnce(tail - head + size, size);
      (tail - head + size) % size
    }

    // ring_buffer_free
    function Free(): (n: nat)
      requires Valid()
      reads this
      ensures Used() + n == size - 1
    {
      size - Used() - 1
    }

    // ring_buffer_empty
    predicate IsEmpty()
      requires Valid()
      reads this
    {
      Used() == 0
    }

    // The bytes written and not yet read, oldest first.
    ghost function Contents(): (s: seq<byte>)
      requires Valid()
      reads this, buf
      ensures |s| == Used()
    {
      Unrolled(buf[..], size, head, Used())
    }

    // alloc_ring_buffer
    constructor (size: nat)
      requires size > 0
      ensures Valid() && this.size == size && Contents() == [] && fresh(buf)
    {
      this.size := size;
      head := 0;
      tail := 0;
      buf := new byte[size + 1](_ => 0);
    }

    // The two memcpy calls of read_ring_buffer.
    method CopyOut(len: nat) returns (out: seq<byte>)
      requires Valid() && len <= Used()
      ensures out == Contents()[..len]
    {
      UnrolledRuns(buf[..], size, head, Used(), len);
      if head + len > size {
        var right := size - head;
        var left := len - right;
        out := buf[head..head + right] + buf[..left];
      } else {
        out := buf[head..head + len];
      }
    }

    // read_ring_buffer
    method Read(n: int) returns (out: seq<byte>, len: int)
      requires Valid()
      modifies this`head
      ensures Valid() && len == Min(|old(Contents())|, n)
      ensures if len > 0 then out == old(Contents())[..len] && Contents() == old(Contents())[len..]
              else out == [] && Contents() == old(Contents())
    {
      len := Min(Used(), n);
      out := [];
      if len > 0 {
        out := CopyOut(len);
        UnrolledDrop(buf[..], size, head, Used(), len);
        head := Wrapped(head + len);
      }
    }

    // x % size, for positions less than twice round
    function Wrapped(x: nat): (w: nat)
      requires 0 < size && x < 2 * size
      ensures w == Wrap(x, size)
    {
      ModOnce(x, size);
      x % size
    }

    // memcpy into the buffer
    method CopyIn(start: nat, src: seq<byte>)
      requires start + |src| <= buf.Length
      modifies buf
      ensures forall k :: 0 <= k < buf.Length ==>
                buf[k] == if start <= k < start + |src| then src[k - start] else old(buf[k])
    {
      forall i | 0 <= i < |src| {
        buf[start + i] := src[i];
      }
    }

    // The two memcpy calls of write_ring_buffer.
    method CopyBehindTail(src: seq<byte>)
      requires Valid() && |src| < size
      modifies buf
      ensures WrittenAt(old(buf[..]), buf[..], size, tail, src)
    {
      if tail + |src| > size {
        var right := size - tail;
        CopyIn(tail, src[..right]);
        CopyIn(0, src[right..]);
      } else {
        CopyIn(tail, src);
      }
    }

    // write_ring_buffer; the source asserts its precondition
    method Write(src: seq<byte>)
      requires Valid() && |src| > 0 && Free() >= |src|
      modifies this`tail, buf
      ensures Valid() && Contents() == old(Contents()) + src
    {
      ghost var before := buf[..];
      CopyBehindTail(src);
      UnrolledAppend(before, buf[..], size, head, Used(), src);
      tail := Wrapped(tail + |src|);
    }
  }
}
