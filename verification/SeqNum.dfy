/** 32-bit sequence numbers (tcp.h): wrap-around and the signed-difference comparisons. */
module SeqNum {
  const TWO32: int := 0x1_0000_0000
  const TWO31: int := 0x8000_0000

  // A word, as arithmetic on u32 leaves it.
  function U32(x: int): (w: nat)
    ensures w < TWO32
  {
    x % TWO32
  }

  // (int32_t)x, and the wrapped result of a 32-bit signed subtraction.
  function I32(x: int): (v: int)
    ensures -TWO31 <= v < TWO31
  {
    var w := U32(x);
    if w < TWO31 then w else w - TWO32
  }

  // less_than_32b and its relatives
  predicate LessThan(a: nat, b: nat) { I32(I32(a) - I32(b)) < 0 }
  predicate LessOrEqual(a: nat, b: nat) { I32(I32(a) - I32(b)) <= 0 }
  predicate GreaterThan(a: nat, b: nat) { I32(I32(a) - I32(b)) > 0 }

  lemma WrapsAway(x: int, k: int)
    ensures U32(x - TWO32 * k) == U32(x)
  {
  }

  // The signed reading of a wrapped number is off by whole turns.
  lemma WholeTurns(x: int) returns (k: int)
    ensures I32(U32(x)) == x - TWO32 * k
  {
    k := if U32(x) < TWO31 then x / TWO32 else x / TWO32 + 1;
  }

  lemma DifferenceRecovered(x: int, y: int)
    requires -TWO31 <= x - y < TWO31
    ensures I32(I32(U32(x)) - I32(U32(y))) == x - y
  {
    var j := WholeTurns(x);
    var k := WholeTurns(y);
    WrapsAway(x - y, j - k);
    assert I32(U32(x)) - I32(U32(y)) == x - y - TWO32 * (j - k);
  }

  // Positions at most 2^31 apart compare like the stream offsets they stand for.
  lemma CompareOffsets(x: int, y: int)
    requires -TWO31 <= x - y < TWO31
    ensures LessThan(U32(x), U32(y)) <==> x < y
    ensures LessOrEqual(U32(x), U32(y)) <==> x <= y
    ensures GreaterThan(U32(x), U32(y)) <==> x > y
    ensures U32(x) == U32(y) <==> x == y
  {
    DifferenceRecovered(x, y);
  }
}
