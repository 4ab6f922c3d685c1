/** Powers of two and the division facts behind shifting and masking 32-bit words, which this
    project keeps as naturals below 2^32. */
module Powers {

  function Pow2(n: nat): (p: nat)
    ensures p > 0
  {
    if n == 0 then 1 else 2 * Pow2(n - 1)
  }

  function Quotient(a: nat, n: nat): (q: nat)
    requires n > 0
  {
    a / n
  }

  function Remainder(a: nat, n: nat): (r: nat)
    requires n > 0
    ensures r < n && r <= a
    ensures a == Quotient(a, n) * n + r
  {
    a % n
  }

  lemma Doubled(x: nat, y: nat)
    ensures 2 * x * y == 2 * (x * y)
  {
  }

  lemma {:induction false} Pow2Adds(m: nat, n: nat)
    ensures Pow2(m + n) == Pow2(m) * Pow2(n)
  {
    if m > 0 {
      Pow2Adds(m - 1, n);
      assert m - 1 + n == m + n - 1;
      Doubled(Pow2(m - 1), Pow2(n));
    }
  }

  lemma Pow2Splits(m: nat, n: nat, sum: nat)
    requires sum == m + n
    ensures Pow2(sum) == Pow2(m) * Pow2(n)
  {
    Pow2Adds(m, n);
  }

  lemma {:induction false} Pow2Grows(m: nat, n: nat)
    requires m < n
    ensures Pow2(m) < Pow2(n)
  {
    if m + 1 < n {
      Pow2Grows(m, n - 1);
    }
  }

  lemma Pow2Values()
    ensures Pow2(1) == 2 && Pow2(2) == 4 && Pow2(3) == 8 && Pow2(4) == 16
    ensures Pow2(32) == 0x1_0000_0000
  {
    assert Pow2(8) == 256;
    Pow2Adds(8, 8);
    Pow2Adds(16, 16);
  }

  lemma NoSmallMultiple(k: int, x: int)
    requires x >= 0
    ensures k == 0 || k * x >= x || k * x <= -x
  {
    if k > 0 {
      assert (k - 1) * x >= 0;
    } else if k < 0 {
      assert (-k - 1) * x >= 0;
    }
  }

  // The quotient is the only number with a remainder in range.
  lemma QuotientUnique(a: nat, x: nat, q: nat, r: nat)
    requires x > 0 && r < x && a == q * x + r
    ensures Quotient(a, x) == q && Remainder(a, x) == r
  {
    var k := a / x - q;
    assert k * x == (a / x) * x - q * x;
    NoSmallMultiple(k, x);
  }

  lemma Regroup(q: nat, m: nat, x: nat, y: nat)
    ensures (q * y + m) * x == q * (x * y) + m * x
    ensures q * y * x == q * (x * y)
  {
    assert q * y * x == q * (x * y);
  }

  lemma SplitBelow(m: nat, r: nat, x: nat, y: nat)
    requires m < y && r < x
    ensures m * x + r < x * y
  {
    var k := y - m - 1;
    assert k * x >= 0;
    assert x * y == m * x + x + k * x by {
      assert y == m + 1 + k;
    }
  }

  lemma DivDiv(a: nat, x: nat, y: nat)
    requires x > 0 && y > 0
    ensures x * y > 0 && Quotient(a, x * y) == Quotient(Quotient(a, x), y)
    ensures Remainder(a, x * y) == Remainder(Quotient(a, x), y) * x + Remainder(a, x)
  {
    var q := Quotient(Quotient(a, x), y);
    var m := Remainder(Quotient(a, x), y);
    var r := Remainder(a, x);
    Regroup(q, m, x, y);
    SplitBelow(m, r, x, y);
    QuotientUnique(a, x * y, q, m * x + r);
  }

  lemma QuotientOfMultiple(t: nat, x: nat, y: nat)
    requires x > 0
    ensures Quotient(t * (x * y), x) == t * y
  {
    Regroup(t, 0, x, y);
    QuotientUnique(t * (x * y), x, t * y, 0);
  }
}
