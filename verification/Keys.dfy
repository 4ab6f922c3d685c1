/** An address as the path of digits a trie follows: 32 bits, or 8 groups of 4 bits. */
module Keys {
  import opened Powers
  import opened Routes

  // The first d bits of a word, as a number.
  function Top(a: nat, d: nat): nat
    requires d <= 32
  {
    Quotient(a, Pow2(32 - d))
  }

  // get_bits, including its error result for a bad range (all ones).
  function GetBits(num: nat, high: int, low: int): nat {
    if low < 0 || high > 31 then WORD - 1
    else if high < low then 0
    else Remainder(Quotient(num, Pow2(low)), Pow2(high - low + 1))
  }

  // ceil_div
  function CeilDiv(m: nat, n: nat): nat
    requires n > 0
  {
    (m + n - 1) / n
  }

  // The two digit widths the tries use.
  predicate Width(bits: nat) { bits == 1 || bits == 4 }

  // How many bits d digits take.
  function BitsIn(bits: nat, d: nat): nat
    requires Width(bits)
  {
    if bits == 1 then d else 4 * d
  }

  // keys[i] of the C code.
  function Key(bits: nat, a: nat, i: nat): nat
    requires Width(bits) && i < 32 / bits
  {
    GetBits(a, 31 - BitsIn(bits, i), 31 - BitsIn(bits, i) - bits + 1)
  }

  function Digits(bits: nat, a: nat): (p: Path)
    requires Width(bits)
    ensures |p| == 32 / bits
  {
    seq(32 / bits, i requires 0 <= i < 32 / bits => Key(bits, a, i))
  }

  lemma KeyIsDigit(bits: nat, a: nat, i: nat)
    requires Width(bits) && i < 32 / bits
    ensures BitsIn(bits, i + 1) <= 32
    ensures Key(bits, a, i) == Remainder(Top(a, BitsIn(bits, i + 1)), Pow2(bits))
    ensures Top(a, BitsIn(bits, i)) == Quotient(Top(a, BitsIn(bits, i + 1)), Pow2(bits))
  {
    var d := 32 - BitsIn(bits, i + 1);
    assert 31 - BitsIn(bits, i) - bits + 1 == d;
    Pow2Adds(d, bits);
    DivDiv(a, Pow2(d), Pow2(bits));
    assert d + bits == 32 - BitsIn(bits, i);
  }

  lemma DivModEqual(x: nat, y: nat, n: nat)
    requires n > 0
    ensures x == y <==> Quotient(x, n) == Quotient(y, n) && Remainder(x, n) == Remainder(y, n)
  {
  }

  lemma LastDigit(p: Path, q: Path, d: nat)
    requires 0 < d <= |p| && d <= |q|
    ensures p[..d] == q[..d] <==> p[..d - 1] == q[..d - 1] && p[d - 1] == q[d - 1]
  {
    assert p[..d] == p[..d - 1] + [p[d - 1]] && q[..d] == q[..d - 1] + [q[d - 1]];
  }

  // Two words agree on their first d digits exactly when they agree on their first bits.
  lemma {:induction false} SameDigits(bits: nat, a: nat, b: nat, d: nat)
    requires Width(bits) && d <= 32 / bits && a < WORD && b < WORD
    ensures BitsIn(bits, d) <= 32
    ensures Digits(bits, a)[..d] == Digits(bits, b)[..d] <==> Top(a, BitsIn(bits, d)) == Top(b, BitsIn(bits, d))
  {
    if d == 0 {
      Pow2Values();
    } else {
      SameDigits(bits, a, b, d - 1);
      KeyIsDigit(bits, a, d - 1);
      KeyIsDigit(bits, b, d - 1);
      DivModEqual(Top(a, BitsIn(bits, d)), Top(b, BitsIn(bits, d)), Pow2(bits));
      LastDigit(Digits(bits, a), Digits(bits, b), d);
    }
  }

  // ---------------------------------------------------------------- routes on digits

  // insert_deep: the level of the slots a route fills.
  function Depth(bits: nat, r: Route): (d: nat)
    requires Width(bits) && ValidRoute(r)
    ensures 1 <= d <= 32 / bits && r.maskLen <= BitsIn(bits, d) < r.maskLen + bits
  {
    CeilDiv(r.maskLen, bits)
  }

  // leaf_num: how many neighbouring slots the route fills there.
  function SlotCount(bits: nat, r: Route): nat
    requires Width(bits) && ValidRoute(r)
  {
    Pow2(BitsIn(bits, Depth(bits, r)) - r.maskLen)
  }

  // start_leaf
  function FirstSlot(bits: nat, r: Route): nat
    requires Width(bits) && ValidRoute(r)
  {
    Key(bits, Prefix(r), Depth(bits, r) - 1)
  }

  // p is one of the slots the route is expanded into.
  predicate Covers(bits: nat, r: Route, p: Path)
    requires Width(bits) && ValidRoute(r)
  {
    var d := Depth(bits, r);
    && |p| == d
    && p[..d - 1] == Digits(bits, Prefix(r))[..d - 1]
    && FirstSlot(bits, r) <= p[d - 1] < FirstSlot(bits, r) + SlotCount(bits, r)
  }

  lemma PrefixIsMultiple(r: Route, n: nat)
    requires ValidRoute(r) && n == Pow2(32 - r.maskLen)
    ensures Prefix(r) == Top(r.ip, r.maskLen) * n && Prefix(r) < WORD
  {
  }

  // Clearing the low bits keeps the bits above and makes the rest zero.
  lemma PrefixTop(r: Route, d: nat)
    requires ValidRoute(r) && r.maskLen <= d <= 32
    ensures Prefix(r) < WORD
    ensures Top(Prefix(r), d) == Top(r.ip, r.maskLen) * Pow2(d - r.maskLen)
  {
    var x, y, t := Pow2(32 - d), Pow2(d - r.maskLen), Top(r.ip, r.maskLen);
    Pow2Adds(32 - d, d - r.maskLen);
    assert 32 - d + (d - r.maskLen) == 32 - r.maskLen;
    PrefixIsMultiple(r, x * y);
    QuotientOfMultiple(t, x, y);
  }

  lemma MatchesIffSameTop(r: Route, a: nat)
    requires ValidRoute(r)
    ensures Matches(r, a) <==> Top(a, r.maskLen) == Top(r.ip, r.maskLen)
  {
    var n := Pow2(32 - r.maskLen);
    var k := Quotient(a, n) - Quotient(r.ip, n);
    assert Masked(a, r.maskLen) == Quotient(a, n) * n && Prefix(r) == Quotient(r.ip, n) * n;
    assert k * n == Quotient(a, n) * n - Quotient(r.ip, n) * n;
    NoSmallMultiple(k, n);
  }

  // In base n = x * y the last digit of q = t * x is a multiple of x, with room for x digits.
  lemma BlockFits(t: nat, x: nat, y: nat, q: nat, n: nat)
    requires x > 0 && y > 0 && n > 0 && q == t * x && n == x * y
    ensures Quotient(q, n) == Quotient(t, y) && Remainder(q, n) == Remainder(t, y) * x
    ensures Remainder(q, n) + x <= n
  {
    DivDiv(q, x, y);
    QuotientUnique(q, x, t, 0);
    SplitBelow(Remainder(t, y), x - 1, x, y);
  }

  // Digits m1 and m2 agree exactly when the multiple m1 * x plus a rest below x lies in the block at m2 * x.
  lemma SameBlock(m1: nat, rest: nat, m2: nat, x: nat)
    requires rest < x
    ensures m1 == m2 <==> m2 * x <= m1 * x + rest < m2 * x + x
  {
    assert (m1 - m2) * x == m1 * x - m2 * x;
    NoSmallMultiple(m1 - m2, x);
  }

  // T lies in the block of x numbers from q = t * x exactly when it agrees with q above its last
  // digit in base n = x * y and its last digit lies in the corresponding block of digits.
  lemma BlockOfDigits(T: nat, t: nat, x: nat, y: nat, q: nat, n: nat)
    requires x > 0 && y > 0 && n > 0 && q == t * x && n == x * y
    ensures Quotient(T, x) == t <==>
              Quotient(T, n) == Quotient(q, n) && Remainder(q, n) <= Remainder(T, n) < Remainder(q, n) + x
  {
    DivDiv(T, x, y);
    BlockFits(t, x, y, q, n);
    SameBlock(Remainder(Quotient(T, x), y), Remainder(T, x), Remainder(t, y), x);
    DivModEqual(Quotient(T, x), t, y);
  }

  // A route's slots never leave one node.
  lemma SlotsInsideNode(bits: nat, r: Route)
    requires Width(bits) && ValidRoute(r)
    ensures FirstSlot(bits, r) + SlotCount(bits, r) <= Pow2(bits)
  {
    var d := Depth(bits, r);
    var q, x := Top(Prefix(r), BitsIn(bits, d)), SlotCount(bits, r);
    KeyIsDigit(bits, Prefix(r), d - 1);
    assert FirstSlot(bits, r) == Remainder(q, Pow2(bits));
    assert Remainder(q, Pow2(bits)) + x <= Pow2(bits) by {
      var s := BitsIn(bits, d) - r.maskLen;
      PrefixTop(r, BitsIn(bits, d));
      Pow2Splits(s, bits - s, bits);
      BlockFits(Top(r.ip, r.maskLen), x, Pow2(bits - s), q, Pow2(bits));
    }
  }

  // Matching in terms of the digit the route's slots are in: the digits before are equal and
  // that digit is one of the slots.
  lemma MatchesIffDigits(bits: nat, r: Route, a: nat)
    requires Width(bits) && ValidRoute(r) && a < WORD
    ensures var d := Depth(bits, r);
            Matches(r, a) <==>
              Top(a, BitsIn(bits, d - 1)) == Top(Prefix(r), BitsIn(bits, d - 1))
              && FirstSlot(bits, r) <= Key(bits, a, d - 1) < FirstSlot(bits, r) + SlotCount(bits, r)
  {
    var d := Depth(bits, r);
    var s := BitsIn(bits, d) - r.maskLen;
    PrefixTop(r, BitsIn(bits, d));
    MatchesIffSameTop(r, a);
    KeyIsDigit(bits, a, d - 1);
    KeyIsDigit(bits, Prefix(r), d - 1);
    Pow2Splits(s, bits - s, bits);
    assert Top(a, r.maskLen) == Quotient(Top(a, BitsIn(bits, d)), Pow2(s)) by {
      Pow2Splits(32 - BitsIn(bits, d), s, 32 - r.maskLen);
      DivDiv(a, Pow2(32 - BitsIn(bits, d)), Pow2(s));
    }
    BlockOfDigits(Top(a, BitsIn(bits, d)), Top(r.ip, r.maskLen), Pow2(s), Pow2(bits - s),
                  Top(Prefix(r), BitsIn(bits, d)), Pow2(bits));
  }

  // A route matches an address exactly when the address's path goes through one of its slots.
  lemma MatchesIffCovers(bits: nat, r: Route, a: nat)
    requires Width(bits) && ValidRoute(r) && a < WORD
    ensures Matches(r, a) <==> Covers(bits, r, Digits(bits, a)[..Depth(bits, r)])
  {
    var d := Depth(bits, r);
    MatchesIffDigits(bits, r, a);
    PrefixTop(r, 32);
    SameDigits(bits, a, Prefix(r), d - 1);
    assert Digits(bits, a)[..d][..d - 1] == Digits(bits, a)[..d - 1];
  }

  lemma RemainderOfMultiple(a: nat, x: nat, y: nat)
    requires x > 0 && y > 0
    ensures x * y > 0 && Remainder(a, x) <= Remainder(a, x * y)
  {
    DivDiv(a, x, y);
    assert Remainder(Quotient(a, x), y) * x >= 0;
  }

  // Of two routes matching one address, route_cmp prefers the one with the longer mask.
  lemma NestedOrder(r1: Route, r2: Route, a: nat)
    requires ValidRoute(r1) && ValidRoute(r2) && Matches(r1, a) && Matches(r2, a)
    ensures RouteCmp(r1, r2) < 0 <==> r1.maskLen < r2.maskLen
    ensures RouteCmp(r1, r2) == 0 <==> r1.maskLen == r2.maskLen
  {
    var lo, hi := if r1.maskLen <= r2.maskLen then r1.maskLen else r2.maskLen,
                  if r1.maskLen <= r2.maskLen then r2.maskLen else r1.maskLen;
    Pow2Adds(32 - hi, hi - lo);
    RemainderOfMultiple(a, Pow2(32 - hi), Pow2(hi - lo));
    assert Masked(a, lo) <= Masked(a, hi);
  }

  lemma MaskOrder(len1: nat, len2: nat)
    requires len1 <= 32 && len2 <= 32
    ensures Mask(len1) < Mask(len2) <==> len1 < len2
  {
    if len1 < len2 {
      Pow2Grows(32 - len2, 32 - len1);
    } else if len2 < len1 {
      Pow2Grows(32 - len1, 32 - len2);
    }
  }

  lemma OwnPrefixMatches(r: Route)
    requires ValidRoute(r)
    ensures Matches(r, Prefix(r))
  {
    PrefixTop(r, r.maskLen);
    MatchesIffSameTop(r, Prefix(r));
  }
}
