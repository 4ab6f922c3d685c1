/** What insertions and lookups do to the filled slots of a trie, and that together they answer
    like the linear scan. */
module Contents {
  import opened Wrappers
  import opened Routes
  import opened Keys
  import opened Slots

  predicate ValidContent(c: Content) {
    forall p :: p in c ==> ValidRoute(c[p])
  }

  // Keep the route that route_cmp puts on top, the one already there on a tie.
  function Improve(c: Content, p: Path, r: Route): (d: Content)
    requires ValidContent(c) && ValidRoute(r)
    ensures ValidContent(d)
  {
    if p !in c || RouteCmp(c[p], r) < 0 then c[p := r] else c
  }

  // Improve the slots base + [first], ..., base + [first + count - 1].
  function FillSlots(c: Content, base: Path, first: nat, count: nat, r: Route): (d: Content)
    requires ValidContent(c) && ValidRoute(r)
    ensures ValidContent(d)
  {
    if count == 0 then c
    else Improve(FillSlots(c, base, first, count - 1, r), base + [first + count - 1], r)
  }

  // insert_route of the 4-bit trie (and of any trie with expansion), on the filled slots.
  function Expanded(bits: nat, c: Content, r: Route): (d: Content)
    requires Width(bits) && ValidContent(c) && ValidRoute(r)
    ensures ValidContent(d)
  {
    FillSlots(c, Digits(bits, Prefix(r))[..Depth(bits, r) - 1], FirstSlot(bits, r), SlotCount(bits, r), r)
  }

  // The slots filled by inserting rs in order.
  function AllExpanded(bits: nat, rs: seq<Route>): (d: Content)
    requires Width(bits) && ValidRoutes(rs)
    ensures ValidContent(d)
  {
    if rs == [] then map[] else Expanded(bits, AllExpanded(bits, rs[..|rs| - 1]), rs[|rs| - 1])
  }

  // insert_route of the bitwise trie: one slot, kept if taken.
  function KeptFirst(c: Content, r: Route): (d: Content)
    requires ValidContent(c) && ValidRoute(r)
    ensures ValidContent(d)
  {
    var p := Digits(1, Prefix(r))[..r.maskLen];
    if p in c then c else c[p := r]
  }

  function AllKeptFirst(rs: seq<Route>): (d: Content)
    requires ValidRoutes(rs)
    ensures ValidContent(d)
  {
    if rs == [] then map[] else KeptFirst(AllKeptFirst(rs[..|rs| - 1]), rs[|rs| - 1])
  }

  // The route of the deepest filled slot among p and its prefixes.
  function Deepest(c: Content, p: Path): Option<Route> {
    if p in c then Some(c[p])
    else if p == [] then None
    else Deepest(c, p[..|p| - 1])
  }

  // c is what the insertions of rs, in order, leave in a trie of this digit width.
  ghost predicate Represents(bits: nat, c: Content, rs: seq<Route>)
    requires Width(bits)
  {
    && ValidRoutes(rs)
    && (forall p :: p in c ==> ValidRoute(c[p]))
    && (forall p {:trigger At(c, p)} {:trigger Slot(bits, rs, p)} :: At(c, p) == Slot(bits, rs, p))
  }

  lemma EmptyRepresents(bits: nat)
    requires Width(bits)
    ensures Represents(bits, map[], [])
  {
  }

  predicate InBlock(p: Path, base: Path, first: nat, count: nat) {
    |p| == |base| + 1 && p[..|base|] == base && first <= p[|base|] < first + count
  }

  lemma {:induction false} FillSlotsAt(c: Content, base: Path, first: nat, count: nat, r: Route, p: Path)
    requires ValidContent(c) && ValidRoute(r)
    ensures At(FillSlots(c, base, first, count, r), p) ==
              if InBlock(p, base, first, count) then At(Improve(c, p, r), p) else At(c, p)
    decreases count
  {
    if count > 0 {
      FillSlotsAt(c, base, first, count - 1, r, p);
      var q := base + [first + count - 1];
      assert q[..|base|] == base && q[|base|] == first + count - 1;
      if InBlock(p, base, first, count) && !InBlock(p, base, first, count - 1) {
        assert p == p[..|base|] + [p[|base|]];
      }
    }
  }

  // Inserting one more route with expansion represents the list with that route at the end.
  lemma ExpandedRepresents(bits: nat, c: Content, rs: seq<Route>, r: Route)
    requires Width(bits) && Represents(bits, c, rs) && ValidRoute(r)
    ensures Represents(bits, Expanded(bits, c, r), rs + [r])
  {
    var d := Depth(bits, r);
    var base := Digits(bits, Prefix(r))[..d - 1];
    assert (rs + [r])[..|rs|] == rs;
    forall p
      ensures At(Expanded(bits, c, r), p) == Slot(bits, rs + [r], p)
    {
      FillSlotsAt(c, base, FirstSlot(bits, r), SlotCount(bits, r), r, p);
      assert Covers(bits, r, p) <==> InBlock(p, base, FirstSlot(bits, r), SlotCount(bits, r));
      assert At(c, p) == Slot(bits, rs, p);
    }
  }

  lemma {:induction false} AllExpandedRepresents(bits: nat, rs: seq<Route>)
    requires Width(bits) && ValidRoutes(rs)
    ensures Represents(bits, AllExpanded(bits, rs), rs)
  {
    if rs == [] {
      EmptyRepresents(bits);
    } else {
      var n := |rs| - 1;
      AllExpandedRepresents(bits, rs[..n]);
      ExpandedRepresents(bits, AllExpanded(bits, rs[..n]), rs[..n], rs[n]);
      assert rs == rs[..n] + [rs[n]];
    }
  }

  // Two routes with the same slot in the bitwise trie tie.
  lemma SameBitSlotTies(s: Route, r: Route)
    requires ValidRoute(s) && ValidRoute(r) && Covers(1, s, Digits(1, Prefix(r))[..r.maskLen])
    ensures RouteCmp(s, r) == 0
  {
    PrefixTop(r, 32);
    OwnPrefixMatches(r);
    MatchesIffCovers(1, s, Prefix(r));
    NestedOrder(s, r, Prefix(r));
  }

  // The bitwise insertion is the expansion to a single slot.
  lemma KeptFirstRepresents(c: Content, rs: seq<Route>, r: Route)
    requires Represents(1, c, rs) && ValidRoute(r)
    ensures Represents(1, KeptFirst(c, r), rs + [r])
  {
    var p := Digits(1, Prefix(r))[..r.maskLen];
    var base := Digits(1, Prefix(r))[..r.maskLen - 1];
    assert p == base + [FirstSlot(1, r)];
    assert SlotCount(1, r) == 1;
    assert At(c, p) == Slot(1, rs, p);
    if p in c {
      SameBitSlotTies(c[p], r);
    }
    ExpandedRepresents(1, c, rs, r);
    assert Expanded(1, c, r) == Improve(FillSlots(c, base, FirstSlot(1, r), 0, r), p, r);
  }

  lemma {:induction false} AllKeptFirstRepresents(rs: seq<Route>)
    requires ValidRoutes(rs)
    ensures Represents(1, AllKeptFirst(rs), rs)
  {
    if rs == [] {
      EmptyRepresents(1);
    } else {
      var n := |rs| - 1;
      AllKeptFirstRepresents(rs[..n]);
      KeptFirstRepresents(AllKeptFirst(rs[..n]), rs[..n], rs[n]);
      assert rs == rs[..n] + [rs[n]];
    }
  }

  lemma {:induction false} DeepestIsLastSlotOfRoutes(bits: nat, c: Content, rs: seq<Route>, p: Path)
    requires Width(bits) && Represents(bits, c, rs)
    ensures Deepest(c, p) == LastSlot(bits, rs, p)
    decreases |p|
  {
    assert At(c, p) == Slot(bits, rs, p);
    if p != [] {
      DeepestIsLastSlotOfRoutes(bits, c, rs, p[..|p| - 1]);
    }
  }

  // A trie of either width answers every address with the route of the linear scan.
  lemma DeepestIsScan(bits: nat, c: Content, rs: seq<Route>, a: nat)
    requires Width(bits) && Represents(bits, c, rs) && a < WORD
    ensures Deepest(c, Digits(bits, a)) == Scan(rs, a)
  {
    DeepestIsLastSlotOfRoutes(bits, c, rs, Digits(bits, a));
    LastSlotIsScan(bits, rs, a);
  }

  // The bitwise and the 4-bit trie built from one list return the same route for every address.
  lemma TriesAgree(c1: Content, c4: Content, rs: seq<Route>, a: nat)
    requires Represents(1, c1, rs) && Represents(4, c4, rs) && a < WORD
    ensures Deepest(c1, Digits(1, a)) == Deepest(c4, Digits(4, a))
  {
    DeepestIsScan(1, c1, rs, a);
    DeepestIsScan(4, c4, rs, a);
  }

  lemma ShorterPrefix(p: Path, q: Path, k: nat, m: nat)
    requires k <= m <= |p| && m <= |q| && p[..m] == q[..m]
    ensures p[..k] == q[..k]
  {
    assert p[..k] == p[..m][..k] && q[..k] == q[..m][..k];
  }

  // Of two slots on one path the higher one keeps a route that compares lower.
  lemma HigherSlotLower(bits: nat, above: Route, own: Route, p: Path, k: nat)
    requires Width(bits) && ValidRoute(above) && ValidRoute(own) && k < |p|
    requires Covers(bits, above, p[..k]) && Covers(bits, own, p)
    ensures RouteCmp(above, own) < 0
  {
    var a := Prefix(own);
    PrefixTop(own, 32);
    OwnPrefixMatches(own);
    ShorterPrefix(p, Digits(bits, a), k, |p| - 1);
    MatchesIffCovers(bits, above, a);
    NestedOrder(above, own, a);
  }

  lemma {:induction false} DeepestAt(c: Content, p: Path) returns (k: nat)
    requires Deepest(c, p).Some?
    ensures k <= |p| && p[..k] in c && Deepest(c, p) == Some(c[p[..k]])
    ensures forall j :: k < j <= |p| ==> p[..j] !in c
    decreases |p|
  {
    assert p[..|p|] == p;
    if p in c {
      k := |p|;
    } else {
      var q := p[..|p| - 1];
      k := DeepestAt(c, q);
      assert forall j :: 0 <= j <= |q| ==> q[..j] == p[..j];
    }
  }

  // What leaf_push compares: a route handed down never beats the one a slot below keeps.
  lemma HandedDownLoses(bits: nat, c: Content, rs: seq<Route>, p: Path)
    requires Width(bits) && Represents(bits, c, rs) && p != [] && p in c
    requires Deepest(c, p[..|p| - 1]).Some?
    ensures ValidRoute(Deepest(c, p[..|p| - 1]).value)
    ensures RouteCmp(Deepest(c, p[..|p| - 1]).value, c[p]) < 0
  {
    var k := DeepestAt(c, p[..|p| - 1]);
    var q := p[..|p| - 1][..k];
    assert q == p[..k];
    assert At(c, q) == Slot(bits, rs, q) && At(c, p) == Slot(bits, rs, p);
    HigherSlotLower(bits, c[q], c[p], p, k);
  }
}
