/** What leaf pushing frees (advance.h). The flag leaf_push returns says whether the route handed
    down has reached a leaf; a node frees its own route when none of its children reports that. */
module LeafFree {
  import opened Wrappers
  import opened Powers
  import opened Routes
  import opened Keys
  import opened Slots
  import opened Contents
  import opened TrieHeap
  import opened NibbleTrie

  predicate Childless(v: View, q: Path) {
    forall k: nat :: k < FANOUT ==> q + [k] !in v
  }

  predicate AllChildren(v: View, q: Path) {
    forall k: nat :: k < FANOUT ==> q + [k] in v
  }

  // Paths of a tree: prefixes are present, digits are in range.
  ghost predicate Closed(v: View) {
    forall q {:trigger PrefixesIn(v, q)} :: q in v ==> PrefixesIn(v, q)
  }

  ghost predicate PrefixesIn(v: View, q: Path) {
    forall d :: 0 <= d < |q| ==> q[..d] in v && q[d] < FANOUT
  }

  // Routes handed down compare lower than those kept below, as in every trie built by insertions.
  ghost predicate HandsDown(c: Content) {
    forall q {:trigger HandsLower(c, q)} :: q in c ==> HandsLower(c, q)
  }

  ghost predicate HandsLower(c: Content, q: Path)
    requires q in c
  {
    && ValidRoute(c[q])
    && (q != [] && Deepest(c, q[..|q| - 1]).Some? ==>
          ValidRoute(Deepest(c, q[..|q| - 1]).value) && RouteCmp(Deepest(c, q[..|q| - 1]).value, c[q]) < 0)
  }

  ghost function Inherited(c: Content, p: Path): Option<Route> {
    if p == [] then None else Deepest(c, p[..|p| - 1])
  }

  // The test of leaf_push: keep the node's own route rather than the one handed down.
  predicate KeepsOwn(router: Option<Route>, own: Option<Route>)
    requires router.Some? && own.Some? ==> ValidRoute(router.value) && ValidRoute(own.value)
  {
    router.None? || (own.Some? && RouteCmp(router.value, own.value) <= 0)
  }

  // Whichever route leaf_push keeps or hands on is the deepest one at or above the node.
  lemma KeepsDeepest(c: Content, p: Path)
    requires HandsDown(c)
    ensures var router, own := Inherited(c, p), At(c, p);
            && (router.Some? && own.Some? ==> ValidRoute(router.value) && ValidRoute(own.value))
            && (if KeepsOwn(router, own) then own else router) == Deepest(c, p)
  {
    if p in c { assert HandsLower(c, p); }
  }

  // A subtree is its root and the subtrees of the root's children.
  lemma BelowIsChild(v: View, p: Path, q: Path)
    requires Closed(v) && q in v && p <= q && p != q
    ensures q[|p|] < FANOUT && p + [q[|p|]] in v && p + [q[|p|]] <= q
  {
    var r := p + [q[|p|]];
    assert r <= q && PrefixesIn(v, q);
    if |r| < |q| {
      assert q[..|r|] == r;
    } else {
      assert r == q;
    }
  }

  // ---------------------------------------------------------------- the flag and the frees

  // What one call of leaf_push reports: its result, and the places whose route it frees.
  datatype Report = Report(replaced: bool, freed: set<Path>)

  ghost predicate NoDeeper(v: View, p: Path) {
    |p| <= LEVELS && (|p| == LEVELS ==> Childless(v, p))
  }

  ghost predicate Shallow(v: View) {
    forall q {:trigger NoDeeper(v, q)} :: q in v ==> NoDeeper(v, q)
  }

  // leaf_push on the subtree at p with a route handed down to it, as far as results and frees go.
  ghost function Pushing(v: View, c: Content, p: Path, router: Option<Route>): Report
    requires Shallow(v)
    requires p in v && HandsDown(c) && router == Inherited(c, p)
    decreases LEVELS - |p|, FANOUT + 1
  {
    assert NoDeeper(v, p);
    KeepsDeepest(c, p);
    var own := At(c, p);
    if Childless(v, p) then Report(!KeepsOwn(router, own), {})
    else if KeepsOwn(router, own) then
      var below := PushingChildren(v, c, p, own, FANOUT);
      Report(false, below.freed + if !below.replaced && own.Some? then {p} else {})
    else
      var below := PushingChildren(v, c, p, router, FANOUT);
      Report(below.replaced, below.freed + if own.Some? then {p} else {})
  }

  // The loop over the first n children.
  ghost function PushingChildren(v: View, c: Content, p: Path, handed: Option<Route>, n: nat): Report
    requires Shallow(v)
    requires p in v && HandsDown(c) && |p| < LEVELS && handed == Deepest(c, p) && n <= FANOUT
    decreases LEVELS - |p|, n
  {
    if n == 0 then Report(false, {})
    else
      var before := PushingChildren(v, c, p, handed, n - 1);
      assert (p + [n - 1])[..|p|] == p;
      if p + [n - 1] !in v then before
      else
        var child := Pushing(v, c, p + [n - 1], handed);
        Report(before.replaced || child.replaced, before.freed + child.freed)
  }

  ghost predicate Levelled(v: View) {
    Closed(v) && Shallow(v)
  }

  ghost predicate SamePlaces(v: View, w: View, p: Path) {
    forall q :: p <= q ==> (q in v <==> q in w)
  }

  // The report depends on the places below p only.
  lemma {:induction false} PushingFrame(v: View, w: View, c: Content, p: Path, router: Option<Route>)
    requires Levelled(v) && Levelled(w) && p in v && p in w && SamePlaces(v, w, p)
    requires HandsDown(c) && router == Inherited(c, p)
    ensures Pushing(v, c, p, router) == Pushing(w, c, p, router)
    decreases LEVELS - |p|, FANOUT + 1
  {
    assert NoDeeper(v, p);
    KeepsDeepest(c, p);
    assert Childless(v, p) <==> Childless(w, p) by {
      assert forall k: nat :: p <= p + [k];
    }
    if !Childless(v, p) {
      ChildrenFrame(v, w, c, p, if KeepsOwn(router, At(c, p)) then At(c, p) else router, FANOUT);
    }
  }

  lemma {:induction false} ChildrenFrame(v: View, w: View, c: Content, p: Path, handed: Option<Route>, n: nat)
    requires Levelled(v) && Levelled(w) && p in v && p in w && HandsDown(c) && |p| < LEVELS && handed == Deepest(c, p)
    requires n <= FANOUT && forall k: nat :: k < n ==> SamePlaces(v, w, p + [k])
    ensures PushingChildren(v, c, p, handed, n) == PushingChildren(w, c, p, handed, n)
    decreases LEVELS - |p|, n
  {
    if n > 0 {
      ChildrenFrame(v, w, c, p, handed, n - 1);
      assert (p + [n - 1])[..|p|] == p;
      assert p + [n - 1] <= p + [n - 1];
      if p + [n - 1] in v {
        PushingFrame(v, w, c, p + [n - 1], handed);
      }
    }
  }

  // ---------------------------------------------------------------- which routes are freed

  // No slot from p down to q is filled.
  ghost predicate NothingFilled(c: Content, p: Path, q: Path) {
    forall r :: p <= r <= q ==> r !in c
  }

  // A route handed down to p reaches the leaf q.
  ghost predicate ReachesLeaf(v: View, c: Content, p: Path, q: Path) {
    q in v && p <= q && Childless(v, q) && NothingFilled(c, p, q)
  }

  ghost predicate Uncovered(v: View, c: Content, p: Path) {
    exists q :: ReachesLeaf(v, c, p, q)
  }

  // The slot x is filled, and below it every way down to a leaf meets another filled slot.
  ghost predicate Covered(v: View, c: Content, x: Path) {
    x in c && !Childless(v, x) && forall k: nat :: k < FANOUT && x + [k] in v ==> !Uncovered(v, c, x + [k])
  }

  // A leaf that a route handed down to an empty inner slot reaches is below one of its children.
  lemma UncoveredIsChild(v: View, c: Content, p: Path)
    requires Levelled(v) && p in v && p !in c && !Childless(v, p)
    ensures Uncovered(v, c, p) <==> exists k: nat :: k < FANOUT && p + [k] in v && Uncovered(v, c, p + [k])
  {
    if Uncovered(v, c, p) {
      var q :| ReachesLeaf(v, c, p, q);
      BelowIsChild(v, p, q);
      assert ReachesLeaf(v, c, p + [q[|p|]], q);
    }
    if k: nat :| k < FANOUT && p + [k] in v && Uncovered(v, c, p + [k]) {
      var q :| ReachesLeaf(v, c, p + [k], q);
      forall r | p <= r <= q
        ensures r !in c
      {
        if r != p { FurtherPrefix(p, k, r, q); }
      }
      assert ReachesLeaf(v, c, p, q);
    }
  }

  lemma FurtherPrefix(p: Path, k: nat, r: Path, q: Path)
    requires p <= r <= q && p + [k] <= q && r != p
    ensures p + [k] <= r
  {
    assert r[|p|] == q[|p|] == (p + [k])[|p|];
  }

  ghost function CoveredBelow(v: View, c: Content, p: Path): set<Path> {
    set x | x in v && p <= x && Covered(v, c, x)
  }

  // The covered slots below the first n children of p.
  ghost function CoveredUnder(v: View, c: Content, p: Path, n: nat): set<Path> {
    set x | x in v && p <= x && p != x && x[|p|] < n && Covered(v, c, x)
  }

  // A route handed to the first n children of p reaches a leaf.
  ghost predicate AnyUncovered(v: View, c: Content, p: Path, n: nat) {
    exists k: nat :: k < n && p + [k] in v && Uncovered(v, c, p + [k])
  }

  lemma UnderNext(v: View, c: Content, p: Path, n: nat)
    requires Levelled(v)
    ensures CoveredUnder(v, c, p, n + 1) ==
              CoveredUnder(v, c, p, n) + if p + [n] in v then CoveredBelow(v, c, p + [n]) else {}
  {
    forall x | x in v && p <= x && p != x
      ensures x[|p|] == n <==> p + [n] <= x
      ensures p + [n] <= x ==> p + [n] in v
    {
      BelowDigit(v, p, n, x);
    }
    forall x | x in v && p + [n] <= x
      ensures p <= x && p != x
    {
      assert x[..|p|] == p;
    }
  }

  lemma AnyNext(v: View, c: Content, p: Path, n: nat)
    ensures AnyUncovered(v, c, p, n + 1) <==> AnyUncovered(v, c, p, n) || (p + [n] in v && Uncovered(v, c, p + [n]))
  {
    if AnyUncovered(v, c, p, n + 1) {
      var k: nat :| k < n + 1 && p + [k] in v && Uncovered(v, c, p + [k]);
    }
  }

  lemma BelowDigit(v: View, p: Path, n: nat, x: Path)
    requires Levelled(v) && x in v && p <= x && p != x
    ensures x[|p|] == n <==> p + [n] <= x
    ensures p + [n] <= x ==> p + [n] in v
  {
    if p + [n] <= x {
      assert (p + [n])[|p|] == n;
      BelowIsChild(v, p, x);
    }
  }

  lemma BelowSplit(v: View, c: Content, p: Path)
    requires Levelled(v) && p in v
    ensures CoveredBelow(v, c, p) == CoveredUnder(v, c, p, FANOUT) + if Covered(v, c, p) then {p} else {}
  {
    forall x | x in v && p <= x && p != x
      ensures x[|p|] < FANOUT
    {
      BelowIsChild(v, p, x);
    }
  }

  lemma {:induction false} PushingExact(v: View, c: Content, p: Path, router: Option<Route>)
    requires Levelled(v) && p in v && HandsDown(c) && router == Inherited(c, p)
    ensures Pushing(v, c, p, router).replaced <==> router.Some? && Uncovered(v, c, p)
    ensures Pushing(v, c, p, router).freed == CoveredBelow(v, c, p)
    decreases LEVELS - |p|, FANOUT + 1
  {
    assert NoDeeper(v, p);
    KeepsDeepest(c, p);
    if Childless(v, p) {
      LeafExact(v, c, p);
    } else {
      var handed := if KeepsOwn(router, At(c, p)) then At(c, p) else router;
      ChildrenExact(v, c, p, handed, FANOUT);
      BelowSplit(v, c, p);
      InnerExact(v, c, p);
    }
  }

  lemma InnerExact(v: View, c: Content, p: Path)
    requires Levelled(v) && p in v && !Childless(v, p)
    ensures Uncovered(v, c, p) <==> p !in c && AnyUncovered(v, c, p, FANOUT)
    ensures Covered(v, c, p) <==> p in c && !AnyUncovered(v, c, p, FANOUT)
  {
    if p !in c {
      UncoveredIsChild(v, c, p);
    }
  }

  lemma LeafExact(v: View, c: Content, p: Path)
    requires Levelled(v) && p in v && Childless(v, p)
    ensures Uncovered(v, c, p) <==> p !in c
    ensures CoveredBelow(v, c, p) == {}
  {
    forall x | x in v && p <= x
      ensures x == p
    {
      if x != p { BelowIsChild(v, p, x); }
    }
    if p !in c {
      forall r | p <= r <= p
        ensures r !in c
      {
        assert r == p;
      }
      assert ReachesLeaf(v, c, p, p);
    }
  }

  // One turn of the loop over the children.
  lemma ChildrenNext(v: View, c: Content, p: Path, handed: Option<Route>, n: nat)
    requires Levelled(v) && p in v && HandsDown(c) && |p| < LEVELS && handed == Deepest(c, p) && n < FANOUT
    ensures Inherited(c, p + [n]) == handed
    ensures var before := PushingChildren(v, c, p, handed, n);
            PushingChildren(v, c, p, handed, n + 1) ==
              if p + [n] !in v then before
              else
                var child := Pushing(v, c, p + [n], handed);
                Report(before.replaced || child.replaced, before.freed + child.freed)
  {
    assert (p + [n])[..|p|] == p;
  }

  // What the first n children report is exact.
  ghost predicate ExactUpTo(v: View, c: Content, p: Path, handed: Option<Route>, n: nat, r: Report) {
    (r.replaced <==> handed.Some? && AnyUncovered(v, c, p, n)) && r.freed == CoveredUnder(v, c, p, n)
  }

  // The next child is missing.
  lemma ExactWithout(v: View, c: Content, p: Path, handed: Option<Route>, n: nat, before: Report)
    requires Levelled(v) && ExactUpTo(v, c, p, handed, n, before) && p + [n] !in v
    ensures ExactUpTo(v, c, p, handed, n + 1, before)
  {
    UnderNext(v, c, p, n);
    AnyNext(v, c, p, n);
  }

  // It is there.
  lemma ExactWith(v: View, c: Content, p: Path, handed: Option<Route>, n: nat, before: Report, child: Report)
    requires Levelled(v) && ExactUpTo(v, c, p, handed, n, before) && p + [n] in v
    requires child.replaced <==> handed.Some? && Uncovered(v, c, p + [n])
    requires child.freed == CoveredBelow(v, c, p + [n])
    ensures ExactUpTo(v, c, p, handed, n + 1, Report(before.replaced || child.replaced, before.freed + child.freed))
  {
    UnderNext(v, c, p, n);
    AnyNext(v, c, p, n);
  }

  lemma {:induction false} ChildrenExact(v: View, c: Content, p: Path, handed: Option<Route>, n: nat)
    requires Levelled(v) && p in v && HandsDown(c) && |p| < LEVELS && handed == Deepest(c, p) && n <= FANOUT
    ensures ExactUpTo(v, c, p, handed, n, PushingChildren(v, c, p, handed, n))
    decreases LEVELS - |p|, n
  {
    if n > 0 {
      ChildrenExact(v, c, p, handed, n - 1);
      ChildrenNext(v, c, p, handed, n - 1);
      var before := PushingChildren(v, c, p, handed, n - 1);
      if p + [n - 1] in v {
        PushingExact(v, c, p + [n - 1], handed);
        ExactWith(v, c, p, handed, n - 1, before, Pushing(v, c, p + [n - 1], handed));
      } else {
        ExactWithout(v, c, p, handed, n - 1, before);
      }
    }
  }

  // Over the whole tree leaf_push frees the routes of exactly the covered slots.
  ghost function Freed(v: View, c: Content): set<Path>
    requires Levelled(v) && [] in v && HandsDown(c)
  {
    Pushing(v, c, [], None).freed
  }

  lemma FreedExact(v: View, c: Content)
    requires Levelled(v) && [] in v && HandsDown(c)
    ensures forall x :: x in Freed(v, c) <==> x in v && Covered(v, c, x)
  {
    PushingExact(v, c, [], None);
  }

  // ---------------------------------------------------------------- when that is harmless

  // A leaf of the pushed tree still refers to a freed route.
  ghost predicate Dangling(v: View, c: Content, x: Path, q: Path)
    requires Levelled(v) && [] in v && HandsDown(c)
  {
    x in Freed(v, c) && x in c && q in v && Childless(v, q) && Deepest(c, q) == Some(c[x])
  }

  // One route is freed in two places.
  ghost predicate FreedTwice(v: View, c: Content, x: Path, y: Path)
    requires Levelled(v) && [] in v && HandsDown(c)
  {
    x in Freed(v, c) && y in Freed(v, c) && x != y && x in c && y in c && c[x] == c[y]
  }

  // Every freed route had one slot. Equal routes are one item of the list: slots keep the first of
  // several equal ones, wherever these are expanded to.
  ghost predicate OneSlotEach(v: View, c: Content) {
    forall x, y :: x in v && Covered(v, c, x) && y in c && c[y] == c[x] ==> y == x
  }

  // A filled slot is covered, or one of the leaves at or below it keeps its route.
  lemma CoveredOrKept(v: View, c: Content, y: Path) returns (q: Path)
    requires Levelled(v) && HandsDown(c) && y in v && y in c && !Covered(v, c, y)
    ensures q in v && Childless(v, q) && Deepest(c, q) == Some(c[y])
  {
    if Childless(v, y) {
      q := y;
    } else {
      var k: nat :| k < FANOUT && y + [k] in v && Uncovered(v, c, y + [k]);
      q :| ReachesLeaf(v, c, y + [k], q);
      DeepestIsLast(c, y, q);
    }
  }

  // Nothing filled between: the deepest filled slot on the way to q is y.
  lemma {:induction false} DeepestIsLast(c: Content, y: Path, q: Path)
    requires y in c && y <= q && forall r :: y <= r <= q && r != y ==> r !in c
    ensures Deepest(c, q) == Some(c[y])
    decreases |q|
  {
    if q != y {
      var up := q[..|q| - 1];
      assert y <= up <= q;
      DeepestIsLast(c, y, up);
    }
  }

  // Nothing is freed twice and no leaf keeps a freed route, exactly when every freed route filled one
  // slot: expansion to several slots shares one item between them.
  lemma FreesSafeIff(v: View, c: Content)
    requires Levelled(v) && [] in v && HandsDown(c) && forall q :: q in c ==> q in v
    ensures (forall x, q :: !Dangling(v, c, x, q)) && (forall x, y :: !FreedTwice(v, c, x, y)) <==> OneSlotEach(v, c)
  {
    FreedExact(v, c);
    if OneSlotEach(v, c) {
      forall x, q
        ensures !Dangling(v, c, x, q)
      {
        if Dangling(v, c, x, q) { KeptElsewhere(v, c, x, q); }
      }
    } else {
      var x, y :| x in v && Covered(v, c, x) && y in c && c[y] == c[x] && y != x;
      if Covered(v, c, y) {
        assert FreedTwice(v, c, x, y);
      } else {
        var q := CoveredOrKept(v, c, y);
        assert Dangling(v, c, x, q);
      }
    }
  }

  // A leaf that keeps the route of a covered slot has it from another slot.
  lemma KeptElsewhere(v: View, c: Content, x: Path, q: Path)
    requires Levelled(v) && q in v && Childless(v, q) && Covered(v, c, x) && x in v && Deepest(c, q) == Some(c[x])
    ensures exists y :: y in c && c[y] == c[x] && y != x
  {
    var k := DeepestAt(c, q);
    var y := q[..k];
    if y == x {
      BelowIsChild(v, x, q);
      var child := x + [q[|x|]];
      forall r | child <= r <= q
        ensures r !in c
      {
        assert r == q[..|r|];
      }
      assert ReachesLeaf(v, c, child, q);
    }
  }

  lemma OneSlotOnly(r: Route, d: nat)
    requires ValidRoute(r) && r.maskLen % 4 == 0 && d == Depth(BITS, r)
    ensures SlotCount(BITS, r) == 1
  {
    assert BitsIn(BITS, d) == r.maskLen;
  }

  lemma SameEnds(x: Path, y: Path, d: nat)
    requires |x| == |y| == d > 0 && x[..d - 1] == y[..d - 1] && x[d - 1] == y[d - 1]
    ensures x == y
  {
    assert x == x[..d - 1] + [x[d - 1]] && y == y[..d - 1] + [y[d - 1]];
  }

  lemma OnlySlot(r: Route, x: Path, y: Path)
    requires ValidRoute(r) && r.maskLen % 4 == 0 && Covers(BITS, r, x) && Covers(BITS, r, y)
    ensures x == y
  {
    var d := Depth(BITS, r);
    OneSlotOnly(r, d);
    SameEnds(x, y, d);
  }

  // With mask lengths that are multiples of 4 no route is expanded, and freeing is safe.
  lemma MultiplesOfFourSafe(v: View, c: Content, rs: seq<Route>)
    requires Represents(BITS, c, rs) && forall k :: 0 <= k < |rs| ==> rs[k].maskLen % 4 == 0
    ensures OneSlotEach(v, c)
  {
    forall x, y | x in v && Covered(v, c, x) && y in c && c[y] == c[x]
      ensures y == x
    {
      assert At(c, x) == Slot(BITS, rs, x) && At(c, y) == Slot(BITS, rs, y);
      OnlySlot(c[x], x, y);
    }
  }

  // A /3 route fills two slots; two /5 routes fill all sixteen slots below the first of them.
  ghost predicate Shared(rs: seq<Route>) {
    && |rs| == 3 && ValidRoutes(rs)
    && rs[0].ip == 0 && rs[0].maskLen == 3
    && rs[1].ip == 0 && rs[1].maskLen == 5
    && rs[2].ip == 0x800_0000 && rs[2].maskLen == 5
  }

  lemma ZeroDigits(i: nat)
    requires i < 8
    ensures Key(BITS, 0, i) == 0
  {
    QuotientUnique(0, Pow2(28 - 4 * i), 0, 0);
    QuotientUnique(0, Pow2(4), 0, 0);
  }

  lemma ZeroPrefix(r: Route)
    requires ValidRoute(r) && r.ip == 0
    ensures Prefix(r) == 0
  {
  }

  lemma EightParts(x: nat, p24: nat, p27: nat, p28: nat)
    requires p27 == x > 0 && p28 == 2 * x && x == 8 * p24
    ensures Remainder(x, p27) == 0 && Quotient(x, p28) == 0 && Quotient(x, p24) == 8
  {
    QuotientUnique(x, p27, 1, 0);
    QuotientUnique(x, p28, 0, x);
    QuotientUnique(x, p24, 8, 0);
  }

  lemma BelowSixteen(x: nat, n: nat)
    requires x < n
    ensures Remainder(x, n) == x
  {
    QuotientUnique(x, n, 0, x);
  }

  lemma EightPrefix(r: Route, x: nat)
    requires x == Pow2(27) && r.ip == x && r.maskLen == 5 && ValidRoute(r)
    ensures Prefix(r) == x && Key(BITS, x, 0) == 0 && Key(BITS, x, 1) == 8
  {
    Pow2Adds(27, 1);
    Pow2Adds(24, 3);
    Pow2Values();
    EightParts(x, Pow2(24), Pow2(27), Pow2(28));
    BelowSixteen(0, Pow2(4));
    BelowSixteen(8, Pow2(4));
  }

  // Coverage, given where the route starts and how many slots it fills.
  lemma CoversAs(r: Route, d: nat, first: nat, count: nat, head: Path, p: Path)
    requires ValidRoute(r) && d == Depth(BITS, r) && first == FirstSlot(BITS, r) && count == SlotCount(BITS, r)
    requires head == Digits(BITS, Prefix(r))[..d - 1]
    ensures Covers(BITS, r, p) <==> |p| == d && p[..d - 1] == head && first <= p[d - 1] < first + count
  {
  }

  lemma FirstDigit(a: nat)
    ensures |Digits(BITS, a)| == 8 && Digits(BITS, a)[..1] == [Key(BITS, a, 0)] && Digits(BITS, a)[..0] == []
  {
  }

  lemma SlotCounts(r: Route)
    requires ValidRoute(r)
    ensures r.maskLen == 3 ==> Depth(BITS, r) == 1 && SlotCount(BITS, r) == 2
    ensures r.maskLen == 5 ==> Depth(BITS, r) == 2 && SlotCount(BITS, r) == 8
  {
    Pow2Values();
  }

  lemma ThreeCovers(r: Route, p: Path)
    requires ValidRoute(r) && r.maskLen == 3 && Key(BITS, Prefix(r), 0) == 0
    ensures Covers(BITS, r, p) <==> p == [0] || p == [1]
  {
    SlotCounts(r);
    FirstDigit(Prefix(r));
    CoversAs(r, 1, 0, 2, [], p);
    if |p| == 1 { assert p[..0] == [] && p == [p[0]]; }
  }

  lemma FiveCovers(r: Route, first: nat, p: Path)
    requires ValidRoute(r) && r.maskLen == 5 && Key(BITS, Prefix(r), 0) == 0 && Key(BITS, Prefix(r), 1) == first
    ensures Covers(BITS, r, p) <==> |p| == 2 && p[0] == 0 && first <= p[1] < first + 8
  {
    SlotCounts(r);
    FirstDigit(Prefix(r));
    CoversAs(r, 2, first, 8, [0], p);
    if |p| == 2 { assert p[..1] == [p[0]]; }
  }

  lemma ZeroKeys(r: Route)
    requires ValidRoute(r) && r.ip == 0
    ensures Key(BITS, Prefix(r), 0) == 0 && Key(BITS, Prefix(r), 1) == 0
  {
    ZeroPrefix(r);
    ZeroDigits(0);
    ZeroDigits(1);
  }

  lemma EightKeys(r: Route)
    requires ValidRoute(r) && r.ip == 0x800_0000 && r.maskLen == 5
    ensures Key(BITS, Prefix(r), 0) == 0 && Key(BITS, Prefix(r), 1) == 8
  {
    PowersShared();
    EightPrefix(r, r.ip);
  }

  lemma LowThree(r: Route, p: Path)
    requires ValidRoute(r) && r.ip == 0 && r.maskLen == 3
    ensures Covers(BITS, r, p) <==> p == [0] || p == [1]
  {
    ZeroKeys(r);
    ThreeCovers(r, p);
  }

  lemma LowFive(r: Route, p: Path)
    requires ValidRoute(r) && r.ip == 0 && r.maskLen == 5
    ensures Covers(BITS, r, p) <==> |p| == 2 && p[0] == 0 && p[1] < 8
  {
    ZeroKeys(r);
    FiveCovers(r, 0, p);
  }

  lemma HighFive(r: Route, p: Path)
    requires ValidRoute(r) && r.ip == 0x800_0000 && r.maskLen == 5
    ensures Covers(BITS, r, p) <==> |p| == 2 && p[0] == 0 && 8 <= p[1] < 16
  {
    EightKeys(r);
    FiveCovers(r, 8, p);
  }

  lemma SharedSlot(rs: seq<Route>, p: Path)
    requires Shared(rs)
    ensures p == [0] || p == [1] ==> Slot(BITS, rs, p) == Some(rs[0])
    ensures |p| == 2 && p[0] == 0 && p[1] < 16 ==> Slot(BITS, rs, p).Some?
  {
    LowThree(rs[0], p);
    LowFive(rs[1], p);
    HighFive(rs[2], p);
    assert rs == [rs[0], rs[1], rs[2]];
    assert rs[..2] == [rs[0], rs[1]] && [rs[0], rs[1]][..1] == [rs[0]] && [rs[0]][..0] == [];
    assert p == [0] || p == [1] ==> Slot(BITS, [rs[0]], p) == Some(rs[0]);
    assert p == [0] || p == [1] ==> Slot(BITS, [rs[0], rs[1]], p) == Some(rs[0]);
  }

  lemma SharedSlots(c: Content, rs: seq<Route>)
    requires Shared(rs) && Represents(BITS, c, rs)
    ensures [0] in c && [1] in c && c[[0]] == c[[1]]
    ensures forall k: nat :: k < FANOUT ==> [0, k] in c
  {
    SharedSlot(rs, [0]);
    SharedSlot(rs, [1]);
    assert At(c, [0]) == Slot(BITS, rs, [0]) && At(c, [1]) == Slot(BITS, rs, [1]);
    forall k: nat | k < FANOUT
      ensures [0, k] in c
    {
      SharedSlot(rs, [0, k]);
      assert At(c, [0, k]) == Slot(BITS, rs, [0, k]);
    }
  }

  // The /3 route is then freed while its second slot still has it, or twice.
  lemma SharedUnsafe(v: View, c: Content, rs: seq<Route>)
    requires Shared(rs) && Represents(BITS, c, rs)
    requires Levelled(v) && [] in v && HandsDown(c) && forall q :: q in c ==> q in v
    ensures !OneSlotEach(v, c)
  {
    SharedSlots(c, rs);
    forall k: nat | k < FANOUT
      ensures !Uncovered(v, c, [0] + [k])
    {
      assert [0] + [k] == [0, k];
    }
    assert [0] + [0] == [0, 0];
    assert Covered(v, c, [0]);
  }

  lemma PowersShared()
    ensures Pow2(27) == 0x800_0000
  {
    Pow2Values();
    assert Pow2(8) == 256;
    Pow2Adds(8, 8);
    Pow2Adds(16, 8);
    Pow2Adds(24, 3);
  }
}
