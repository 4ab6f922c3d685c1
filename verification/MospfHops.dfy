/** What router_update computes, said of the interfaces and the database alone: hop counts from the
    neighbours on each interface, and the next hops of the entries it adds. */
module MospfHops {
  import opened Wrappers
  import opened MospfGraph
  import opened MospfPaths
  import opened MospfTable

  // ---------------------------------------------------------------- the neighbours in loop order

  // How many neighbours the first i interfaces list.
  function Before(ifaces: seq<seq<Nbr>>, i: nat): nat
    requires i <= |ifaces|
  {
    if i == 0 then 0 else Before(ifaces, i - 1) + |ifaces[i - 1]|
  }

  lemma {:induction false} BeforePrefix(ifaces: seq<seq<Nbr>>, n: nat, i: nat)
    requires i <= n <= |ifaces|
    ensures Before(ifaces[..n], i) == Before(ifaces, i)
  {
    if i > 0 { BeforePrefix(ifaces, n, i - 1); }
  }

  lemma {:induction false} BeforeGrows(ifaces: seq<seq<Nbr>>, i: nat, k: nat)
    requires i <= k <= |ifaces|
    ensures Before(ifaces, i) <= Before(ifaces, k)
    decreases k
  {
    if i < k { BeforeGrows(ifaces, i, k - 1); }
  }

  // Neighbour j of interface i comes up behind all of the interfaces before and the neighbours of its
  // own interface before it.
  predicate ComesUp(l: seq<(nat, Nbr)>, ifaces: seq<seq<Nbr>>, i: nat, j: nat)
    requires i < |ifaces| && j < |ifaces[i]|
  {
    var k := Before(ifaces, i) + j;
    k < |l| && l[k] == (i, ifaces[i][j])
  }

  lemma ComesUpStill(l: seq<(nat, Nbr)>, longer: seq<(nat, Nbr)>, ifaces: seq<seq<Nbr>>, n: nat, i: nat, j: nat)
    requires l <= longer && i < n <= |ifaces| && j < |ifaces[i]| && ComesUp(l, ifaces[..n], i, j)
    ensures ComesUp(longer, ifaces, i, j)
  {
    BeforePrefix(ifaces, n, i);
  }

  // Each neighbour on each interface comes up once, in the order of the two loops, and nothing else.
  lemma {:induction false} EveryNbrOnce(ifaces: seq<seq<Nbr>>)
    ensures |NbrList(ifaces)| == Before(ifaces, |ifaces|)
    ensures forall i, j :: 0 <= i < |ifaces| && 0 <= j < |ifaces[i]| ==> ComesUp(NbrList(ifaces), ifaces, i, j)
  {
    if ifaces != [] {
      var n := |ifaces| - 1;
      EveryNbrOnce(ifaces[..n]);
      BeforePrefix(ifaces, n, n);
      forall i, j | 0 <= i < |ifaces| && 0 <= j < |ifaces[i]|
        ensures ComesUp(NbrList(ifaces), ifaces, i, j)
      {
        if i < n { ComesUpStill(NbrList(ifaces[..n]), NbrList(ifaces), ifaces, n, i, j); }
      }
    }
  }

  // ---------------------------------------------------------------- who stands for a router

  // Neighbour j of interface i is the router at position v of the database.
  predicate Names(db: Db, ifaces: seq<seq<Nbr>>, i: nat, j: nat, v: nat) {
    i < |ifaces| && j < |ifaces[i]| && Find(db, ifaces[i][j].id) == Some(v)
  }

  // It is the last one that is.
  ghost predicate LastNames(db: Db, ifaces: seq<seq<Nbr>>, i: nat, j: nat, v: nat) {
    Names(db, ifaces, i, j, v)
    && forall k: nat, l: nat :: Names(db, ifaces, k, l, v) ==> k < i || (k == i && l <= j)
  }

  lemma {:induction false} NbrForAt(db: Db, nbrs: seq<(nat, Nbr)>, v: nat) returns (k: nat)
    requires NbrFor(db, nbrs, v).Some?
    ensures k < |nbrs| && nbrs[k] == NbrFor(db, nbrs, v).value && Find(db, nbrs[k].1.id) == Some(v)
    ensures forall l :: k < l < |nbrs| ==> Find(db, nbrs[l].1.id) != Some(v)
    decreases |nbrs|
  {
    var last := |nbrs| - 1;
    if Find(db, nbrs[last].1.id) == Some(v) {
      k := last;
    } else {
      k := NbrForAt(db, nbrs[..last], v);
    }
  }

  // Where a place of the list is on the interfaces.
  lemma {:induction false} PlaceOf(ifaces: seq<seq<Nbr>>, n: nat, k: nat) returns (i: nat, j: nat)
    requires n <= |ifaces| && k < Before(ifaces, n)
    ensures i < n && j < |ifaces[i]| && k == Before(ifaces, i) + j
    decreases n
  {
    if Before(ifaces, n - 1) <= k {
      i, j := n - 1, k - Before(ifaces, n - 1);
    } else {
      i, j := PlaceOf(ifaces, n - 1, k);
    }
  }

  lemma LaterPlace(ifaces: seq<seq<Nbr>>, i: nat, j: nat, k: nat, l: nat)
    requires i < |ifaces| && j < |ifaces[i]| && k < |ifaces| && l < |ifaces[k]|
    requires i < k || (i == k && j < l)
    ensures Before(ifaces, i) + j < Before(ifaces, k) + l
  {
    if i < k { BeforeGrows(ifaces, i + 1, k); }
  }

  // The last place of the list that names v is the last place on the interfaces that does.
  lemma LastPlace(db: Db, ifaces: seq<seq<Nbr>>, v: nat, i: nat, j: nat)
    requires i < |ifaces| && j < |ifaces[i]| && Find(db, ifaces[i][j].id) == Some(v)
    requires forall k :: Before(ifaces, i) + j < k < |NbrList(ifaces)| ==> Find(db, NbrList(ifaces)[k].1.id) != Some(v)
    ensures LastNames(db, ifaces, i, j, v)
  {
    EveryNbrOnce(ifaces);
    forall k: nat, l: nat | Names(db, ifaces, k, l, v)
      ensures k < i || (k == i && l <= j)
    {
      assert ComesUp(NbrList(ifaces), ifaces, k, l);
      if i < k || (i == k && j < l) { LaterPlace(ifaces, i, j, k, l); }
    }
  }

  // The neighbour the first round leaves at a node is the last one that names it.
  lemma NbrForIsLast(db: Db, ifaces: seq<seq<Nbr>>, v: nat) returns (i: nat, j: nat)
    requires NbrFor(db, NbrList(ifaces), v).Some?
    ensures LastNames(db, ifaces, i, j, v) && NbrFor(db, NbrList(ifaces), v).value == (i, ifaces[i][j])
  {
    EveryNbrOnce(ifaces);
    var at := NbrForAt(db, NbrList(ifaces), v);
    i, j := PlaceOf(ifaces, |ifaces|, at);
    assert ComesUp(NbrList(ifaces), ifaces, i, j);
    LastPlace(db, ifaces, v, i, j);
  }

  lemma NamedHasNbr(db: Db, ifaces: seq<seq<Nbr>>, v: nat, i: nat, j: nat)
    requires Names(db, ifaces, i, j, v)
    ensures NbrFor(db, NbrList(ifaces), v).Some?
  {
    EveryNbrOnce(ifaces);
    assert ComesUp(NbrList(ifaces), ifaces, i, j);
  }

  // ---------------------------------------------------------------- hop counts

  // A way to router v over advertised links from a router that some interface names.
  ghost predicate Hops(db: Db, ifaces: seq<seq<Nbr>>, p: seq<nat>, v: nat) {
    && |p| > 0 && p[|p| - 1] == v && v < |db|
    && (exists i: nat, j: nat :: Names(db, ifaces, i, j, p[0]))
    && forall k :: 0 < k < |p| ==> Edge(db, p[k - 1], p[k])
  }

  lemma HopsArePaths(db: Db, ifaces: seq<seq<Nbr>>, p: seq<nat>, v: nat)
    ensures Hops(db, ifaces, p, v) <==> Path(db, NbrList(ifaces), p, v)
  {
    if |p| > 0 {
      if i: nat, j: nat :| Names(db, ifaces, i, j, p[0]) {
        NamedHasNbr(db, ifaces, p[0], i, j);
      } else if NbrFor(db, NbrList(ifaces), p[0]).Some? {
        var i, j := NbrForIsLast(db, ifaces, p[0]);
      }
    }
  }

  // No way to v is shorter than n hops.
  ghost predicate Fewest(db: Db, ifaces: seq<seq<Nbr>>, n: nat, v: nat) {
    forall p :: Hops(db, ifaces, p, v) ==> n <= |p|
  }

  // The way p starts at neighbour j of interface i, the last one that stands for its first router.
  ghost predicate StartsAt(db: Db, ifaces: seq<seq<Nbr>>, p: seq<nat>, i: nat, j: nat) {
    |p| > 0 && LastNames(db, ifaces, i, j, p[0])
  }

  // n.cost counts the hops of a shortest way to v, and n sends to the neighbour where one starts.
  ghost predicate ByShortestWay(db: Db, ifaces: seq<seq<Nbr>>, n: Node, v: nat) {
    exists p, i: nat, j: nat ::
      && Hops(db, ifaces, p, v) && |p| == n.cost && Fewest(db, ifaces, |p|, v)
      && StartsAt(db, ifaces, p, i, j) && n.iface == Some(i) && n.gw == ifaces[i][j].ip
  }

  // A router that is a neighbour costs one hop, by the last interface entry that names it.
  ghost predicate OneHop(db: Db, ifaces: seq<seq<Nbr>>, n: Node, v: nat) {
    forall i: nat, j: nat :: LastNames(db, ifaces, i, j, v) ==> n.cost == 1 && n.iface == Some(i) && n.gw == ifaces[i][j].ip
  }

  ghost predicate NoWay(db: Db, ifaces: seq<seq<Nbr>>, v: nat) {
    forall p :: !Hops(db, ifaces, p, v)
  }

  lemma ViaStarts(db: Db, ifaces: seq<seq<Nbr>>, n: Node, p: seq<nat>) returns (i: nat, j: nat)
    requires Via(db, NbrList(ifaces), n, p)
    ensures StartsAt(db, ifaces, p, i, j) && n.iface == Some(i) && n.gw == ifaces[i][j].ip
  {
    i, j := NbrForIsLast(db, ifaces, p[0]);
  }

  lemma ShortestByHops(db: Db, ifaces: seq<seq<Nbr>>, n: Node, v: nat)
    requires ShortestTo(db, NbrList(ifaces), n, v)
    ensures if n.cost == INFINITE then NoWay(db, ifaces, v) else ByShortestWay(db, ifaces, n, v)
  {
    forall p
      ensures Hops(db, ifaces, p, v) <==> Path(db, NbrList(ifaces), p, v)
    {
      HopsArePaths(db, ifaces, p, v);
    }
    if n.cost != INFINITE {
      var p :| Path(db, NbrList(ifaces), p, v) && |p| == n.cost && Via(db, NbrList(ifaces), n, p);
      var i, j := ViaStarts(db, ifaces, n, p);
      assert Fewest(db, ifaces, |p|, v);
    }
  }

  lemma LastIsOne(db: Db, ifaces: seq<seq<Nbr>>, i: nat, j: nat, k: nat, l: nat, v: nat)
    requires LastNames(db, ifaces, i, j, v) && LastNames(db, ifaces, k, l, v)
    ensures i == k && j == l
  {
  }

  lemma NamedIsOneHop(db: Db, ifaces: seq<seq<Nbr>>, n: Node, v: nat)
    requires v < |db| && if n.cost == INFINITE then NoWay(db, ifaces, v) else ByShortestWay(db, ifaces, n, v)
    ensures OneHop(db, ifaces, n, v)
  {
    forall i: nat, j: nat | LastNames(db, ifaces, i, j, v)
      ensures n.cost == 1 && n.iface == Some(i) && n.gw == ifaces[i][j].ip
    {
      assert Names(db, ifaces, i, j, [v][0]);
      assert Hops(db, ifaces, [v], v);
      var p, k: nat, l: nat :|
        && Hops(db, ifaces, p, v) && |p| == n.cost && Fewest(db, ifaces, |p|, v)
        && StartsAt(db, ifaces, p, k, l) && n.iface == Some(k) && n.gw == ifaces[k][l].ip;
      assert p == [v];
      LastIsOne(db, ifaces, i, j, k, l, v);
    }
  }

  // Every router that an interface names costs one hop, by the last entry that names it; every other
  // one costs the hops of a shortest way from those, by the neighbour where such a way starts; the
  // maximum value stands for no way at all.
  lemma CostsAreHops(db: Db, ifaces: seq<seq<Nbr>>, v: nat)
    requires |db| < 0x8000_0000 && v < |db|
    ensures var n := ShortestPaths(db, ifaces).0[v];
            && OneHop(db, ifaces, n, v)
            && (n.cost == INFINITE <==> NoWay(db, ifaces, v))
            && (n.cost != INFINITE ==> ByShortestWay(db, ifaces, n, v))
  {
    ShortestPathsCorrect(db, ifaces);
    var n := ShortestPaths(db, ifaces).0[v];
    ShortestByHops(db, ifaces, n, v);
    NamedIsOneHop(db, ifaces, n, v);
  }

  // ---------------------------------------------------------------- the added entries

  // The way p leads to router u, and no router that advertises net is fewer hops away.
  ghost predicate NearestAdvertiser(db: Db, ifaces: seq<seq<Nbr>>, p: seq<nat>, u: nat, net: bv32) {
    Hops(db, ifaces, p, u)
    && forall w: nat, l: nat, q :: Advertises(db, w, l, net) && Hops(db, ifaces, q, w) ==> |p| <= |q|
  }

  // e has the destination and mask of link l of router u, u is a nearest advertiser of its network
  // number, and e sends to the neighbour where a shortest way to u starts.
  ghost predicate RoutesVia(db: Db, ifaces: seq<seq<Nbr>>, e: RtEntry, u: nat, l: nat, p: seq<nat>, j: nat) {
    && u < |db| && l < |db[u].lsas| && e.dest == db[u].lsas[l].subnet && e.mask == db[u].lsas[l].mask
    && NearestAdvertiser(db, ifaces, p, u, e.dest & e.mask)
    && StartsAt(db, ifaces, p, e.iface, j) && e.gw == ifaces[e.iface][j].ip
  }

  ghost predicate Routed(db: Db, ifaces: seq<seq<Nbr>>, e: RtEntry) {
    exists u: nat, l: nat, p, j: nat :: RoutesVia(db, ifaces, e, u, l, p, j)
  }

  // Router w is as far away as its node says.
  lemma WayCosts(db: Db, ifaces: seq<seq<Nbr>>, w: nat, q: seq<nat>)
    requires |db| < 0x8000_0000 && Hops(db, ifaces, q, w)
    ensures ShortestPaths(db, ifaces).0[w].cost != INFINITE && ShortestPaths(db, ifaces).0[w].cost <= |q|
  {
    CostsAreHops(db, ifaces, w);
  }

  lemma LeastCostIsNearest(db: Db, ifaces: seq<seq<Nbr>>, p: seq<nat>, u: nat, net: bv32)
    requires |db| < 0x8000_0000 && Hops(db, ifaces, p, u)
    requires NoneCloser(db, ShortestPaths(db, ifaces).0, net, |p|)
    ensures NearestAdvertiser(db, ifaces, p, u, net)
  {
    forall w: nat, l: nat, q | Advertises(db, w, l, net) && Hops(db, ifaces, q, w)
      ensures |p| <= |q|
    {
      WayCosts(db, ifaces, w, q);
    }
  }

  lemma LeastCostIsRouted(db: Db, ifaces: seq<seq<Nbr>>, e: RtEntry)
    requires |db| < 0x8000_0000 && LeastCostAdvert(db, ShortestPaths(db, ifaces).0, e)
    ensures Routed(db, ifaces, e)
  {
    var ns := ShortestPaths(db, ifaces).0;
    var u: nat :| AdvertOf(db, ns, e, u) && NoneCloser(db, ns, Net(e), ns[u].cost);
    var l: nat :| Advertises(db, u, l, Net(e)) && EntryOf(db[u].lsas[l], ns[u], e);
    CostsAreHops(db, ifaces, u);
    var p, i: nat, j: nat :|
      && Hops(db, ifaces, p, u) && |p| == ns[u].cost && Fewest(db, ifaces, |p|, u)
      && StartsAt(db, ifaces, p, i, j) && ns[u].iface == Some(i) && ns[u].gw == ifaces[i][j].ip;
    LeastCostIsNearest(db, ifaces, p, u, Net(e));
    assert RoutesVia(db, ifaces, e, u, l, p, j);
  }

  // r keeps the entries s in front; behind them each network number not there before that a
  // reachable router advertises has exactly one entry, and these send towards a nearest advertiser.
  ghost predicate RoutesByHops(db: Db, ifaces: seq<seq<Nbr>>, s: Table, r: Table) {
    && s <= r
    && (forall k, l :: 0 <= k < l < |r| && |s| <= l ==> Net(r[k]) != Net(r[l]))
    && (forall k :: |s| <= k < |r| ==> Routed(db, ifaces, r[k]))
    && (forall u: nat, l: nat, net, p :: Advertises(db, u, l, net) && Hops(db, ifaces, p, u) ==> HasNet(r, net))
  }

  lemma UpdatedByHops(db: Db, ifaces: seq<seq<Nbr>>, t: Table)
    requires |db| < 0x8000_0000
    ensures RoutesByHops(db, ifaces, Statics(t), Updated(db, ifaces, t))
  {
    UpdateCorrect(db, ifaces, t);
    var s, r := Statics(t), Updated(db, ifaces, t);
    forall k | |s| <= k < |r|
      ensures Routed(db, ifaces, r[k])
    {
      LeastCostIsRouted(db, ifaces, r[k]);
    }
    forall u: nat, l: nat, net, p | Advertises(db, u, l, net) && Hops(db, ifaces, p, u)
      ensures HasNet(r, net)
    {
      WayCosts(db, ifaces, u, p);
    }
  }
}
