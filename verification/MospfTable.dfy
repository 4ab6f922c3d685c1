/** The forwarding list rebuilt from the settled routers. */
module MospfTable {
  import opened Wrappers
  import opened MospfGraph
  import opened MospfPaths

  // rt_entry_t
  datatype RtEntry = RtEntry(dest: bv32, mask: bv32, gw: nat, iface: nat)

  type Table = seq<RtEntry>

  // The network number two entries are compared by.
  function Net(e: RtEntry): bv32 { e.dest & e.mask }

  predicate HasNet(t: Table, net: bv32) {
    exists k :: 0 <= k < |t| && Net(t[k]) == net
  }

  // delete_dynamic_routers: the entries with gateway 0, in order.
  function Statics(t: Table): (s: Table)
    ensures forall k :: 0 <= k < |s| ==> s[k].gw == 0 && s[k] in t
    ensures forall e :: e in t && e.gw == 0 ==> e in s
  {
    if t == [] then []
    else if t[|t| - 1].gw == 0 then Statics(t[..|t| - 1]) + [t[|t| - 1]]
    else Statics(t[..|t| - 1])
  }

  lemma StaticsNext(done: Table, e: RtEntry)
    ensures Statics(done + [e]) == if e.gw == 0 then Statics(done) + [e] else Statics(done)
  {
    assert (done + [e])[..|done|] == done;
  }

  // An entry for one advertised network of a settled router.
  function EntryFor(l: Lsa, n: Node): RtEntry
    requires n.iface.Some?
  {
    RtEntry(l.subnet, l.mask, n.gw, n.iface.value)
  }

  // An advertised network is added unless the table has its network number.
  function AddIfNew(t: Table, e: RtEntry): Table {
    if HasNet(t, Net(e)) then t else t + [e]
  }

  // The first n advertisements of settled router u.
  function AddAdverts(db: Db, ns: seq<Node>, t: Table, u: nat, n: nat): Table
    requires |ns| == |db| && u < |ns| && n <= |db[u].lsas| && ns[u].iface.Some?
  {
    if n == 0 then t else AddIfNew(AddAdverts(db, ns, t, u, n - 1), EntryFor(db[u].lsas[n - 1], ns[u]))
  }

  predicate Routable(db: Db, ns: seq<Node>, order: seq<nat>) {
    |ns| == |db| && forall i :: 0 <= i < |order| ==> order[i] < |ns| && ns[order[i]].iface.Some?
  }

  // All advertisements of the first n settled routers.
  function AddAll(db: Db, ns: seq<Node>, order: seq<nat>, t: Table, n: nat): Table
    requires Routable(db, ns, order) && n <= |order|
  {
    if n == 0 then t
    else AddAdverts(db, ns, AddAll(db, ns, order, t, n - 1), order[n - 1], |db[order[n - 1]].lsas|)
  }

  // ---------------------------------------------------------------- what is added

  // Advertisement (i, j): the j-th network of the i-th settled router.
  ghost predicate Advert(db: Db, ns: seq<Node>, order: seq<nat>, i: nat, j: nat, e: RtEntry)
    requires Routable(db, ns, order)
  {
    i < |order| && j < |db[order[i]].lsas| && e == EntryFor(db[order[i]].lsas[j], ns[order[i]])
  }

  // t is base plus, for each network number advertised up to (n, m) and not in base, one entry:
  // the first advertisement of it.
  ghost predicate Rebuilt(db: Db, ns: seq<Node>, order: seq<nat>, base: Table, t: Table, n: nat, m: nat)
    requires Routable(db, ns, order)
  {
    && base <= t
    && (forall k, l :: 0 <= k < l < |t| && |base| <= l ==> Net(t[k]) != Net(t[l]))
    && (forall k {:trigger FirstAdvert(db, ns, order, n, m, t[k])} :: |base| <= k < |t| ==> FirstAdvert(db, ns, order, n, m, t[k]))
    && (forall i, j, e {:trigger Advert(db, ns, order, i, j, e)} ::
          Advert(db, ns, order, i, j, e) && Earlier(i, j, n, m) ==> HasNet(t, Net(e)))
  }

  predicate Earlier(i: nat, j: nat, n: nat, m: nat) { i < n || (i == n && j < m) }

  // e is an advertisement before (n, m), and no advertisement before it has its network number.
  ghost predicate FirstAdvert(db: Db, ns: seq<Node>, order: seq<nat>, n: nat, m: nat, e: RtEntry)
    requires Routable(db, ns, order)
  {
    exists i: nat, j: nat :: Advert(db, ns, order, i, j, e) && Earlier(i, j, n, m) && NoneBefore(db, ns, order, i, j, Net(e))
  }

  ghost predicate NoneBefore(db: Db, ns: seq<Node>, order: seq<nat>, n: nat, m: nat, net: bv32)
    requires Routable(db, ns, order)
  {
    forall i: nat, j: nat, e :: Advert(db, ns, order, i, j, e) && Earlier(i, j, n, m) ==> Net(e) != net
  }

  lemma AddIfNewRebuilt(db: Db, ns: seq<Node>, order: seq<nat>, base: Table, t: Table, n: nat, m: nat, e: RtEntry)
    requires Routable(db, ns, order) && Rebuilt(db, ns, order, base, t, n, m) && Advert(db, ns, order, n, m, e)
    ensures Rebuilt(db, ns, order, base, AddIfNew(t, e), n, m + 1)
  {
    var r := AddIfNew(t, e);
    forall k | |base| <= k < |r|
      ensures FirstAdvert(db, ns, order, n, m + 1, r[k])
    {
      if k < |t| {
        assert FirstAdvert(db, ns, order, n, m, t[k]);
        var i: nat, j: nat :| Advert(db, ns, order, i, j, t[k]) && Earlier(i, j, n, m) && NoneBefore(db, ns, order, i, j, Net(t[k]));
        assert Earlier(i, j, n, m + 1);
      } else {
        assert NoneBefore(db, ns, order, n, m, Net(e));
        assert Earlier(n, m, n, m + 1);
      }
    }
    forall i: nat, j: nat, x | Advert(db, ns, order, i, j, x) && Earlier(i, j, n, m + 1)
      ensures HasNet(r, Net(x))
    {
      if Earlier(i, j, n, m) {
        var k :| 0 <= k < |t| && Net(t[k]) == Net(x);
        assert Net(r[k]) == Net(x);
      } else {
        assert x == e;
        if r != t { assert Net(r[|t|]) == Net(e); }
      }
    }
  }

  lemma AdvertAdded(db: Db, ns: seq<Node>, order: seq<nat>, base: Table, t: Table, n: nat, m: nat)
    requires Routable(db, ns, order) && n < |order| && m < |db[order[n]].lsas| && Rebuilt(db, ns, order, base, t, n, m)
    ensures Rebuilt(db, ns, order, base, AddIfNew(t, EntryFor(db[order[n]].lsas[m], ns[order[n]])), n, m + 1)
  {
    AddIfNewRebuilt(db, ns, order, base, t, n, m, EntryFor(db[order[n]].lsas[m], ns[order[n]]));
  }

  lemma {:induction false} AddAdvertsRebuilt(db: Db, ns: seq<Node>, order: seq<nat>, base: Table, t: Table, n: nat, m: nat)
    requires Routable(db, ns, order) && n < |order| && m <= |db[order[n]].lsas|
    requires Rebuilt(db, ns, order, base, t, n, 0)
    ensures Rebuilt(db, ns, order, base, AddAdverts(db, ns, t, order[n], m), n, m)
    decreases m
  {
    if m > 0 {
      AddAdvertsRebuilt(db, ns, order, base, t, n, m - 1);
      AdvertAdded(db, ns, order, base, AddAdverts(db, ns, t, order[n], m - 1), n, m - 1);
    }
  }

  // Done with one router is ready for the next.
  lemma NextRouter(db: Db, ns: seq<Node>, order: seq<nat>, base: Table, t: Table, n: nat)
    requires Routable(db, ns, order) && n < |order|
    requires Rebuilt(db, ns, order, base, t, n, |db[order[n]].lsas|)
    ensures Rebuilt(db, ns, order, base, t, n + 1, 0)
  {
    var m := |db[order[n]].lsas|;
    forall k | |base| <= k < |t|
      ensures FirstAdvert(db, ns, order, n + 1, 0, t[k])
    {
      assert FirstAdvert(db, ns, order, n, m, t[k]);
      var i: nat, j: nat :| Advert(db, ns, order, i, j, t[k]) && Earlier(i, j, n, m) && NoneBefore(db, ns, order, i, j, Net(t[k]));
      assert Earlier(i, j, n + 1, 0);
    }
    forall i: nat, j: nat, e | Advert(db, ns, order, i, j, e) && Earlier(i, j, n + 1, 0)
      ensures HasNet(t, Net(e))
    {
      assert Earlier(i, j, n, m);
    }
  }

  lemma {:induction false} AddAllRebuilt(db: Db, ns: seq<Node>, order: seq<nat>, base: Table, n: nat)
    requires Routable(db, ns, order) && n <= |order|
    ensures Rebuilt(db, ns, order, base, AddAll(db, ns, order, base, n), n, 0)
    decreases n
  {
    if n > 0 {
      AddAllRebuilt(db, ns, order, base, n - 1);
      var t := AddAll(db, ns, order, base, n - 1);
      var m := |db[order[n - 1]].lsas|;
      AddAdvertsRebuilt(db, ns, order, base, t, n - 1, m);
      NextRouter(db, ns, order, base, AddAdverts(db, ns, t, order[n - 1], m), n - 1);
    }
  }

  // ---------------------------------------------------------------- the whole update

  lemma SettledRoutable(db: Db, ifaces: seq<seq<Nbr>>)
    requires |db| < 0x8000_0000
    ensures var (ns, order) := ShortestPaths(db, ifaces); Routable(db, ns, order)
  {
    ShortestPathsCorrect(db, ifaces);
    var (ns, order) := ShortestPaths(db, ifaces);
    forall i | 0 <= i < |order|
      ensures order[i] < |ns| && ns[order[i]].iface.Some?
    {
      assert ShortestTo(db, NbrList(ifaces), ns[order[i]], order[i]);
    }
  }

  // router_update, as a function of the database, the neighbours and the list before.
  function Updated(db: Db, ifaces: seq<seq<Nbr>>, t: Table): Table
    requires |db| < 0x8000_0000
  {
    SettledRoutable(db, ifaces);
    var (ns, order) := ShortestPaths(db, ifaces);
    AddAll(db, ns, order, Statics(t), |order|)
  }

  // Link j of router w advertises the network number net.
  predicate Advertises(db: Db, w: nat, j: nat, net: bv32) {
    w < |db| && j < |db[w].lsas| && (db[w].lsas[j].subnet & db[w].lsas[j].mask) == net
  }

  // No reachable router advertises net at a lower cost.
  ghost predicate NoneCloser(db: Db, ns: seq<Node>, net: bv32, cost: nat)
    requires |ns| == |db|
  {
    forall w: nat, j: nat :: Advertises(db, w, j, net) && ns[w].cost != INFINITE ==> cost <= ns[w].cost
  }

  // e is for a network the reachable router u advertises, by u's gateway and interface.
  ghost predicate AdvertOf(db: Db, ns: seq<Node>, e: RtEntry, u: nat)
    requires |ns| == |db|
  {
    && u < |db| && ns[u].cost != INFINITE && ns[u].iface.Some?
    && exists j: nat :: Advertises(db, u, j, Net(e)) && EntryOf(db[u].lsas[j], ns[u], e)
  }

  // e has the destination and mask of the link and the gateway and interface of the node.
  predicate EntryOf(l: Lsa, n: Node, e: RtEntry) {
    e.dest == l.subnet && e.mask == l.mask && e.gw == n.gw && n.iface == Some(e.iface)
  }

  ghost predicate LeastCostAdvert(db: Db, ns: seq<Node>, e: RtEntry)
    requires |ns| == |db|
  {
    exists u: nat :: AdvertOf(db, ns, e, u) && NoneCloser(db, ns, Net(e), ns[u].cost)
  }

  // The entries of r from |s| on have network numbers all their own, each from a least-cost
  // advertiser, and every network number a reachable router advertises is in r.
  ghost predicate BestRoutes(db: Db, ns: seq<Node>, s: Table, r: Table)
    requires |ns| == |db|
  {
    && s <= r
    && (forall k, l :: 0 <= k < l < |r| && |s| <= l ==> Net(r[k]) != Net(r[l]))
    && (forall k :: |s| <= k < |r| ==> LeastCostAdvert(db, ns, r[k]))
    && (forall u: nat, j: nat, net :: Advertises(db, u, j, net) && ns[u].cost != INFINITE ==> HasNet(r, net))
  }

  // Settle order lists exactly the reachable routers, by growing cost.
  ghost predicate SettleOrder(db: Db, ns: seq<Node>, order: seq<nat>) {
    && Routable(db, ns, order)
    && (forall v :: 0 <= v < |ns| ==> (v in order <==> ns[v].cost != INFINITE))
    && (forall i, j :: 0 <= i < j < |order| ==> ns[order[i]].cost <= ns[order[j]].cost)
  }

  // A router advertising the network comes no earlier in settle order than the first advertiser.
  lemma NotEarlier(db: Db, ns: seq<Node>, order: seq<nat>, i: nat, j: nat, net: bv32, w: nat, l: nat)
    requires SettleOrder(db, ns, order) && i < |order| && NoneBefore(db, ns, order, i, j, net)
    requires Advertises(db, w, l, net) && ns[w].cost != INFINITE
    ensures ns[order[i]].cost <= ns[w].cost
  {
    assert w in order;
    var k :| 0 <= k < |order| && order[k] == w;
    var e := EntryFor(db[w].lsas[l], ns[w]);
    assert Advert(db, ns, order, k, l, e);
    assert Net(e) == net;
    assert !Earlier(k, l, i, j);
  }

  // The first advertisement of a network in settle order comes from a least-cost router.
  lemma FirstAdvertIsLeastCost(db: Db, ns: seq<Node>, order: seq<nat>, e: RtEntry, n: nat, m: nat)
    requires SettleOrder(db, ns, order) && FirstAdvert(db, ns, order, n, m, e)
    ensures LeastCostAdvert(db, ns, e)
  {
    var i: nat, j: nat :| Advert(db, ns, order, i, j, e) && Earlier(i, j, n, m) && NoneBefore(db, ns, order, i, j, Net(e));
    var u := order[i];
    assert u in order;
    assert Advertises(db, u, j, Net(e));
    assert AdvertOf(db, ns, e, u);
    forall w: nat, l: nat | Advertises(db, w, l, Net(e)) && ns[w].cost != INFINITE
      ensures ns[u].cost <= ns[w].cost
    {
      NotEarlier(db, ns, order, i, j, Net(e), w, l);
    }
  }

  lemma EveryNetCovered(db: Db, ns: seq<Node>, order: seq<nat>, s: Table, r: Table, u: nat, j: nat, net: bv32)
    requires SettleOrder(db, ns, order) && Rebuilt(db, ns, order, s, r, |order|, 0)
    requires Advertises(db, u, j, net) && ns[u].cost != INFINITE
    ensures HasNet(r, net)
  {
    assert u in order;
    var i :| 0 <= i < |order| && order[i] == u;
    assert Advert(db, ns, order, i, j, EntryFor(db[u].lsas[j], ns[u])) && Earlier(i, j, |order|, 0);
  }

  lemma RebuiltIsBest(db: Db, ns: seq<Node>, order: seq<nat>, s: Table, r: Table)
    requires SettleOrder(db, ns, order) && Rebuilt(db, ns, order, s, r, |order|, 0)
    ensures BestRoutes(db, ns, s, r)
  {
    forall k | |s| <= k < |r|
      ensures LeastCostAdvert(db, ns, r[k])
    {
      FirstAdvertIsLeastCost(db, ns, order, r[k], |order|, 0);
    }
    forall u: nat, j: nat, net | Advertises(db, u, j, net) && ns[u].cost != INFINITE
      ensures HasNet(r, net)
    {
      EveryNetCovered(db, ns, order, s, r, u, j, net);
    }
  }

  // The entries with gateway 0 stay, in front; each other network number advertised by a reachable
  // router has exactly one entry, from a least-cost advertiser; there are no other entries.
  lemma UpdateCorrect(db: Db, ifaces: seq<seq<Nbr>>, t: Table)
    requires |db| < 0x8000_0000
    ensures BestRoutes(db, ShortestPaths(db, ifaces).0, Statics(t), Updated(db, ifaces, t))
  {
    SettledRoutable(db, ifaces);
    ShortestPathsCorrect(db, ifaces);
    var (ns, order) := ShortestPaths(db, ifaces);
    AddAllRebuilt(db, ns, order, Statics(t), |order|);
    RebuiltIsBest(db, ns, order, Statics(t), Updated(db, ifaces, t));
  }

  // ---------------------------------------------------------------- a second run

  lemma {:induction false} StaticsOfConcat(s: Table, a: Table)
    requires forall k :: 0 <= k < |s| ==> s[k].gw == 0
    requires forall k :: 0 <= k < |a| ==> a[k].gw != 0
    ensures Statics(s + a) == s
    decreases |s| + |a|
  {
    if a != [] {
      assert (s + a)[..|s| + |a| - 1] == s + a[..|a| - 1];
      StaticsOfConcat(s, a[..|a| - 1]);
    } else if s != [] {
      assert s + a == s;
      StaticsOfConcat(s[..|s| - 1], []);
      assert s[..|s| - 1] + [] == s[..|s| - 1];
    }
  }

  // A reachable node's gateway is the address of some neighbour.
  lemma GatewayIsNbr(db: Db, ifaces: seq<seq<Nbr>>, v: nat)
    requires |db| < 0x8000_0000 && v < |db| && ShortestPaths(db, ifaces).0[v].cost != INFINITE
    ensures exists i, j :: 0 <= i < |ifaces| && 0 <= j < |ifaces[i]|
                           && ifaces[i][j].ip == ShortestPaths(db, ifaces).0[v].gw
  {
    ShortestPathsCorrect(db, ifaces);
    var n := ShortestPaths(db, ifaces).0[v];
    assert ShortestTo(db, NbrList(ifaces), n, v);
    var p :| Path(db, NbrList(ifaces), p, v) && |p| == n.cost && Via(db, NbrList(ifaces), n, p);
    var start := NbrFor(db, NbrList(ifaces), p[0]).value;
    var k :| 0 <= k < |NbrList(ifaces)| && NbrList(ifaces)[k] == start;
    assert start.1 in ifaces[start.0];
  }

  lemma AddedGatewaysNonzero(db: Db, ifaces: seq<seq<Nbr>>, s: Table, r: Table, k: nat)
    requires |db| < 0x8000_0000 && |s| <= k < |r|
    requires BestRoutes(db, ShortestPaths(db, ifaces).0, s, r)
    requires forall i, j :: 0 <= i < |ifaces| && 0 <= j < |ifaces[i]| ==> ifaces[i][j].ip != 0
    ensures r[k].gw != 0
  {
    var ns := ShortestPaths(db, ifaces).0;
    assert LeastCostAdvert(db, ns, r[k]);
    var u: nat :| AdvertOf(db, ns, r[k], u);
    GatewayIsNbr(db, ifaces, u);
  }

  lemma UpdatedFromStatics(db: Db, ifaces: seq<seq<Nbr>>, t1: Table, t2: Table)
    requires |db| < 0x8000_0000 && Statics(t1) == Statics(t2)
    ensures Updated(db, ifaces, t1) == Updated(db, ifaces, t2)
  {
  }

  lemma UpdateKeepsStatics(db: Db, ifaces: seq<seq<Nbr>>, s: Table, r: Table)
    requires |db| < 0x8000_0000 && BestRoutes(db, ShortestPaths(db, ifaces).0, s, r)
    requires forall k :: 0 <= k < |s| ==> s[k].gw == 0
    requires forall i, j :: 0 <= i < |ifaces| && 0 <= j < |ifaces[i]| ==> ifaces[i][j].ip != 0
    ensures Statics(r) == s
  {
    var added := r[|s|..];
    assert r == s + added;
    forall k | 0 <= k < |added|
      ensures added[k].gw != 0
    {
      AddedGatewaysNonzero(db, ifaces, s, r, |s| + k);
    }
    StaticsOfConcat(s, added);
  }

  // With no neighbour at address 0 a second run changes nothing.
  lemma UpdateIdempotent(db: Db, ifaces: seq<seq<Nbr>>, t: Table)
    requires |db| < 0x8000_0000
    requires forall i, j :: 0 <= i < |ifaces| && 0 <= j < |ifaces[i]| ==> ifaces[i][j].ip != 0
    ensures Updated(db, ifaces, Updated(db, ifaces, t)) == Updated(db, ifaces, t)
  {
    UpdateCorrect(db, ifaces, t);
    UpdateKeepsStatics(db, ifaces, Statics(t), Updated(db, ifaces, t));
    UpdatedFromStatics(db, ifaces, t, Updated(db, ifaces, t));
  }
}
