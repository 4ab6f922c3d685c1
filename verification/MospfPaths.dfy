/** The selection of router_update computes least hop counts. */
module MospfPaths {
  import opened Wrappers
  import opened Counting
  import opened MospfGraph

  // Node u advertises a link to node v.
  ghost predicate Edge(db: Db, u: nat, v: nat) {
    u < |db| && exists j :: 0 <= j < |db[u].lsas| && LinkTo(db, u, j, v)
  }

  predicate LinkTo(db: Db, u: nat, j: nat, v: nat)
    requires u < |db| && j < |db[u].lsas|
  {
    db[u].lsas[j].rid != 0 && Find(db, db[u].lsas[j].rid) == Some(v)
  }

  // The neighbour that stands for node v, the last one if several do.
  function NbrFor(db: Db, nbrs: seq<(nat, Nbr)>, v: nat): (r: Option<(nat, Nbr)>)
    ensures r.Some? ==> r.value in nbrs && Find(db, r.value.1.id) == Some(v)
    ensures r.None? ==> forall k :: 0 <= k < |nbrs| ==> Find(db, nbrs[k].1.id) != Some(v)
  {
    if nbrs == [] then None
    else
      var last := nbrs[|nbrs| - 1];
      if Find(db, last.1.id) == Some(v) then Some(last) else NbrFor(db, nbrs[..|nbrs| - 1], v)
  }

  // A way from a neighbour to node v over advertised links; its length is the hop count.
  ghost predicate Path(db: Db, nbrs: seq<(nat, Nbr)>, p: seq<nat>, v: nat) {
    && |p| > 0 && p[|p| - 1] == v && v < |db|
    && NbrFor(db, nbrs, p[0]).Some?
    && forall k :: 0 < k < |p| ==> Edge(db, p[k - 1], p[k])
  }

  // The node's gateway and interface are those of the neighbour the path starts at.
  ghost predicate Via(db: Db, nbrs: seq<(nat, Nbr)>, n: Node, p: seq<nat>) {
    && |p| > 0
    && var start := NbrFor(db, nbrs, p[0]);
       start.Some? && n.iface == Some(start.value.0) && n.gw == start.value.1.ip
  }

  // The cost is the length of a path that starts at the node's gateway.
  ghost predicate Founded(db: Db, nbrs: seq<(nat, Nbr)>, n: Node, v: nat) {
    n.cost != INFINITE ==> exists p :: Path(db, nbrs, p, v) && |p| == n.cost && Via(db, nbrs, n, p)
  }

  ghost predicate CostsInv(db: Db, nbrs: seq<(nat, Nbr)>, ns: seq<Node>, settled: nat)
  {
    && (forall v :: 0 <= v < |ns| ==>
          1 <= ns[v].cost <= INFINITE && (ns[v].cost != INFINITE ==> ns[v].cost <= settled + 1))
    && (forall v :: 0 <= v < |ns| && NbrFor(db, nbrs, v).Some? ==> ns[v].cost == 1)
  }

  // Links of settled nodes are relaxed.
  ghost predicate LinksInv(db: Db, ns: seq<Node>) {
    forall u, v :: 0 <= u < |ns| && 0 <= v < |ns| && ns[u].joined && Edge(db, u, v) ==> ns[v].cost <= ns[u].cost + 1
  }

  // Settled nodes cost no more than the others.
  ghost predicate LayersInv(ns: seq<Node>) {
    forall u, v :: 0 <= u < |ns| && 0 <= v < |ns| && ns[u].joined && !ns[v].joined ==> ns[u].cost <= ns[v].cost
  }

  // The state of the selection loop after settling the nodes in order.
  ghost predicate Inv(db: Db, nbrs: seq<(nat, Nbr)>, ns: seq<Node>, order: seq<nat>) {
    && |ns| == |db|
    && (forall v :: 0 <= v < |ns| ==> Founded(db, nbrs, ns[v], v))
    && CostsInv(db, nbrs, ns, |order|)
    && LinksInv(db, ns)
    && LayersInv(ns)
    && OrderInv(ns, order)
  }

  // Exactly the joined nodes, each once, by growing cost.
  ghost predicate OrderInv(ns: seq<Node>, order: seq<nat>) {
    && (forall i :: 0 <= i < |order| ==> order[i] < |ns| && ns[order[i]].joined && ns[order[i]].cost != INFINITE)
    && (forall v :: 0 <= v < |ns| && ns[v].joined ==> v in order)
    && (forall i, j :: 0 <= i < j < |order| ==> order[i] != order[j] && ns[order[i]].cost <= ns[order[j]].cost)
  }

  // ---------------------------------------------------------------- first round

  lemma {:induction false} FirstRoundNodes(db: Db, nbrs: seq<(nat, Nbr)>, v: nat)
    requires v < |db|
    ensures var n := FirstRound(db, nbrs)[v];
            n == match NbrFor(db, nbrs, v)
                 case None => Node(0, None, INFINITE, false)
                 case Some(x) => Node(x.1.ip, Some(x.0), 1, false)
    decreases |nbrs|
  {
    if nbrs != [] {
      FirstRoundNodes(db, nbrs[..|nbrs| - 1], v);
    }
  }

  lemma FirstRoundInv(db: Db, nbrs: seq<(nat, Nbr)>)
    ensures Inv(db, nbrs, FirstRound(db, nbrs), [])
  {
    var ns := FirstRound(db, nbrs);
    forall v | 0 <= v < |ns|
      ensures Founded(db, nbrs, ns[v], v) && !ns[v].joined && (ns[v].cost == 1 || ns[v].cost == INFINITE)
      ensures NbrFor(db, nbrs, v).Some? ==> ns[v].cost == 1
    {
      FirstRoundNodes(db, nbrs, v);
      if ns[v].cost != INFINITE {
        assert Path(db, nbrs, [v], v) && Via(db, nbrs, ns[v], [v]);
      }
    }
  }

  // ---------------------------------------------------------------- one turn

  // What relaxing the first n links of u does: a node is left alone, or gets one hop more than u
  // by an advertised link, if that is less than it had.
  ghost predicate Relaxed(db: Db, ns: seq<Node>, r: seq<Node>, u: nat, n: nat)
    requires |ns| == |r| == |db| && u < |ns| && n <= |db[u].lsas|
  {
    && (forall v :: 0 <= v < |ns| ==>
          r[v] == ns[v]
          || (ns[u].cost + 1 < ns[v].cost && Edge(db, u, v)
              && r[v] == ns[v].(cost := ns[u].cost + 1, gw := ns[u].gw, iface := ns[u].iface)))
    && (forall j, v {:trigger LinkTo(db, u, j, v)} ::
          0 <= j < n && 0 <= v < |ns| && LinkTo(db, u, j, v) ==> r[v].cost <= ns[u].cost + 1)
  }

  lemma {:induction false} RelaxIsRelaxed(db: Db, ns: seq<Node>, u: nat, n: nat)
    requires |ns| == |db| && u < |ns| && n <= |db[u].lsas|
    ensures Relaxed(db, ns, Relax(db, ns, u, n), u, n)
    decreases n
  {
    if n > 0 {
      RelaxIsRelaxed(db, ns, u, n - 1);
      var before, r := Relax(db, ns, u, n - 1), Relax(db, ns, u, n);
      assert before[u] == ns[u];
      var rid := db[u].lsas[n - 1].rid;
      if rid != 0 && Find(db, rid).Some? {
        var v := Find(db, rid).value;
        assert LinkTo(db, u, n - 1, v);
        assert Edge(db, u, v);
      }
    }
  }

  // One turn of the selection loop: u is joined and its links are relaxed. Although the test of
  // the relaxation does not look at joined, no joined node changes.
  ghost predicate Turn(db: Db, ns: seq<Node>, r: seq<Node>, u: nat) {
    && |ns| == |r| == |db| && u < |ns| && !ns[u].joined && ns[u].cost != INFINITE
    && r[u] == ns[u].(joined := true)
    && (forall v :: 0 <= v < |ns| && ns[v].joined ==> r[v] == ns[v])
    && (forall v :: 0 <= v < |ns| && !ns[v].joined && v != u ==>
          r[v] == ns[v]
          || (ns[u].cost + 1 < ns[v].cost && Edge(db, u, v)
              && r[v] == ns[v].(cost := ns[u].cost + 1, gw := ns[u].gw, iface := ns[u].iface)))
    && (forall v :: 0 <= v < |ns| && Edge(db, u, v) ==> r[v].cost <= ns[u].cost + 1)
  }

  lemma SettleIsTurn(db: Db, nbrs: seq<(nat, Nbr)>, ns: seq<Node>, order: seq<nat>, u: nat)
    requires Inv(db, nbrs, ns, order) && Nearest(ns) == Some(u)
    ensures Turn(db, ns, Settle(db, ns, u), u)
  {
    var joined, r := Join(ns, u), Settle(db, ns, u);
    RelaxIsRelaxed(db, joined, u, |db[u].lsas|);
    forall v | 0 <= v < |ns| && Edge(db, u, v)
      ensures r[v].cost <= ns[u].cost + 1
    {
      var j :| 0 <= j < |db[u].lsas| && LinkTo(db, u, j, v);
    }
    forall v | 0 <= v < |ns| && ns[v].joined
      ensures r[v] == ns[v]
    {
      assert ns[v].cost <= ns[u].cost;
    }
  }

  lemma TurnFounded(db: Db, nbrs: seq<(nat, Nbr)>, ns: seq<Node>, r: seq<Node>, u: nat, v: nat)
    requires Turn(db, ns, r, u) && v < |ns| && Founded(db, nbrs, ns[u], u) && Founded(db, nbrs, ns[v], v)
    ensures Founded(db, nbrs, r[v], v)
  {
    if v != u && r[v] != ns[v] {
      var p :| Path(db, nbrs, p, u) && |p| == ns[u].cost && Via(db, nbrs, ns[u], p);
      var q := p + [v];
      forall k | 0 < k < |q|
        ensures Edge(db, q[k - 1], q[k])
      {
        if k < |p| { assert Edge(db, p[k - 1], p[k]); }
      }
      assert Path(db, nbrs, q, v) && |q| == r[v].cost && Via(db, nbrs, r[v], q);
    } else if ns[v].cost != INFINITE {
      var p :| Path(db, nbrs, p, v) && |p| == ns[v].cost && Via(db, nbrs, ns[v], p);
      assert Via(db, nbrs, r[v], p);
    }
  }

  lemma TurnOrder(db: Db, ns: seq<Node>, r: seq<Node>, order: seq<nat>, u: nat)
    requires Turn(db, ns, r, u) && OrderInv(ns, order)
    requires forall k :: 0 <= k < |ns| && ns[k].joined ==> ns[k].cost <= ns[u].cost
    ensures OrderInv(r, order + [u])
  {
    var longer := order + [u];
    assert forall v :: 0 <= v < |r| && r[v].joined ==> v in longer;
  }

  lemma TurnCosts(db: Db, nbrs: seq<(nat, Nbr)>, ns: seq<Node>, r: seq<Node>, u: nat, settled: nat)
    requires Turn(db, ns, r, u) && CostsInv(db, nbrs, ns, settled) && settled + 2 < INFINITE
    ensures CostsInv(db, nbrs, r, settled + 1)
  {
  }

  lemma TurnLinks(db: Db, ns: seq<Node>, r: seq<Node>, u: nat)
    requires Turn(db, ns, r, u) && LinksInv(db, ns)
    ensures LinksInv(db, r)
  {
    forall w, v | 0 <= w < |r| && 0 <= v < |r| && r[w].joined && Edge(db, w, v)
      ensures r[v].cost <= r[w].cost + 1
    {
      assert r[v].cost <= ns[v].cost;
    }
  }

  lemma TurnLayers(db: Db, ns: seq<Node>, r: seq<Node>, u: nat)
    requires Turn(db, ns, r, u) && LayersInv(ns)
    requires forall k :: 0 <= k < |ns| && !ns[k].joined ==> ns[u].cost <= ns[k].cost
    ensures LayersInv(r)
  {
  }

  lemma TurnKeepsInv(db: Db, nbrs: seq<(nat, Nbr)>, ns: seq<Node>, r: seq<Node>, order: seq<nat>, u: nat)
    requires Inv(db, nbrs, ns, order) && Turn(db, ns, r, u) && |db| + 2 < INFINITE
    requires forall k :: 0 <= k < |ns| && !ns[k].joined ==> ns[u].cost <= ns[k].cost
    ensures Inv(db, nbrs, r, order + [u])
  {
    DistinctBounded(order, |db|);
    TurnOrder(db, ns, r, order, u);
    TurnCosts(db, nbrs, ns, r, u, |order|);
    TurnLinks(db, ns, r, u);
    TurnLayers(db, ns, r, u);
    forall v | 0 <= v < |r|
      ensures Founded(db, nbrs, r[v], v)
    {
      TurnFounded(db, nbrs, ns, r, u, v);
    }
  }

  // Settled nodes keep their cost, gateway and interface to the end, and the result satisfies
  // the invariant with nothing left to settle.
  lemma {:induction false} SelectKeepsInv(db: Db, nbrs: seq<(nat, Nbr)>, ns: seq<Node>, order: seq<nat>)
    requires Inv(db, nbrs, ns, order) && |db| + 2 < INFINITE
    ensures var (r, all) := Select(db, ns, order);
            && Inv(db, nbrs, r, all) && Nearest(r).None?
            && order <= all
            && forall v :: 0 <= v < |ns| && ns[v].joined ==> r[v] == ns[v]
    decreases Unjoined(ns)
  {
    match Nearest(ns)
    case None =>
    case Some(u) =>
      var next := Settle(db, ns, u);
      SettleIsTurn(db, nbrs, ns, order, u);
      TurnKeepsInv(db, nbrs, ns, next, order, u);
      JoinReduces(ns, u);
      RelaxKeepsJoined(db, Join(ns, u), u, |db[u].lsas|);
      UnjoinedSame(Join(ns, u), next);
      SelectKeepsInv(db, nbrs, next, order + [u]);
  }

  // ---------------------------------------------------------------- the result

  // Along any path the final cost is at most the hops so far.
  lemma {:induction false} CostAtMost(db: Db, nbrs: seq<(nat, Nbr)>, ns: seq<Node>, order: seq<nat>, p: seq<nat>, v: nat)
    requires Inv(db, nbrs, ns, order) && Nearest(ns).None? && |db| + 2 < INFINITE && Path(db, nbrs, p, v)
    ensures ns[v].cost <= |p| && ns[v].cost != INFINITE
    decreases |p|
  {
    DistinctBounded(order, |db|);
    if |p| > 1 {
      PathPrefix(db, nbrs, p, v);
      CostAtMost(db, nbrs, ns, order, p[..|p| - 1], p[|p| - 2]);
    }
  }

  lemma PathPrefix(db: Db, nbrs: seq<(nat, Nbr)>, p: seq<nat>, v: nat)
    requires Path(db, nbrs, p, v) && |p| > 1
    ensures Path(db, nbrs, p[..|p| - 1], p[|p| - 2]) && Edge(db, p[|p| - 2], v)
  {
    var q := p[..|p| - 1];
    assert Edge(db, p[|p| - 1 - 1], p[|p| - 1]);
    forall k | 0 < k < |q|
      ensures Edge(db, q[k - 1], q[k])
    {
      assert Edge(db, p[k - 1], p[k]);
    }
  }

  // cost is the least hop count to v and n's gateway starts a path that short; or there is none.
  ghost predicate ShortestTo(db: Db, nbrs: seq<(nat, Nbr)>, n: Node, v: nat) {
    if n.cost == INFINITE then forall p :: !Path(db, nbrs, p, v)
    else
      && (exists p :: Path(db, nbrs, p, v) && |p| == n.cost && Via(db, nbrs, n, p))
      && (forall p :: Path(db, nbrs, p, v) ==> n.cost <= |p|)
  }

  // Every router's cost is its least hop count, the maximum value exactly when unreachable, its
  // gateway and interface start a shortest path, and the reachable ones are settled once each by
  // growing cost. node_num is an int, hence the bound on the database.
  lemma ShortestPathsCorrect(db: Db, ifaces: seq<seq<Nbr>>)
    requires |db| < 0x8000_0000
    ensures var (ns, order) := ShortestPaths(db, ifaces);
            && (forall v :: 0 <= v < |db| ==> ShortestTo(db, NbrList(ifaces), ns[v], v))
            && (forall v :: 0 <= v < |db| ==> (v in order <==> ns[v].cost != INFINITE))
            && (forall v :: 0 <= v < |db| ==> (v in order <==> ns[v].joined))
            && OrderInv(ns, order)
  {
    var nbrs := NbrList(ifaces);
    FirstRoundInv(db, nbrs);
    SelectKeepsInv(db, nbrs, FirstRound(db, nbrs), []);
    var (ns, order) := ShortestPaths(db, ifaces);
    forall v | 0 <= v < |db|
      ensures ShortestTo(db, nbrs, ns[v], v)
    {
      forall p | Path(db, nbrs, p, v)
        ensures ns[v].cost <= |p| && ns[v].cost != INFINITE
      {
        CostAtMost(db, nbrs, ns, order, p, v);
      }
    }
  }
}
