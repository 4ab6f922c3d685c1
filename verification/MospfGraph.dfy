/** The link-state database as a graph, and the selection of router_update on it. */
module MospfGraph {
  import opened Wrappers

  // mospf_lsa, mospf_db_entry_t
  datatype Lsa = Lsa(subnet: bv32, mask: bv32, rid: nat)
  datatype DbEntry = DbEntry(rid: nat, seqNo: nat, lsas: seq<Lsa>)

  // mospf_nbr_t under its interface; ifaces are known by their position.
  datatype Nbr = Nbr(id: nat, ip: nat)

  // router_graph_node; its database entry is the one at the same position.
  datatype Node = Node(gw: nat, iface: Option<nat>, cost: nat, joined: bool)

  const INFINITE: nat := 0xffff_ffff

  type Db = seq<DbEntry>

  // find_node
  function Find(db: Db, rid: nat): (found: Option<nat>)
    ensures found.Some? ==> found.value < |db| && db[found.value].rid == rid
    ensures found.Some? ==> forall k :: 0 <= k < found.value ==> db[k].rid != rid
    ensures found.None? ==> forall k :: 0 <= k < |db| ==> db[k].rid != rid
  {
    if db == [] then None
    else
      var before := Find(db[..|db| - 1], rid);
      if before.Some? then before
      else if db[|db| - 1].rid == rid then Some(|db| - 1) else None
  }

  function InitNodes(db: Db): (ns: seq<Node>)
    ensures |ns| == |db|
  {
    seq(|db|, _ => Node(0, None, INFINITE, false))
  }

  // All neighbours with the position of their interface, in the order of the two loops.
  function NbrList(ifaces: seq<seq<Nbr>>): (l: seq<(nat, Nbr)>)
    ensures forall k :: 0 <= k < |l| ==> l[k].0 < |ifaces| && l[k].1 in ifaces[l[k].0]
  {
    if ifaces == [] then []
    else
      var n := |ifaces| - 1;
      NbrList(ifaces[..n]) + seq(|ifaces[n]|, j requires 0 <= j < |ifaces[n]| => (n, ifaces[n][j]))
  }

  // The first round: a node that is a neighbour costs one hop, through the last such neighbour.
  function FirstRound(db: Db, nbrs: seq<(nat, Nbr)>): (ns: seq<Node>)
    ensures |ns| == |db|
  {
    if nbrs == [] then InitNodes(db)
    else
      var ns := FirstRound(db, nbrs[..|nbrs| - 1]);
      var (iface, nbr) := nbrs[|nbrs| - 1];
      match Find(db, nbr.id)
      case None => ns
      case Some(v) => ns[v := ns[v].(iface := Some(iface), gw := nbr.ip, cost := 1)]
  }

  // The scan of find_node_nearest over the first n nodes.
  function NearestUpTo(ns: seq<Node>, n: nat): (best: Option<nat>)
    requires n <= |ns|
    ensures best.Some? ==> best.value < n && !ns[best.value].joined
    ensures best.Some? ==> forall k :: 0 <= k < n && !ns[k].joined ==> ns[best.value].cost <= ns[k].cost
    ensures best.None? ==> forall k :: 0 <= k < n ==> ns[k].joined
  {
    if n == 0 then None
    else
      var best := NearestUpTo(ns, n - 1);
      if (best.None? || ns[n - 1].cost < ns[best.value].cost) && !ns[n - 1].joined then Some(n - 1) else best
  }

  // find_node_nearest
  function Nearest(ns: seq<Node>): (best: Option<nat>)
    ensures best.Some? ==> best.value < |ns| && !ns[best.value].joined && ns[best.value].cost != INFINITE
    ensures best.Some? ==> forall k :: 0 <= k < |ns| && !ns[k].joined ==> ns[best.value].cost <= ns[k].cost
    ensures best.None? ==> forall k :: 0 <= k < |ns| && !ns[k].joined ==> INFINITE <= ns[k].cost
  {
    var best := NearestUpTo(ns, |ns|);
    if best.None? || ns[best.value].cost == INFINITE then None else best
  }

  // The body of the relaxation loop for one advertised link.
  function RelaxLink(db: Db, ns: seq<Node>, u: nat, rid: nat): (r: seq<Node>)
    requires |ns| == |db| && u < |ns|
    ensures |r| == |ns|
  {
    if rid == 0 then ns
    else
      match Find(db, rid)
      case None => ns
      case Some(v) =>
        if ns[u].cost + 1 < ns[v].cost then
          ns[v := ns[v].(cost := ns[u].cost + 1, gw := ns[u].gw, iface := ns[u].iface)]
        else ns
  }

  // The first n advertised links of node u.
  function Relax(db: Db, ns: seq<Node>, u: nat, n: nat): (r: seq<Node>)
    requires |ns| == |db| && u < |ns| && n <= |db[u].lsas|
    ensures |r| == |ns|
  {
    if n == 0 then ns else RelaxLink(db, Relax(db, ns, u, n - 1), u, db[u].lsas[n - 1].rid)
  }

  function Join(ns: seq<Node>, u: nat): seq<Node>
    requires u < |ns|
  {
    ns[u := ns[u].(joined := true)]
  }

  function Unjoined(ns: seq<Node>): nat {
    if ns == [] then 0 else (if ns[|ns| - 1].joined then 0 else 1) + Unjoined(ns[..|ns| - 1])
  }

  lemma {:induction false} UnjoinedSame(ns: seq<Node>, r: seq<Node>)
    requires |ns| == |r| && forall k :: 0 <= k < |ns| ==> ns[k].joined == r[k].joined
    ensures Unjoined(ns) == Unjoined(r)
    decreases |ns|
  {
    if ns != [] { UnjoinedSame(ns[..|ns| - 1], r[..|r| - 1]); }
  }

  lemma {:induction false} JoinReduces(ns: seq<Node>, u: nat)
    requires u < |ns| && !ns[u].joined
    ensures Unjoined(Join(ns, u)) == Unjoined(ns) - 1
    decreases |ns|
  {
    var n := |ns| - 1;
    if u < n {
      JoinReduces(ns[..n], u);
      assert Join(ns, u)[..n] == Join(ns[..n], u);
    } else {
      assert Join(ns, u)[..n] == ns[..n];
    }
  }

  lemma {:induction false} RelaxKeepsJoined(db: Db, ns: seq<Node>, u: nat, n: nat)
    requires |ns| == |db| && u < |ns| && n <= |db[u].lsas|
    ensures forall k :: 0 <= k < |ns| ==> Relax(db, ns, u, n)[k].joined == ns[k].joined
  {
    if n > 0 { RelaxKeepsJoined(db, ns, u, n - 1); }
  }

  // One turn of the selection loop.
  function Settle(db: Db, ns: seq<Node>, u: nat): (r: seq<Node>)
    requires |ns| == |db| && u < |ns|
    ensures |r| == |ns|
  {
    Relax(db, Join(ns, u), u, |db[u].lsas|)
  }

  // The selection loop: the final nodes, and the order in which they were settled.
  function Select(db: Db, ns: seq<Node>, order: seq<nat>): (r: (seq<Node>, seq<nat>))
    requires |ns| == |db|
    ensures |r.0| == |ns|
    decreases Unjoined(ns)
  {
    match Nearest(ns)
    case None => (ns, order)
    case Some(u) =>
      JoinReduces(ns, u);
      RelaxKeepsJoined(db, Join(ns, u), u, |db[u].lsas|);
      UnjoinedSame(Join(ns, u), Settle(db, ns, u));
      Select(db, Settle(db, ns, u), order + [u])
  }

  // The route computation as a function of the database and the neighbours alone.
  function ShortestPaths(db: Db, ifaces: seq<seq<Nbr>>): (r: (seq<Node>, seq<nat>))
    ensures |r.0| == |db|
  {
    Select(db, FirstRound(db, NbrList(ifaces)), [])
  }
}
