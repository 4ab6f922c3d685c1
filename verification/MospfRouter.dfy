/** The router as an object: its database, its forwarding list, and the loops that rebuild it. */
module MospfRouter {
  import opened Wrappers
  import opened MospfGraph
  import opened MospfPaths
  import opened MospfTable
  import opened MospfHops
  import opened MospfDatabase

  class Router {
    const routerId: nat
    var db: Db
    var ifaces: seq<seq<Nbr>>
    var rtable: Table

    constructor (routerId: nat)
      ensures this.routerId == routerId && db == [] && ifaces == [] && rtable == []
    {
      this.routerId := routerId;
      db, ifaces, rtable := [], [], [];
    }

    // find_node
    method FindNode(rid: nat) returns (node: Option<nat>)
      ensures node == Find(db, rid)
    {
      for i := 0 to |db|
        invariant Find(db[..i], rid).None?
      {
        assert db[..i + 1][..i] == db[..i];
        if db[i].rid == rid {
          FindPrefix(db, i + 1, rid);
          return Some(i);
        }
      }
      assert db[..|db|] == db;
      node := None;
    }

    // find_node_nearest
    method FindNodeNearest(nodes: array<Node>) returns (nearest: Option<nat>)
      ensures nearest == Nearest(nodes[..])
    {
      nearest := None;
      for i := 0 to nodes.Length
        invariant nearest == NearestUpTo(nodes[..], i)
      {
        if (nearest.None? || nodes[i].cost < nodes[nearest.value].cost) && !nodes[i].joined {
          nearest := Some(i);
        }
      }
      if nearest.Some? && nodes[nearest.value].cost == INFINITE {
        nearest := None;
      }
    }

    // router_exist, called with the network number subnet & mask
    method RouterExist(net: bv32) returns (exist: bool)
      ensures exist <==> HasNet(rtable, net)
    {
      for k := 0 to |rtable|
        invariant forall j :: 0 <= j < k ==> Net(rtable[j]) != net
      {
        if Net(rtable[k]) == net {
          return true;
        }
      }
      exist := false;
    }

    // delete_dynamic_routers
    method DeleteDynamicRouters()
      modifies this`rtable
      ensures rtable == Statics(old(rtable))
    {
      var i := 0;
      ghost var done, rest := [], rtable;
      while i < |rtable|
        invariant old(rtable) == done + rest && rtable == Statics(done) + rest && i == |Statics(done)|
        decreases |rest|
      {
        StaticsNext(done, rest[0]);
        Shifted(done, rest);
        Shifted(Statics(done), rest);
        if rtable[i].gw != 0 {
          rtable := rtable[..i] + rtable[i + 1..];
        } else {
          i := i + 1;
        }
        done, rest := done + [rest[0]], rest[1..];
      }
      assert rest == [] && done + rest == done && Statics(done) + rest == Statics(done);
    }

    // the inner loop of the first round of router_update, over the neighbours on interface i
    method IfaceHops(nodes: array<Node>, i: nat, ghost before: seq<(nat, Nbr)>)
      requires i < |ifaces| && nodes[..] == FirstRound(db, before)
      modifies nodes
      ensures nodes[..] == FirstRound(db, before + IfaceNbrs(i, ifaces[i], |ifaces[i]|))
    {
      assert before + IfaceNbrs(i, ifaces[i], 0) == before;
      for j := 0 to |ifaces[i]|
        invariant nodes[..] == FirstRound(db, before + IfaceNbrs(i, ifaces[i], j))
      {
        ghost var l := before + IfaceNbrs(i, ifaces[i], j + 1);
        assert l[..|l| - 1] == before + IfaceNbrs(i, ifaces[i], j) && l[|l| - 1] == (i, ifaces[i][j]);
        var node := FindNode(ifaces[i][j].id);
        if node.Some? {
          nodes[node.value] := nodes[node.value].(iface := Some(i), gw := ifaces[i][j].ip, cost := 1);
        }
      }
    }

    // the first round of router_update
    method FirstHops(nodes: array<Node>)
      requires nodes[..] == InitNodes(db)
      modifies nodes
      ensures nodes[..] == FirstRound(db, NbrList(ifaces))
    {
      for i := 0 to |ifaces|
        invariant nodes[..] == FirstRound(db, NbrList(ifaces[..i]))
      {
        IfaceHops(nodes, i, NbrList(ifaces[..i]));
        assert ifaces[..i + 1][..i] == ifaces[..i];
        assert NbrList(ifaces[..i + 1]) == NbrList(ifaces[..i]) + IfaceNbrs(i, ifaces[i], |ifaces[i]|);
      }
      assert ifaces[..|ifaces|] == ifaces;
    }

    // the relaxation of one settled node; u32 costs do not wrap as long as they are below the maximum
    method RelaxLinks(nodes: array<Node>, u: nat)
      requires nodes.Length == |db| && u < nodes.Length && nodes[u].cost < INFINITE
      modifies nodes
      ensures nodes[..] == Relax(db, old(nodes[..]), u, |db[u].lsas|)
    {
      for i := 0 to |db[u].lsas|
        invariant nodes[..] == Relax(db, old(nodes[..]), u, i) && nodes[u] == old(nodes[u])
      {
        if db[u].lsas[i].rid == 0 {
          continue;
        }
        var node := FindNode(db[u].lsas[i].rid);
        if node.Some? && nodes[u].cost + 1 < nodes[node.value].cost {
          nodes[node.value] := nodes[node.value].(cost := nodes[u].cost + 1, gw := nodes[u].gw, iface := nodes[u].iface);
        }
      }
    }

    // the selection loop of router_update
    method SelectionLoop(nodes: array<Node>) returns (ordered: seq<nat>)
      requires nodes.Length == |db|
      requires forall k :: 0 <= k < nodes.Length ==> nodes[k].cost <= INFINITE
      modifies nodes
      ensures (nodes[..], ordered) == Select(db, old(nodes[..]), [])
    {
      ordered := [];
      var nearest := FindNodeNearest(nodes);
      while nearest.Some?
        invariant nodes.Length == |db| && nearest == Nearest(nodes[..])
        invariant Select(db, nodes[..], ordered) == Select(db, old(nodes[..]), [])
        invariant forall k :: 0 <= k < nodes.Length ==> nodes[k].cost <= INFINITE
        decreases Unjoined(nodes[..])
      {
        var u := nearest.value;
        ghost var before := nodes[..];
        nodes[u] := nodes[u].(joined := true);
        assert nodes[..] == Join(before, u);
        ordered := ordered + [u];
        RelaxLinks(nodes, u);
        JoinReduces(before, u);
        RelaxKeepsJoined(db, Join(before, u), u, |db[u].lsas|);
        UnjoinedSame(Join(before, u), nodes[..]);
        RelaxLowers(db, Join(before, u), u, |db[u].lsas|);
        nearest := FindNodeNearest(nodes);
      }
    }

    // Adds the entry unless the table has its network number.
    method AddEntry(e: RtEntry)
      modifies this`rtable
      ensures rtable == AddIfNew(old(rtable), e)
    {
      var exist := RouterExist(e.dest & e.mask);
      if !exist {
        rtable := rtable + [e];
      }
    }

    // one turn of the loop that fills the forwarding list
    method AddRouterNets(ghost ns: seq<Node>, node: Node, u: nat)
      requires |ns| == |db| && u < |ns| && ns[u] == node && node.iface.Some?
      modifies this`rtable
      ensures rtable == AddAdverts(db, ns, old(rtable), u, |db[u].lsas|)
    {
      for j := 0 to |db[u].lsas|
        invariant rtable == AddAdverts(db, ns, old(rtable), u, j)
      {
        AddEntry(RtEntry(db[u].lsas[j].subnet, db[u].lsas[j].mask, node.gw, node.iface.value));
      }
    }

    // the last loop of router_update
    method FillTable(nodes: array<Node>, ordered: seq<nat>)
      requires Routable(db, nodes[..], ordered)
      modifies this`rtable
      ensures rtable == AddAll(db, nodes[..], ordered, old(rtable), |ordered|)
    {
      for i := 0 to |ordered|
        invariant rtable == AddAll(db, nodes[..], ordered, old(rtable), i)
      {
        AddRouterNets(nodes[..], nodes[ordered[i]], ordered[i]);
      }
    }

    // router_update
    method RouterUpdate()
      requires |db| < 0x8000_0000
      modifies this`rtable
      ensures rtable == Updated(db, ifaces, old(rtable)) && RoutesByHops(db, ifaces, Statics(old(rtable)), rtable)
    {
      UpdatedByHops(db, ifaces, rtable);
      var nodes := new Node[|db|](_ => Node(0, None, INFINITE, false));
      assert nodes[..] == InitNodes(db);
      FirstHops(nodes);
      FirstRoundInv(db, NbrList(ifaces));
      var ordered := SelectionLoop(nodes);
      SettledRoutable(db, ifaces);
      DeleteDynamicRouters();
      FillTable(nodes, ordered);
    }

    // the loop over the neighbours on one interface
    method FloodIface(i: nat) returns (sent: seq<(nat, nat)>)
      requires i < |ifaces|
      ensures sent == Copies(IfaceNbrs(i, ifaces[i], |ifaces[i]|))
    {
      sent := [];
      for j := 0 to |ifaces[i]|
        invariant sent == Copies(IfaceNbrs(i, ifaces[i], j))
      {
        sent := sent + [(i, ifaces[i][j].ip)];
      }
    }

    // the forwarding in handle_mospf_lsu: a copy to every neighbour on another interface, unless
    // the 8-bit ttl has come down to 0
    method Flood(from: nat, ttl: nat) returns (sent: seq<(nat, nat)>)
      ensures sent == Flooded(ifaces, from, ttl) && FloodedTo(ifaces, from, ttl, sent)
    {
      FloodExact(ifaces, from, ttl);
      sent := [];
      if (ttl + 255) % 256 == 0 {
        return;
      }
      sent := FloodOthers(from);
    }

    // the loop over the other interfaces
    method FloodOthers(from: nat) returns (sent: seq<(nat, nat)>)
      ensures sent == Copies(Elsewhere(NbrList(ifaces), from))
    {
      sent := [];
      for i := 0 to |ifaces|
        invariant sent == Copies(Elsewhere(NbrList(ifaces[..i]), from))
      {
        assert ifaces[..i + 1][..i] == ifaces[..i];
        CopiesNext(ifaces[..i + 1], from);
        if i != from {
          var more := FloodIface(i);
          sent := sent + more;
        }
      }
      assert ifaces[..|ifaces|] == ifaces;
    }

    // handle_mospf_lsu, for an update that came in on interface from
    method HandleLsu(m: Lsu, from: nat, ttl: nat) returns (sent: seq<(nat, nat)>)
      requires |db| + 1 < 0x8000_0000
      modifies this`db, this`rtable
      ensures db == Receive(old(db), routerId, m)
      ensures rtable == if m.rid == routerId then old(rtable) else Updated(db, ifaces, old(rtable))
      ensures sent == if m.rid == routerId then [] else Flooded(ifaces, from, ttl)
      ensures m.rid != routerId ==>
                FloodedTo(ifaces, from, ttl, sent) && RoutesByHops(db, ifaces, Statics(old(rtable)), rtable)
    {
      if m.rid == routerId {
        return [];
      }
      var found := FindNode(m.rid);
      if found.None? {
        db := db + [DbEntry(m.rid, 0, m.lsas)];
      } else if m.seqNo > db[found.value].seqNo {
        db := db[found.value := db[found.value].(lsas := m.lsas)];
      }
      sent := Flood(from, ttl);
      RouterUpdate();
    }
  }

  // The neighbours that are not on interface from.
  function Elsewhere(nbrs: seq<(nat, Nbr)>, from: nat): seq<(nat, Nbr)> {
    if nbrs == [] then []
    else if nbrs[|nbrs| - 1].0 == from then Elsewhere(nbrs[..|nbrs| - 1], from)
    else Elsewhere(nbrs[..|nbrs| - 1], from) + [nbrs[|nbrs| - 1]]
  }

  // A copy for each of them: the interface it leaves by and the address it goes to.
  function Copies(nbrs: seq<(nat, Nbr)>): (l: seq<(nat, nat)>)
    ensures |l| == |nbrs|
  {
    seq(|nbrs|, k requires 0 <= k < |nbrs| => (nbrs[k].0, nbrs[k].1.ip))
  }

  function Flooded(ifaces: seq<seq<Nbr>>, from: nat, ttl: nat): seq<(nat, nat)> {
    if (ttl + 255) % 256 == 0 then [] else Copies(Elsewhere(NbrList(ifaces), from))
  }

  // The neighbours on one interface are kept or dropped as a whole.
  lemma {:induction false} ElsewhereNext(nbrs: seq<(nat, Nbr)>, i: nat, xs: seq<Nbr>, n: nat, from: nat)
    requires n <= |xs|
    ensures Elsewhere(nbrs + IfaceNbrs(i, xs, n), from) == Elsewhere(nbrs, from) + if i == from then [] else IfaceNbrs(i, xs, n)
    decreases n
  {
    if n == 0 {
      assert nbrs + IfaceNbrs(i, xs, 0) == nbrs;
    } else {
      ElsewhereNext(nbrs, i, xs, n - 1, from);
      ElsewhereOne(nbrs + IfaceNbrs(i, xs, n - 1), (i, xs[n - 1]), from);
      assert IfaceNbrs(i, xs, n) == IfaceNbrs(i, xs, n - 1) + [(i, xs[n - 1])];
      OneBehind(nbrs, IfaceNbrs(i, xs, n - 1), (i, xs[n - 1]));
      OneBehind(Elsewhere(nbrs, from), IfaceNbrs(i, xs, n - 1), (i, xs[n - 1]));
    }
  }

  lemma OneBehind(a: seq<(nat, Nbr)>, b: seq<(nat, Nbr)>, x: (nat, Nbr))
    ensures a + (b + [x]) == (a + b) + [x]
  {
  }

  lemma ElsewhereOne(nbrs: seq<(nat, Nbr)>, x: (nat, Nbr), from: nat)
    ensures Elsewhere(nbrs + [x], from) == Elsewhere(nbrs, from) + if x.0 == from then [] else [x]
  {
    assert (nbrs + [x])[..|nbrs|] == nbrs;
  }

  lemma CopiesJoin(a: seq<(nat, Nbr)>, b: seq<(nat, Nbr)>)
    ensures Copies(a + b) == Copies(a) + Copies(b)
  {
  }

  // How many of the neighbours have this address.
  function Listings(nbrs: seq<Nbr>, a: nat): nat {
    |ListedAt(nbrs, |nbrs|, a)|
  }

  // Which of the first n neighbours they are.
  function ListedAt(nbrs: seq<Nbr>, n: nat, a: nat): set<nat>
    requires n <= |nbrs|
  {
    set j: nat | j < n && nbrs[j].ip == a
  }

  // What leaves: nothing when the 8-bit ttl comes down to 0; else, to each address by each other
  // interface as many copies as the interface lists neighbours there, and by interface from none.
  ghost predicate FloodedTo(ifaces: seq<seq<Nbr>>, from: nat, ttl: nat, sent: seq<(nat, nat)>) {
    if ttl % 256 == 1 then sent == []
    else forall i: nat, a: nat {:trigger CopiesDue(ifaces, from, i, a)} :: multiset(sent)[(i, a)] == CopiesDue(ifaces, from, i, a)
  }

  function CopiesDue(ifaces: seq<seq<Nbr>>, from: nat, i: nat, a: nat): nat {
    if i == from || i >= |ifaces| then 0 else Listings(ifaces[i], a)
  }

  lemma ListingsNext(nbrs: seq<Nbr>, n: nat, a: nat)
    requires n < |nbrs|
    ensures |ListedAt(nbrs, n + 1, a)| == |ListedAt(nbrs, n, a)| + if nbrs[n].ip == a then 1 else 0
  {
    var before := ListedAt(nbrs, n, a);
    assert ListedAt(nbrs, n + 1, a) == if nbrs[n].ip == a then before + {n} else before;
  }

  lemma {:induction false} IfaceCopies(i: nat, nbrs: seq<Nbr>, n: nat, x: (nat, nat))
    requires n <= |nbrs|
    ensures multiset(Copies(IfaceNbrs(i, nbrs, n)))[x] == if x.0 == i then |ListedAt(nbrs, n, x.1)| else 0
    decreases n
  {
    if n > 0 {
      IfaceCopies(i, nbrs, n - 1, x);
      ListingsNext(nbrs, n - 1, x.1);
      assert Copies(IfaceNbrs(i, nbrs, n)) == Copies(IfaceNbrs(i, nbrs, n - 1)) + [(i, nbrs[n - 1].ip)];
    }
  }

  // The copies for one more interface.
  lemma CopiesNext(ifaces: seq<seq<Nbr>>, from: nat)
    requires ifaces != []
    ensures var n := |ifaces| - 1;
            Copies(Elsewhere(NbrList(ifaces), from)) == Copies(Elsewhere(NbrList(ifaces[..n]), from))
              + if n == from then [] else Copies(IfaceNbrs(n, ifaces[n], |ifaces[n]|))
  {
    var n := |ifaces| - 1;
    var before, last := NbrList(ifaces[..n]), IfaceNbrs(n, ifaces[n], |ifaces[n]|);
    assert NbrList(ifaces) == before + last;
    ElsewhereNext(before, n, ifaces[n], |ifaces[n]|, from);
    CopiesJoin(Elsewhere(before, from), last);
  }

  lemma {:induction false} CopiesCounted(ifaces: seq<seq<Nbr>>, from: nat, i: nat, a: nat)
    ensures multiset(Copies(Elsewhere(NbrList(ifaces), from)))[(i, a)] == CopiesDue(ifaces, from, i, a)
    decreases |ifaces|
  {
    if ifaces != [] {
      var n := |ifaces| - 1;
      CopiesCounted(ifaces[..n], from, i, a);
      CopiesNext(ifaces, from);
      IfaceCopies(n, ifaces[n], |ifaces[n]|, (i, a));
    }
  }

  lemma TtlSpent(ttl: nat)
    ensures (ttl + 255) % 256 == 0 <==> ttl % 256 == 1
  {
  }

  lemma FloodExact(ifaces: seq<seq<Nbr>>, from: nat, ttl: nat)
    ensures FloodedTo(ifaces, from, ttl, Flooded(ifaces, from, ttl))
  {
    TtlSpent(ttl);
    forall i: nat, a: nat
      ensures multiset(Copies(Elsewhere(NbrList(ifaces), from)))[(i, a)] == CopiesDue(ifaces, from, i, a)
    {
      CopiesCounted(ifaces, from, i, a);
    }
  }

  lemma Shifted(front: Table, rest: Table)
    requires rest != []
    ensures front + rest == front + [rest[0]] + rest[1..]
    ensures (front + rest)[|front|] == rest[0]
    ensures (front + rest)[..|front|] + (front + rest)[|front| + 1..] == front + rest[1..]
  {
  }

  // The neighbours on one interface, as the inner loop meets them.
  function IfaceNbrs(i: nat, nbrs: seq<Nbr>, n: nat): (l: seq<(nat, Nbr)>)
    requires n <= |nbrs|
    ensures |l| == n
  {
    seq(n, j requires 0 <= j < n => (i, nbrs[j]))
  }

  lemma {:induction false} FindPrefix(db: Db, n: nat, rid: nat)
    requires n <= |db| && Find(db[..n], rid).Some?
    ensures Find(db, rid) == Find(db[..n], rid)
    decreases |db|
  {
    if n < |db| {
      assert db[..|db| - 1][..n] == db[..n];
      FindPrefix(db[..|db| - 1], n, rid);
    } else {
      assert db[..n] == db;
    }
  }

  lemma {:induction false} RelaxLowers(db: Db, ns: seq<Node>, u: nat, n: nat)
    requires |ns| == |db| && u < |ns| && n <= |db[u].lsas|
    ensures forall k :: 0 <= k < |ns| ==> Relax(db, ns, u, n)[k].cost <= ns[k].cost
  {
    if n > 0 { RelaxLowers(db, ns, u, n - 1); }
  }
}
