/** Hop distances to the smallest id, and the vectors a network that has settled shows. */
module StpDistance {
  import opened Wrappers
  import opened StpVector
  import opened StpSwitch
  import opened StpNetwork
  import opened StpProgress
  import opened StpConvergence
  import opened StpAttain

  // d lists every switch's hop distance to the switch r with the smallest id.
  ghost predicate Distances(t: Topology, r: nat, d: seq<nat>) {
    && WellFormed(t) && SmallestId(t, r) && |d| == |t.ids|
    && forall u :: 0 <= u < |d| ==> HopDistance(t, u, r, d[u])
  }

  // A connected network has such distances: they are the costs it settles on.
  lemma DistancesExist(t: Topology, r: nat) returns (d: seq<nat>)
    requires WellFormed(t) && Connected(t) && SmallestId(t, r)
    ensures Distances(t, r, d)
  {
    assert Run(t, InitNet(t), []) == Some(InitNet(t));
    var events := QuietAttainable(t, InitNet(t));
    var net := Run(t, InitNet(t), events).value;
    QuietRunsConverge(t, net, r);
    d := seq(|t.ids|, u requires 0 <= u < |t.ids| => net.switches[u].cost);
  }

  lemma {:induction false} WalkTurned(t: Topology, w: seq<nat>) returns (back: seq<nat>)
    requires WellFormed(t) && Walk(t, w)
    ensures Walk(t, back) && |back| == |w| && back[0] == w[|w| - 1] && back[|w| - 1] == w[0]
    decreases |w|
  {
    if |w| == 1 {
      back := w;
    } else {
      var n := |w| - 1;
      assert Adjacent(t, w[n - 1], w[n]);
      AdjacentTurned(t, w[n - 1], w[n]);
      var rest := WalkTurned(t, w[..n]);
      WalkFrom(t, w[n], rest);
      back := [w[n]] + rest;
    }
  }

  lemma AdjacentTurned(t: Topology, u: nat, v: nat)
    requires WellFormed(t) && Adjacent(t, u, v)
    ensures Adjacent(t, v, u)
  {
    var port :| End(u, port) in t.links && t.links[End(u, port)].sw == v;
    var e := t.links[End(u, port)];
    assert End(v, e.port) == e && t.links[e].sw == u;
  }

  // No switch can know a smaller root, or that root at less than its distance.
  lemma GroundedNoCloser(t: Topology, net: Net, r: nat, d: seq<nat>, root: nat, cost: nat, u: nat)
    requires Distances(t, r, d) && |net.switches| == |t.ids| && u < |t.ids| && Grounded(t, net, root, cost, u)
    ensures NoWorse(t.ids[r], d[u], root, cost)
  {
    var path :| Witness(t, net, root, cost, u, path);
    forall k | 0 < k < |path|
      ensures Adjacent(t, path[k - 1], path[k])
    {
      assert Adjacent(t, path[k - 1], path[k - 1 + 1]);
    }
    if root == t.ids[r] {
      assert SwitchNumber(t.ids[path[0]]) == SwitchNumber(t.ids[r]);
      var back := WalkTurned(t, path);
      assert Joins(t, back, u, r);
    }
  }

  // The switch knows the smallest id as root and its own distance to it.
  ghost predicate Right(t: Topology, net: Net, r: nat, d: seq<nat>, u: nat)
    requires r < |t.ids| && u < |d| && u < |net.switches|
  {
    net.switches[u].root == t.ids[r] && net.switches[u].cost == d[u]
  }

  lemma NoBetterThanRight(t: Topology, net: Net, r: nat, d: seq<nat>, u: nat)
    requires Distances(t, r, d) && Inv(t, net) && u < |t.ids|
    ensures NoWorse(t.ids[r], d[u], net.switches[u].root, net.switches[u].cost)
  {
    SwitchesAreGrounded(t, net);
    GroundedNoCloser(t, net, r, d, net.switches[u].root, net.switches[u].cost, u);
  }

  lemma RootRight(t: Topology, net: Net, r: nat, d: seq<nat>)
    requires Distances(t, r, d) && Inv(t, net)
    ensures d[r] == 0 && Right(t, net, r, d, r)
  {
    assert Joins(t, [r], r, r);
    NoBetterThanRight(t, net, r, d, r);
    assert Consistent(net.switches[r]);
  }

  lemma ZeroIsRoot(t: Topology, r: nat, d: seq<nat>, u: nat)
    requires Distances(t, r, d) && u < |d| && d[u] == 0
    ensures u == r
  {
    var w :| Joins(t, w, u, r) && |w| == d[u] + 1;
  }

  lemma WalkRest(t: Topology, w: seq<nat>, v: nat, r: nat)
    requires Joins(t, w, v, r) && |w| > 1
    ensures Joins(t, w[1..], w[1], r)
  {
    var rest := w[1..];
    forall k | 0 < k < |rest|
      ensures Adjacent(t, rest[k - 1], rest[k])
    {
      assert Adjacent(t, w[k + 1 - 1], w[k + 1]);
    }
  }

  // Every other switch has a link to one that is a hop closer.
  lemma CloserNeighbour(t: Topology, r: nat, d: seq<nat>, v: nat) returns (e: End)
    requires Distances(t, r, d) && v < |d| && d[v] > 0
    ensures e in t.links && t.links[e].sw == v && e.sw < |d| && d[e.sw] + 1 == d[v]
  {
    var w :| Joins(t, w, v, r) && |w| == d[v] + 1;
    var u := w[1];
    assert Adjacent(t, w[1 - 1], w[1]);
    var port :| End(v, port) in t.links && t.links[End(v, port)].sw == u;
    e := t.links[End(v, port)];
    WalkRest(t, w, v, r);
    var short :| Joins(t, short, u, r) && |short| == d[u] + 1;
    WalkFrom(t, v, short);
    assert Joins(t, [v] + short, v, r);
  }

  // What a link end will advertise in the settled network.
  function Final(t: Topology, r: nat, d: seq<nat>, e: End): Vector
    requires r < |t.ids| && e.sw < |t.ids| && |d| == |t.ids|
  {
    Vector(t.ids[r], d[e.sw], t.ids[e.sw], PortId(e.port))
  }

  // The end that will be the designated one of its link.
  ghost predicate Wins(t: Topology, r: nat, d: seq<nat>, e: End)
    requires e in t.links
  {
    && r < |t.ids| == |d| && e.sw < |d| && t.links[e].sw < |d|
    && Better(Final(t, r, d, e), Final(t, r, d, t.links[e]))
  }

  lemma OneWins(t: Topology, r: nat, d: seq<nat>, e: End)
    requires Distances(t, r, d) && e in t.links
    ensures Wins(t, r, d, e) <==> !Wins(t, r, d, t.links[e])
  {
    assert SwitchNumber(t.ids[e.sw]) != SwitchNumber(t.ids[t.links[e].sw]);
  }

  // The port at the other end shows something that the final vector of e does not beat.
  ghost predicate Absorbed(t: Topology, net: Net, r: nat, d: seq<nat>, e: End)
    requires e in t.links && r < |t.ids| == |d| && e.sw < |d|
  {
    var p := t.links[e];
    && p.sw < |net.switches| && p.port < |net.switches[p.sw].ports|
    && !Better(Final(t, r, d, e), net.switches[p.sw].ports[p.port])
  }

  // A switch that has absorbed the final vector of a neighbour a hop closer is right.
  lemma AbsorbedMakesRight(t: Topology, net: Net, r: nat, d: seq<nat>, e: End)
    requires Distances(t, r, d) && Inv(t, net) && e in t.links
    requires d[t.links[e].sw] == d[e.sw] + 1 && Absorbed(t, net, r, d, e)
    ensures Right(t, net, r, d, t.links[e].sw)
  {
    var p := t.links[e];
    NoBetterThanRight(t, net, r, d, p.sw);
    assert Consistent(net.switches[p.sw]);
    NotWorseThanStored(net.switches[p.sw], p.port, Final(t, r, d, e));
  }

  // A consistent switch is at most a hop worse than anything a port of it shows.
  lemma NotWorseThanStored(s: Switch, i: nat, v: Vector)
    requires Consistent(s) && i < |s.ports| && !Better(v, s.ports[i])
    ensures NoWorse(s.root, s.cost, v.root, v.cost + 1)
  {
    if !Designated(s, i) {
      assert s.rootPort.Some?;
      assert !Better(s.ports[i], s.ports[s.rootPort.value]);
    }
  }

  lemma CloserWins(t: Topology, r: nat, d: seq<nat>, e: End)
    requires r < |t.ids| == |d| && e in t.links && e.sw < |d| && t.links[e].sw < |d| && d[t.links[e].sw] == d[e.sw] + 1
    ensures Wins(t, r, d, e)
  {
  }

  ghost predicate AbsorbedBelow(t: Topology, net: Net, r: nat, d: seq<nat>, k: nat) {
    forall e :: e in t.links && Wins(t, r, d, e) && d[e.sw] < k ==> Absorbed(t, net, r, d, e)
  }

  // When the winners closer than k are absorbed, every switch up to distance k is right.
  lemma {:induction false} RightUpTo(t: Topology, net: Net, r: nat, d: seq<nat>, k: nat, v: nat)
    requires Distances(t, r, d) && Inv(t, net) && AbsorbedBelow(t, net, r, d, k) && v < |d| && d[v] <= k
    ensures Right(t, net, r, d, v)
  {
    if d[v] == 0 {
      ZeroIsRoot(t, r, d, v);
      RootRight(t, net, r, d);
    } else {
      var e := CloserNeighbour(t, r, d, v);
      CloserWins(t, r, d, e);
      AbsorbedMakesRight(t, net, r, d, e);
    }
  }

  // A port that is not designated shows what its peer once held, and that beats its own vector.
  lemma StoredFacts(t: Topology, net: Net, e: End)
    requires WellFormed(t) && Inv(t, net) && e in t.links && !Designated(net.switches[e.sw], e.port)
    ensures var s, p := net.switches[e.sw], t.links[e];
            var v := s.ports[e.port];
            && v.switchId == t.ids[p.sw] && v.portId == PortId(p.port) && Better(v, Own(s, e.port))
            && NoWorse(net.switches[p.sw].root, net.switches[p.sw].cost, v.root, v.cost)
  {
    assert End(e.sw, e.port) == e;
    assert PortTruthful(t, net, e.sw, e.port);
    assert Consistent(net.switches[e.sw]);
  }

  // A right switch is designated on the link ends it wins.
  lemma WinnerDesignated(t: Topology, net: Net, r: nat, d: seq<nat>, e: End)
    requires Distances(t, r, d) && Inv(t, net) && e in t.links && Wins(t, r, d, e) && Right(t, net, r, d, e.sw)
    ensures Designated(net.switches[e.sw], e.port)
  {
    var s, p := net.switches[e.sw], t.links[e];
    NoBetterThanRight(t, net, r, d, p.sw);
    assert Own(s, e.port) == Final(t, r, d, e);
    if !Designated(s, e.port) {
      StoredFacts(t, net, e);
    }
  }

  // When all winners are absorbed the network is stable.
  lemma AllAbsorbedStable(t: Topology, net: Net, r: nat, d: seq<nat>)
    requires Distances(t, r, d) && Inv(t, net)
    requires forall e :: e in t.links && Wins(t, r, d, e) ==> Absorbed(t, net, r, d, e)
    ensures Stable(t, net)
  {
    forall e | e in t.links && Designated(net.switches[e.sw], e.port)
      ensures var p := t.links[e];
              Handle(net.switches[p.sw], p.port, Own(net.switches[e.sw], e.port)).sw == net.switches[p.sw]
    {
      RightUpTo(t, net, r, d, d[e.sw], e.sw);
      RightUpTo(t, net, r, d, d[t.links[e].sw], t.links[e].sw);
      FinalAbsorbed(t, net, r, d, e);
    }
  }

  lemma ShowsAtLeastOwn(s: Switch, i: nat, v: Vector)
    requires Consistent(s) && i < |s.ports| && !Better(v, Own(s, i))
    ensures !Better(v, s.ports[i])
  {
  }

  // The current vector of a right designated end changes nothing at a right peer.
  lemma FinalAbsorbed(t: Topology, net: Net, r: nat, d: seq<nat>, e: End)
    requires Distances(t, r, d) && Inv(t, net) && e in t.links && Designated(net.switches[e.sw], e.port)
    requires Wins(t, r, d, e) ==> Absorbed(t, net, r, d, e)
    requires Right(t, net, r, d, e.sw) && Right(t, net, r, d, t.links[e].sw)
    ensures var p := t.links[e];
            Handle(net.switches[p.sw], p.port, Own(net.switches[e.sw], e.port)).sw == net.switches[p.sw]
  {
    var p := t.links[e];
    OneWins(t, r, d, e);
    assert Own(net.switches[e.sw], e.port) == Final(t, r, d, e);
    if !Wins(t, r, d, e) {
      assert Own(net.switches[p.sw], p.port) == Final(t, r, d, p);
      ShowsAtLeastOwn(net.switches[p.sw], p.port, Final(t, r, d, e));
    }
  }
}
