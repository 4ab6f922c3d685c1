/** Costs are lengths of simple paths, every accepted config is progress, and progress is bounded. */
module StpProgress {
  import opened Wrappers
  import opened Counting
  import opened StpVector
  import opened StpSwitch
  import opened StpNetwork

  // Whatever is grounded names a real switch as root and costs less than the number of switches.
  lemma GroundedBounded(t: Topology, net: Net, root: nat, cost: nat, u: nat)
    requires WellFormed(t) && |net.switches| == |t.ids| && Grounded(t, net, root, cost, u)
    ensures cost < |t.ids| && root in t.ids
  {
    var path :| Witness(t, net, root, cost, u, path);
    DistinctBounded(path, |t.ids|);
  }

  // Every (root, cost) held by a switch or a port or carried by a message.
  lemma EverythingGrounded(t: Topology, net: Net)
    requires WellFormed(t) && Reachable(t, net)
    ensures Inv(t, net)
    ensures forall u :: 0 <= u < |t.ids| ==> Grounded(t, net, net.switches[u].root, net.switches[u].cost, u)
    ensures forall u, i :: 0 <= u < |t.ids| && 0 <= i < |net.switches[u].ports| ==>
              PortGrounded(t, net, u, i)
    ensures forall m :: m in net.sent ==> m.to in t.links && Grounded(t, net, m.config.root, m.config.cost, t.links[m.to].sw)
  {
    ReachableInv(t, net);
    SwitchesAreGrounded(t, net);
    forall u, i | 0 <= u < |t.ids| && 0 <= i < |net.switches[u].ports|
      ensures PortGrounded(t, net, u, i)
    {
      assert PortTruthful(t, net, u, i) && Consistent(net.switches[u]);
    }
    forall m | m in net.sent
      ensures m.to in t.links && Grounded(t, net, m.config.root, m.config.cost, t.links[m.to].sw)
    {
      assert MessageTruthful(t, net, m);
    }
  }

  // A port's vector counts hops from the switch whose vector it is.
  ghost predicate PortGrounded(t: Topology, net: Net, u: nat, i: nat)
    requires |net.switches| == |t.ids| && u < |net.switches| && i < |net.switches[u].ports|
  {
    var v := net.switches[u].ports[i];
    if Designated(net.switches[u], i) then Grounded(t, net, v.root, v.cost, u)
    else End(u, i) in t.links && Grounded(t, net, v.root, v.cost, t.links[End(u, i)].sw)
  }

  // ---------------------------------------------------------------- the measure

  // How many of the ids are smaller than root.
  ghost function CountBelow(ids: seq<nat>, root: nat): (c: nat)
    ensures c <= |ids|
  {
    if ids == [] then 0 else (if ids[0] < root then 1 else 0) + CountBelow(ids[1..], root)
  }

  lemma {:induction false} CountBelowGrows(ids: seq<nat>, root1: nat, root2: nat)
    requires root1 <= root2
    ensures CountBelow(ids, root1) <= CountBelow(ids, root2)
    ensures root1 in ids && root1 < root2 ==> CountBelow(ids, root1) < CountBelow(ids, root2)
    ensures root1 in ids ==> CountBelow(ids, root1) < |ids|
  {
    if ids != [] {
      CountBelowGrows(ids[1..], root1, root2);
      assert root1 in ids ==> root1 == ids[0] || root1 in ids[1..];
    }
  }

  // Of the two vectors with equal root and cost a port can show, its own and its peer's, the
  // one with the larger switch number is the worse.
  ghost function Side(t: Topology, u: nat, i: nat, v: Vector): nat
    requires u < |t.ids|
  {
    if End(u, i) in t.links && t.links[End(u, i)].sw < |t.ids| then
      var peer := t.ids[t.links[End(u, i)].sw];
      if v.switchId == t.ids[u] then (if SwitchNumber(t.ids[u]) > SwitchNumber(peer) then 1 else 0)
      else (if SwitchNumber(peer) > SwitchNumber(t.ids[u]) then 1 else 0)
    else 0
  }

  ghost function PortRank(t: Topology, u: nat, i: nat, v: Vector): nat
    requires u < |t.ids|
  {
    (CountBelow(t.ids, v.root) * |t.ids| + v.cost) * 2 + Side(t, u, i, v)
  }

  // What a port can show in a reachable state.
  ghost predicate Showable(t: Topology, u: nat, i: nat, v: Vector) {
    && u < |t.ids| && v.root in t.ids && v.cost < |t.ids|
    && (v.switchId != t.ids[u] || v.portId != PortId(i) ==>
          End(u, i) in t.links && t.links[End(u, i)].sw < |t.ids|
          && v.switchId == t.ids[t.links[End(u, i)].sw] && v.portId == PortId(t.links[End(u, i)].port))
  }

  ghost function RankLimit(t: Topology): nat {
    2 * (|t.ids| * |t.ids|)
  }

  // Reading (r, c) as a two-digit number in base n keeps the lexicographic order.
  lemma DigitsOrdered(r1: nat, c1: nat, r2: nat, c2: nat, n: nat)
    requires c1 < n
    requires r1 < r2 || (r1 == r2 && c1 < c2)
    ensures r1 * n + c1 < r2 * n + c2
  {
    if r1 < r2 {
      var d := r2 - r1 - 1;
      assert r2 * n == r1 * n + n + d * n;
    }
  }

  lemma PortRankBounded(t: Topology, u: nat, i: nat, v: Vector)
    requires u < |t.ids| && v.root in t.ids && v.cost < |t.ids|
    ensures PortRank(t, u, i, v) < RankLimit(t)
  {
    CountBelowGrows(t.ids, v.root, v.root);
    DigitsOrdered(CountBelow(t.ids, v.root), v.cost, |t.ids|, 0, |t.ids|);
  }

  // Equal root and cost: the better vector belongs to the switch with the smaller number.
  lemma BetterSide(t: Topology, u: nat, i: nat, better: Vector, worse: Vector)
    requires WellFormed(t) && Showable(t, u, i, better) && Showable(t, u, i, worse) && Better(better, worse)
    requires better.root == worse.root && better.cost == worse.cost
    ensures Side(t, u, i, better) == 0 && Side(t, u, i, worse) == 1
  {
    if End(u, i) in t.links {
      var peer := t.links[End(u, i)].sw;
      assert peer != u;
      assert SwitchNumber(t.ids[peer]) != SwitchNumber(t.ids[u]);
    }
  }

  // A better vector has a smaller rank.
  lemma BetterRanksLower(t: Topology, u: nat, i: nat, better: Vector, worse: Vector)
    requires WellFormed(t) && Showable(t, u, i, better) && Showable(t, u, i, worse) && Better(better, worse)
    ensures PortRank(t, u, i, better) < PortRank(t, u, i, worse)
  {
    var r1, r2 := CountBelow(t.ids, better.root), CountBelow(t.ids, worse.root);
    CountBelowGrows(t.ids, better.root, worse.root);
    if better.root == worse.root && better.cost == worse.cost {
      BetterSide(t, u, i, better, worse);
    } else {
      DigitsOrdered(r1, better.cost, r2, worse.cost, |t.ids|);
    }
  }

  // A vector that is not beaten by another one of the port ranks no higher.
  lemma UnbeatenRanksNoHigher(t: Topology, u: nat, i: nat, v: Vector, w: Vector)
    requires WellFormed(t) && Showable(t, u, i, v) && Showable(t, u, i, w) && !Better(w, v)
    ensures PortRank(t, u, i, v) <= PortRank(t, u, i, w)
    ensures Better(v, w) ==> PortRank(t, u, i, v) < PortRank(t, u, i, w)
  {
    if Better(v, w) {
      BetterRanksLower(t, u, i, v, w);
    } else if End(u, i) in t.links {
      assert t.links[End(u, i)].sw != u;
      assert v.switchId == w.switchId;
    }
  }

  ghost function SwitchRank(t: Topology, u: nat, ports: seq<Vector>, n: nat): nat
    requires u < |t.ids| && n <= |ports|
  {
    if n == 0 then 0 else SwitchRank(t, u, ports, n - 1) + PortRank(t, u, n - 1, ports[n - 1])
  }

  ghost function NetRank(t: Topology, switches: seq<Switch>, n: nat): nat
    requires n <= |t.ids| && n <= |switches|
  {
    if n == 0 then 0
    else NetRank(t, switches, n - 1) + SwitchRank(t, n - 1, switches[n - 1].ports, |switches[n - 1].ports|)
  }

  ghost function PortCount(t: Topology, n: nat): nat
    requires n <= |t.nports|
  {
    if n == 0 then 0 else PortCount(t, n - 1) + t.nports[n - 1]
  }

  ghost predicate AllShowable(t: Topology, u: nat, ports: seq<Vector>) {
    forall i :: 0 <= i < |ports| ==> Showable(t, u, i, ports[i])
  }

  lemma PortsShowable(t: Topology, net: Net, u: nat)
    requires WellFormed(t) && Inv(t, net) && u < |t.ids|
    ensures AllShowable(t, u, net.switches[u].ports)
  {
    SwitchesAreGrounded(t, net);
    var s := net.switches[u];
    assert Consistent(s);
    forall i | 0 <= i < |s.ports|
      ensures Showable(t, u, i, s.ports[i])
    {
      assert PortTruthful(t, net, u, i);
      if Designated(s, i) {
        GroundedBounded(t, net, s.root, s.cost, u);
      } else {
        GroundedBounded(t, net, s.ports[i].root, s.ports[i].cost, t.links[End(u, i)].sw);
      }
    }
  }

  // No port of u ranks higher than before, and port p ranks lower.
  ghost predicate RanksFall(t: Topology, u: nat, before: seq<Vector>, after: seq<Vector>, p: nat)
    requires u < |t.ids|
  {
    && |before| == |after| && p < |before|
    && (forall i {:trigger before[i]} :: 0 <= i < |before| ==> PortRank(t, u, i, after[i]) <= PortRank(t, u, i, before[i]))
    && PortRank(t, u, p, after[p]) < PortRank(t, u, p, before[p])
  }

  lemma BetterPortsRankLower(t: Topology, u: nat, before: seq<Vector>, after: seq<Vector>, p: nat)
    requires WellFormed(t) && |before| == |after| && p < |before|
    requires u < |t.ids| && AllShowable(t, u, before) && AllShowable(t, u, after)
    requires forall i :: 0 <= i < |before| ==> !Better(before[i], after[i])
    requires Better(after[p], before[p])
    ensures RanksFall(t, u, before, after, p)
  {
    forall i | 0 <= i < |before|
      ensures PortRank(t, u, i, after[i]) <= PortRank(t, u, i, before[i])
    {
      UnbeatenRanksNoHigher(t, u, i, after[i], before[i]);
    }
    BetterRanksLower(t, u, p, after[p], before[p]);
  }

  lemma {:induction false} SwitchRankFalls(t: Topology, u: nat, before: seq<Vector>, after: seq<Vector>, n: nat, p: nat)
    requires u < |t.ids| && RanksFall(t, u, before, after, p) && n <= |before|
    ensures SwitchRank(t, u, after, n) <= SwitchRank(t, u, before, n)
    ensures p < n ==> SwitchRank(t, u, after, n) < SwitchRank(t, u, before, n)
    decreases n
  {
    if n > 0 {
      SwitchRankFalls(t, u, before, after, n - 1, p);
      assert PortRank(t, u, n - 1, after[n - 1]) <= PortRank(t, u, n - 1, before[n - 1]);
    }
  }

  lemma {:induction false} NetRankFalls(t: Topology, before: seq<Switch>, after: seq<Switch>, n: nat, u: nat)
    requires |before| == |after| == |t.ids| && n <= |before| && u < |before|
    requires after == before[u := after[u]] && |after[u].ports| == |before[u].ports|
    requires SwitchRank(t, u, after[u].ports, |after[u].ports|) < SwitchRank(t, u, before[u].ports, |before[u].ports|)
    ensures n <= u ==> NetRank(t, after, n) == NetRank(t, before, n)
    ensures u < n ==> NetRank(t, after, n) < NetRank(t, before, n)
    decreases n
  {
    if n > 0 {
      NetRankFalls(t, before, after, n - 1, u);
    }
  }

  lemma Distributes(a: nat, b: nat, limit: nat)
    ensures (a + b) * limit == a * limit + b * limit
  {
  }

  lemma {:induction false} SwitchRankBounded(t: Topology, u: nat, ports: seq<Vector>, n: nat, limit: nat)
    requires u < |t.ids| && n <= |ports| && AllShowable(t, u, ports) && limit == RankLimit(t)
    ensures SwitchRank(t, u, ports, n) <= n * limit
    decreases n
  {
    if n > 0 {
      SwitchRankBounded(t, u, ports, n - 1, limit);
      assert Showable(t, u, n - 1, ports[n - 1]);
      PortRankBounded(t, u, n - 1, ports[n - 1]);
      Distributes(n - 1, 1, limit);
    }
  }

  lemma {:induction false} NetRankBounded(t: Topology, switches: seq<Switch>, n: nat, limit: nat)
    requires |t.ids| == |t.nports| == |switches| && n <= |t.ids| && limit == RankLimit(t)
    requires forall u :: 0 <= u < |t.ids| ==>
               |switches[u].ports| == t.nports[u] && AllShowable(t, u, switches[u].ports)
    ensures NetRank(t, switches, n) <= PortCount(t, n) * limit
    decreases n
  {
    if n > 0 {
      NetRankBounded(t, switches, n - 1, limit);
      SwitchRankBounded(t, n - 1, switches[n - 1].ports, t.nports[n - 1], limit);
      Distributes(PortCount(t, n - 1), t.nports[n - 1], limit);
    }
  }

  // ---------------------------------------------------------------- runs

  // The event changes what some switch knows.
  ghost predicate Changing(t: Topology, net: Net, e: Event)
    requires Enabled(net, e)
  {
    Step(t, net, e).switches != net.switches
  }

  ghost function Changes(t: Topology, net: Net, events: seq<Event>): nat
    requires Run(t, net, events).Some?
    decreases |events|
  {
    if events == [] then 0
    else (if Changing(t, net, events[0]) then 1 else 0) + Changes(t, Step(t, net, events[0]), events[1..])
  }

  lemma AcceptedRankFalls(t: Topology, net: Net, after: Net, m: Message)
    requires WellFormed(t) && Inv(t, net) && Inv(t, after) && AcceptedAt(net, after, m)
    ensures NetRank(t, after.switches, |t.ids|) < NetRank(t, net.switches, |t.ids|)
  {
    var u := m.to.sw;
    PortsShowable(t, net, u);
    PortsShowable(t, after, u);
    BetterPortsRankLower(t, u, net.switches[u].ports, after.switches[u].ports, m.to.port);
    SwitchRankFalls(t, u, net.switches[u].ports, after.switches[u].ports, t.nports[u], m.to.port);
    NetRankFalls(t, net.switches, after.switches, |t.ids|, u);
  }

  // A delivery either leaves all switches alone or is accepted by the switch it reaches.
  lemma DeliveryOutcome(t: Topology, net: Net, after: Net, m: Message)
    requires WellFormed(t) && Inv(t, net) && Enabled(net, Deliver(m)) && after == Step(t, net, Deliver(m))
    ensures after.switches == net.switches || AcceptedAt(net, after, m)
  {
    if Better(m.config, net.switches[m.to.sw].ports[m.to.port]) {
      DeliveredAccepted(t, net, m);
    }
    OutcomeByCase(t, net, after, m);
  }

  lemma OutcomeByCase(t: Topology, net: Net, after: Net, m: Message)
    requires Enabled(net, Deliver(m)) && after == Step(t, net, Deliver(m))
    requires var s := net.switches[m.to.sw];
             Better(m.config, s.ports[m.to.port]) ==> Accepted(s, Accept(s, m.to.port, m.config), m.to.port, m.config)
    ensures after.switches == net.switches || AcceptedAt(net, after, m)
  {
    DeliverCases(t, net, m);
  }

  // A changing event lowers the rank of the network.
  lemma ChangeLowersRank(t: Topology, net: Net, e: Event)
    requires WellFormed(t) && Inv(t, net) && Enabled(net, e) && Changing(t, net, e)
    ensures NetRank(t, Step(t, net, e).switches, |t.ids|) < NetRank(t, net.switches, |t.ids|)
  {
    StepKeepsInv(t, net, e);
    DeliveryOutcome(t, net, Step(t, net, e), e.m);
    AcceptedRankFalls(t, net, Step(t, net, e), e.m);
  }

  lemma {:induction false} ChangesBounded(t: Topology, net: Net, events: seq<Event>)
    requires WellFormed(t) && Inv(t, net) && Run(t, net, events).Some?
    ensures Changes(t, net, events) <= NetRank(t, net.switches, |t.ids|)
    decreases |events|
  {
    if events != [] {
      var next := Step(t, net, events[0]);
      StepKeepsInv(t, net, events[0]);
      ChangesBounded(t, next, events[1..]);
      if Changing(t, net, events[0]) {
        ChangeLowersRank(t, net, events[0]);
      }
    }
  }

  // However many configs are delivered, lost or repeated, at most 2 N^2 P deliveries change
  // anything, for N switches with P ports in all.
  lemma FinitelyManyChanges(t: Topology, events: seq<Event>)
    requires WellFormed(t) && Run(t, InitNet(t), events).Some?
    ensures Changes(t, InitNet(t), events) <= PortCount(t, |t.ids|) * (2 * (|t.ids| * |t.ids|))
  {
    InitInv(t);
    ChangesBounded(t, InitNet(t), events);
    var net := InitNet(t);
    forall u | 0 <= u < |t.ids|
      ensures AllShowable(t, u, net.switches[u].ports)
    {
      PortsShowable(t, net, u);
    }
    NetRankBounded(t, net.switches, |t.ids|, RankLimit(t));
  }

  // No port of any switch shows a worse vector than before.
  ghost predicate PortsNoWorse(before: Net, after: Net) {
    && |before.switches| == |after.switches|
    && forall u, i :: 0 <= u < |before.switches| && 0 <= i < |before.switches[u].ports| ==>
         i < |after.switches[u].ports| && !Better(before.switches[u].ports[i], after.switches[u].ports[i])
  }

  lemma AcceptedPortsNoWorse(before: Net, after: Net, m: Message)
    requires AcceptedAt(before, after, m)
    ensures PortsNoWorse(before, after)
  {
  }

  lemma StepPortsNoWorse(t: Topology, net: Net, e: Event)
    requires WellFormed(t) && Inv(t, net) && Enabled(net, e)
    ensures PortsNoWorse(net, Step(t, net, e))
  {
    if e.Deliver? {
      var after := Step(t, net, e);
      DeliveryOutcome(t, net, after, e.m);
      if AcceptedAt(net, after, e.m) {
        AcceptedPortsNoWorse(net, after, e.m);
      }
    }
  }

  // No event makes a switch's (root, cost) or any port vector worse.
  lemma NothingWorsens(t: Topology, net: Net, e: Event)
    requires WellFormed(t) && Reachable(t, net) && Enabled(net, e)
    ensures Improves(net, Step(t, net, e)) && PortsNoWorse(net, Step(t, net, e))
  {
    ReachableInv(t, net);
    StepKeepsInv(t, net, e);
    StepPortsNoWorse(t, net, e);
  }

  // ---------------------------------------------------------------- self-loops

  // A fresh switch that hears its own port i on a later port j.
  lemma HearingOneself(id: nat, nports: nat, i: nat, j: nat)
    requires i < j < nports <= MAX_PORTS
    ensures var s := InitSwitch(id, nports);
            var x := Handle(s, j, Own(s, i)).sw;
            x.root == id && x.cost == 1
  {
    var s := InitSwitch(id, nports);
    var x := s.(ports := s.ports[j := Own(s, i)]);
    assert !Designated(x, j);
    assert forall k :: 0 <= k < |x.ports| && k != j ==> Designated(x, k);
    assert BestPort(x, |x.ports|) == Some(j);
  }

  // The first hello of a switch carries its initial vector.
  lemma FirstHello(t: Topology, e: End, after: Net)
    requires Wired(t) && e in t.links && after == Step(t, InitNet(t), HelloTimeout(e.sw))
    ensures after.switches == InitNet(t).switches
    ensures Message(t.links[e], Own(InitSwitch(t.ids[e.sw], t.nports[e.sw]), e.port)) in after.sent
  {
    var s := InitSwitch(t.ids[e.sw], t.nports[e.sw]);
    assert Designated(s, e.port) && End(e.sw, e.port) == e;
    assert Outgoing(e.port, Own(s, e.port)) in Hello(s);
    assert Message(t.links[e], Own(s, e.port)) in OnTheWire(t, e.sw, Hello(s));
  }

  // A link between two ports of one switch makes the switch hear itself: after one hello it
  // takes its own port for a way to the root and counts one hop to itself.
  lemma SelfLoopMiscounts(t: Topology, e: End) returns (net: Net)
    requires Wired(t) && e in t.links && t.links[e].sw == e.sw
    ensures Reachable(t, net) && |net.switches| == |t.ids|
    ensures net.switches[e.sw].root == t.ids[e.sw] && net.switches[e.sw].cost == 1
  {
    var from := if e.port < t.links[e].port then e else t.links[e];
    var u := e.sw;
    var s := InitSwitch(t.ids[u], t.nports[u]);
    var m := Message(t.links[from], Own(s, from.port));
    var net1 := Step(t, InitNet(t), HelloTimeout(u));
    FirstHello(t, from, net1);
    net := Step(t, net1, Deliver(m));
    RunFirst(t, net1, Deliver(m), []);
    RunFirst(t, InitNet(t), HelloTimeout(u), [Deliver(m)] + []);
    HearingOneself(t.ids[u], t.nports[u], from.port, m.to.port);
  }

  lemma NoPathToOneself(t: Topology, net: Net, u: nat, path: seq<nat>)
    requires Wired(t) && |net.switches| == |t.ids| && u < |t.ids|
    ensures !Witness(t, net, t.ids[u], 1, u, path)
  {
    if |path| == 2 && path[0] < |t.ids| && path[0] != u {
      assert SwitchNumber(t.ids[path[0]]) != SwitchNumber(t.ids[u]);
    }
  }

  // Costs are lengths of simple paths in every reachable state exactly when no link is a self-loop.
  lemma GroundedIffNoSelfLoop(t: Topology)
    requires Wired(t)
    ensures NoSelfLoop(t) <==>
            forall net :: Reachable(t, net) ==> |net.switches| == |t.ids| && SwitchesGrounded(t, net)
  {
    if NoSelfLoop(t) {
      forall net | Reachable(t, net)
        ensures |net.switches| == |t.ids| && SwitchesGrounded(t, net)
      {
        ReachableInv(t, net);
        SwitchesAreGrounded(t, net);
      }
    } else {
      var e :| e in t.links && t.links[e].sw == e.sw;
      var net := SelfLoopMiscounts(t, e);
      forall path
        ensures !Witness(t, net, t.ids[e.sw], 1, e.sw, path)
      {
        NoPathToOneself(t, net, e.sw, path);
      }
      assert !Grounded(t, net, net.switches[e.sw].root, net.switches[e.sw].cost, e.sw);
    }
  }
}