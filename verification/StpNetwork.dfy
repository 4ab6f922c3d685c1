/** A network of switches joined by point-to-point links. Channels may lose, delay, repeat and
    reorder: any config ever sent can be delivered at any later time, any number of times. */
module StpNetwork {
  import opened Wrappers
  import opened StpVector
  import opened StpSwitch

  // One end of a link: a port of a switch.
  datatype End = End(sw: nat, port: nat)

  datatype Topology = Topology(ids: seq<nat>, nports: seq<nat>, links: map<End, End>)

  // Switch ids differ in the bits the comparison reads, and each link joins two different ports.
  ghost predicate Wired(t: Topology) {
    && |t.ids| == |t.nports|
    && (forall u :: 0 <= u < |t.nports| ==> t.nports[u] <= MAX_PORTS)
    && (forall u, v :: 0 <= u < v < |t.ids| ==> SwitchNumber(t.ids[u]) != SwitchNumber(t.ids[v]))
    && (forall e :: e in t.links ==>
          e.sw < |t.ids| && e.port < t.nports[e.sw] && t.links[e] != e
          && t.links[e] in t.links && t.links[t.links[e]] == e)
  }

  // No link joins two ports of one switch.
  ghost predicate NoSelfLoop(t: Topology) {
    forall e :: e in t.links ==> t.links[e].sw != e.sw
  }

  ghost predicate WellFormed(t: Topology) {
    Wired(t) && NoSelfLoop(t)
  }

  // A config on its way to a port.
  datatype Message = Message(to: End, config: Vector)

  // sent: all configs ever put on a link; heard: those delivered at least once;
  // spoken: the switches that have sent configs on their designated ports.
  datatype Net = Net(switches: seq<Switch>, sent: set<Message>, heard: set<Message>, spoken: set<nat>)

  datatype Event = Deliver(m: Message) | HelloTimeout(sw: nat)

  function InitNet(t: Topology): Net
    requires |t.ids| == |t.nports|
  {
    Net(seq(|t.ids|, u requires 0 <= u < |t.ids| => InitSwitch(t.ids[u], t.nports[u])), {}, {}, {})
  }

  function OnTheWire(t: Topology, u: nat, out: seq<Outgoing>): (sent: set<Message>)
  {
    set o | o in out && End(u, o.port) in t.links :: Message(t.links[End(u, o.port)], o.config)
  }

  predicate Enabled(net: Net, e: Event) {
    match e
    case Deliver(m) => m in net.sent && m.to.sw < |net.switches| && m.to.port < |net.switches[m.to.sw].ports|
    case HelloTimeout(u) => u < |net.switches| && net.switches[u].helloActive
  }

  // The network once the switch that got m has reacted by r.
  function Reacted(t: Topology, net: Net, m: Message, r: Reaction): Net
    requires m.to.sw < |net.switches| && m.to.port < |net.switches[m.to.sw].ports|
  {
    Net(net.switches[m.to.sw := r.sw],
        net.sent + OnTheWire(t, m.to.sw, r.out),
        net.heard + {m},
        if Better(m.config, net.switches[m.to.sw].ports[m.to.port]) then net.spoken + {m.to.sw} else net.spoken)
  }

  function Step(t: Topology, net: Net, e: Event): Net
    requires Enabled(net, e)
  {
    match e
    case Deliver(m) => Reacted(t, net, m, Handle(net.switches[m.to.sw], m.to.port, m.config))
    case HelloTimeout(u) =>
      net.(sent := net.sent + OnTheWire(t, u, Hello(net.switches[u])), spoken := net.spoken + {u})
  }

  // The state after a run, if every event of it was possible when its turn came.
  function Run(t: Topology, net: Net, events: seq<Event>): Option<Net>
    decreases |events|
  {
    if events == [] then Some(net)
    else if !Enabled(net, events[0]) then None
    else Run(t, Step(t, net, events[0]), events[1..])
  }

  ghost predicate Reachable(t: Topology, net: Net)
    requires |t.ids| == |t.nports|
  {
    exists events :: Run(t, InitNet(t), events) == Some(net)
  }

  // ---------------------------------------------------------------- invariant

  ghost predicate Adjacent(t: Topology, u: nat, v: nat) {
    exists port :: End(u, port) in t.links && t.links[End(u, port)].sw == v
  }

  // path is a simple path of length cost from the switch with id root to u, and each switch
  // on it already holds a pair at least as good as the one the path gave it.
  ghost predicate Witness(t: Topology, net: Net, root: nat, cost: nat, u: nat, path: seq<nat>)
    requires |net.switches| == |t.ids|
  {
    && |path| == cost + 1 && path[cost] == u
    && (forall k :: 0 <= k < |path| ==> path[k] < |t.ids|)
    && t.ids[path[0]] == root
    && (forall k :: 0 <= k < cost ==> Adjacent(t, path[k], path[k + 1]))
    && (forall j, k :: 0 <= j < k < |path| ==> path[j] != path[k])
    && (forall k :: 0 <= k < |path| ==>
          NoWorse(net.switches[path[k]].root, net.switches[path[k]].cost, root, k))
  }

  // (root, cost) is the exact length of a simple path from a real switch to u.
  ghost predicate Grounded(t: Topology, net: Net, root: nat, cost: nat, u: nat)
    requires |net.switches| == |t.ids|
  {
    exists path :: Witness(t, net, root, cost, u, path)
  }

  // v was the own vector of the link end e at some time: it carries e's signature and does not
  // beat what e's switch holds now.
  ghost predicate PastTruth(t: Topology, net: Net, v: Vector, e: End)
    requires |net.switches| == |t.ids|
  {
    && e.sw < |t.ids|
    && v.switchId == t.ids[e.sw] && v.portId == PortId(e.port)
    && NoWorse(net.switches[e.sw].root, net.switches[e.sw].cost, v.root, v.cost)
    && Grounded(t, net, v.root, v.cost, e.sw)
  }

  ghost predicate SwitchesFit(t: Topology, net: Net)
    requires |t.ids| == |t.nports|
  {
    && |net.switches| == |t.ids|
    && forall u :: 0 <= u < |t.ids| ==>
         net.switches[u].id == t.ids[u] && |net.switches[u].ports| == t.nports[u] && Consistent(net.switches[u])
  }

  // Ports that are not designated hold past truths of their peer.
  ghost predicate PortTruthful(t: Topology, net: Net, u: nat, port: nat)
    requires |net.switches| == |t.ids|
    requires u < |net.switches| && port < |net.switches[u].ports|
  {
    Designated(net.switches[u], port)
    || (End(u, port) in t.links && PastTruth(t, net, net.switches[u].ports[port], t.links[End(u, port)]))
  }

  ghost predicate PortsTruthful(t: Topology, net: Net)
    requires |net.switches| == |t.ids|
  {
    forall u, port :: 0 <= u < |net.switches| && 0 <= port < |net.switches[u].ports| ==> PortTruthful(t, net, u, port)
  }

  ghost predicate MessageTruthful(t: Topology, net: Net, m: Message)
    requires |net.switches| == |t.ids|
  {
    m.to in t.links && PastTruth(t, net, m.config, t.links[m.to])
  }

  ghost predicate MessagesTruthful(t: Topology, net: Net)
    requires |net.switches| == |t.ids|
  {
    forall m :: m in net.sent ==> MessageTruthful(t, net, m)
  }

  ghost predicate SwitchesGrounded(t: Topology, net: Net)
    requires |net.switches| == |t.ids|
  {
    forall u :: 0 <= u < |net.switches| ==> Grounded(t, net, net.switches[u].root, net.switches[u].cost, u)
  }

  // A config once delivered never again beats the port it was delivered to.
  ghost predicate HeardAbsorbed(net: Net) {
    forall m :: m in net.heard ==>
      m in net.sent && m.to.sw < |net.switches| && m.to.port < |net.switches[m.to.sw].ports|
      && !Better(m.config, net.switches[m.to.sw].ports[m.to.port])
  }

  // A switch that has spoken has its current own vector on the link of every designated port.
  ghost predicate SpokenSent(t: Topology, net: Net) {
    forall u, port ::
      (u in net.spoken && u < |net.switches| && 0 <= port < |net.switches[u].ports|
       && Designated(net.switches[u], port) && End(u, port) in t.links) ==>
        Message(t.links[End(u, port)], Own(net.switches[u], port)) in net.sent
  }

  ghost predicate Inv(t: Topology, net: Net)
    requires WellFormed(t)
  {
    && SwitchesFit(t, net)
    && PortsTruthful(t, net)
    && MessagesTruthful(t, net)
    && HeardAbsorbed(net)
    && SpokenSent(t, net)
  }

  // ---------------------------------------------------------------- preservation

  // Nobody's (root, cost) got worse.
  ghost predicate Improves(before: Net, after: Net) {
    && |before.switches| == |after.switches|
    && forall u :: 0 <= u < |before.switches| ==>
         NoWorse(after.switches[u].root, after.switches[u].cost, before.switches[u].root, before.switches[u].cost)
  }

  lemma GroundedKept(t: Topology, before: Net, after: Net, root: nat, cost: nat, u: nat)
    requires |before.switches| == |t.ids| && Improves(before, after) && Grounded(t, before, root, cost, u)
    ensures Grounded(t, after, root, cost, u)
  {
    var path :| Witness(t, before, root, cost, u, path);
    assert Witness(t, after, root, cost, u, path);
  }

  lemma PastTruthKept(t: Topology, before: Net, after: Net, v: Vector, e: End)
    requires |before.switches| == |t.ids| && Improves(before, after) && PastTruth(t, before, v, e)
    ensures PastTruth(t, after, v, e)
  {
    GroundedKept(t, before, after, v.root, v.cost, e.sw);
  }

  lemma NextInPath(t: Topology, net: Net, root: nat, cost: nat, v: nat, u: nat, path: seq<nat>)
    requires WellFormed(t) && |net.switches| == |t.ids| && u < |t.ids|
    requires Witness(t, net, root, cost, v, path) && Adjacent(t, v, u)
    requires forall k :: 0 <= k < |path| ==> path[k] != u
    requires NoWorse(net.switches[u].root, net.switches[u].cost, root, cost + 1)
    ensures Grounded(t, net, root, cost + 1, u)
  {
    var longer := path + [u];
    forall k | 0 <= k < cost + 1
      ensures Adjacent(t, longer[k], longer[k + 1])
    {
      if k < cost { assert Adjacent(t, path[k], path[k + 1]); }
    }
    assert Witness(t, net, root, cost + 1, u, longer);
  }

  // A message from the peer is one the receiving switch can believe.
  lemma TruthIsCredible(t: Topology, net: Net, v: Vector, u: nat, e: End)
    requires WellFormed(t) && SwitchesFit(t, net) && u < |t.ids| && PastTruth(t, net, v, e) && e.sw != u
    ensures Credible(net.switches[u], v)
  {
    var path :| Witness(t, net, v.root, v.cost, e.sw, path);
    if v.cost == 0 {
      assert path[0] == e.sw;
    }
  }

  // A path behind a vector stored on a port cannot visit the port's switch, since the
  // switch holds nothing better than the longer path would give it.
  lemma PathAvoids(t: Topology, net: Net, u: nat, v: Vector, w: nat, path: seq<nat>)
    requires |net.switches| == |t.ids| && u < |t.ids| && Witness(t, net, v.root, v.cost, w, path)
    requires net.switches[u].root == v.root && net.switches[u].cost == v.cost + 1
    ensures forall k :: 0 <= k < |path| ==> path[k] != u
  {
    forall k | 0 <= k < |path|
      ensures path[k] != u
    {
      assert NoWorse(net.switches[path[k]].root, net.switches[path[k]].cost, v.root, k);
    }
  }

  // A stored vector grounds the switch that takes its root and cost from it.
  lemma StoredGrounds(t: Topology, net: Net, u: nat, rp: nat, v: Vector)
    requires WellFormed(t) && |net.switches| == |t.ids| && u < |t.ids|
    requires End(u, rp) in t.links && PastTruth(t, net, v, t.links[End(u, rp)])
    requires net.switches[u].root == v.root && net.switches[u].cost == v.cost + 1
    ensures Grounded(t, net, v.root, v.cost + 1, u)
  {
    var e := t.links[End(u, rp)];
    assert Adjacent(t, e.sw, u) by { assert t.links[e] == End(u, rp); }
    var path :| Witness(t, net, v.root, v.cost, e.sw, path);
    PathAvoids(t, net, u, v, e.sw, path);
    NextInPath(t, net, v.root, v.cost, e.sw, u, path);
  }

  lemma SwitchesAreGrounded(t: Topology, net: Net)
    requires WellFormed(t) && SwitchesFit(t, net) && PortsTruthful(t, net)
    ensures SwitchesGrounded(t, net)
  {
    forall u | 0 <= u < |net.switches|
      ensures Grounded(t, net, net.switches[u].root, net.switches[u].cost, u)
    {
      var s := net.switches[u];
      assert Consistent(s);
      if s.rootPort.None? {
        assert Witness(t, net, s.root, 0, u, [u]);
      } else {
        var rp := s.rootPort.value;
        assert PortTruthful(t, net, u, rp);
        StoredGrounds(t, net, u, rp, s.ports[rp]);
      }
    }
  }

  // Whatever a switch sends on its links is truthful.
  lemma OwnTruthful(t: Topology, net: Net, u: nat, out: seq<Outgoing>)
    requires WellFormed(t) && SwitchesFit(t, net) && SwitchesGrounded(t, net) && u < |t.ids|
    requires forall o :: o in out ==> o.port < t.nports[u] && o.config == Own(net.switches[u], o.port)
    ensures forall m :: m in OnTheWire(t, u, out) ==> MessageTruthful(t, net, m)
  {
    forall m | m in OnTheWire(t, u, out)
      ensures MessageTruthful(t, net, m)
    {
      var o :| o in out && End(u, o.port) in t.links && m == Message(t.links[End(u, o.port)], o.config);
      assert t.links[m.to] == End(u, o.port);
    }
  }

  // A run that leaves every switch as it is keeps the invariant if what it sends is the switch's own.
  lemma SpeakKeepsInv(t: Topology, net: Net, after: Net, u: nat, out: seq<Outgoing>)
    requires WellFormed(t) && Inv(t, net) && u < |t.ids|
    requires forall o :: o in out ==> o.port < t.nports[u] && o.config == Own(net.switches[u], o.port)
    requires after.switches == net.switches && after.sent == net.sent + OnTheWire(t, u, out)
    requires HeardAbsorbed(after) && SpokenSent(t, after)
    ensures Inv(t, after)
  {
    assert Improves(net, after);
    SwitchesAreGrounded(t, net);
    OwnTruthful(t, net, u, out);
    forall m | m in after.sent
      ensures MessageTruthful(t, after, m)
    {
      assert MessageTruthful(t, net, m);
      PastTruthKept(t, net, after, m.config, t.links[m.to]);
    }
    forall w, port | 0 <= w < |after.switches| && 0 <= port < |after.switches[w].ports|
      ensures PortTruthful(t, after, w, port)
    {
      assert PortTruthful(t, net, w, port);
      if !Designated(net.switches[w], port) {
        PastTruthKept(t, net, after, net.switches[w].ports[port], t.links[End(w, port)]);
      }
    }
  }

  // Sending on every designated port brings u's current vectors onto its links.
  lemma SpeakingSends(t: Topology, s: Switch, u: nat, out: seq<Outgoing>, sent: set<Message>)
    requires s.rootPort.Some? || IsRoot(s)
    requires out == Configs(s, |s.ports|) && OnTheWire(t, u, out) <= sent
    ensures forall port :: 0 <= port < |s.ports| && Designated(s, port) && End(u, port) in t.links ==>
              Message(t.links[End(u, port)], Own(s, port)) in sent
  {
    forall port | 0 <= port < |s.ports| && Designated(s, port) && End(u, port) in t.links
      ensures Message(t.links[End(u, port)], Own(s, port)) in sent
    {
      assert Outgoing(port, Own(s, port)) in out;
      assert Message(t.links[End(u, port)], Own(s, port)) in OnTheWire(t, u, out);
    }
  }

  lemma HelloKeepsInv(t: Topology, net: Net, u: nat)
    requires WellFormed(t) && Inv(t, net) && Enabled(net, HelloTimeout(u))
    ensures Inv(t, Step(t, net, HelloTimeout(u)))
  {
    var after := Step(t, net, HelloTimeout(u));
    var out := Hello(net.switches[u]);
    assert SpokenSent(t, after) by {
      SpeakingSends(t, net.switches[u], u, out, after.sent);
    }
    SpeakKeepsInv(t, net, after, u, out);
  }

  lemma IgnoredHeard(net: Net, after: Net, m: Message)
    requires HeardAbsorbed(net) && Enabled(net, Deliver(m)) && !Better(m.config, net.switches[m.to.sw].ports[m.to.port])
    requires after.switches == net.switches && net.sent <= after.sent && after.heard == net.heard + {m}
    ensures HeardAbsorbed(after)
  {
  }

  lemma IgnoredSpoken(t: Topology, net: Net, after: Net)
    requires SpokenSent(t, net)
    requires after.switches == net.switches && net.sent <= after.sent && after.spoken == net.spoken
    ensures SpokenSent(t, after)
  {
  }

  // The reaction to a config that does not beat the port's vector is one config back.
  lemma IgnoredKeepsInv(t: Topology, net: Net, after: Net, m: Message, out: seq<Outgoing>)
    requires WellFormed(t) && Inv(t, net) && Enabled(net, Deliver(m))
    requires !Better(m.config, net.switches[m.to.sw].ports[m.to.port])
    requires forall o :: o in out ==> o.port == m.to.port && o.config == Own(net.switches[m.to.sw], m.to.port)
    requires after == net.(sent := net.sent + OnTheWire(t, m.to.sw, out), heard := net.heard + {m})
    ensures Inv(t, after)
  {
    IgnoredHeard(net, after, m);
    IgnoredSpoken(t, net, after);
    SpeakKeepsInv(t, net, after, m.to.sw, out);
  }

  lemma DeliveredCredible(t: Topology, net: Net, m: Message)
    requires WellFormed(t) && SwitchesFit(t, net) && MessagesTruthful(t, net) && Enabled(net, Deliver(m))
    ensures Credible(net.switches[m.to.sw], m.config)
  {
    assert MessageTruthful(t, net, m);
    TruthIsCredible(t, net, m.config, m.to.sw, t.links[m.to]);
  }

  // after is net with the switch at m.to replaced by what it became on accepting m.
  ghost predicate AcceptedAt(net: Net, after: Net, m: Message) {
    && m.to.sw < |net.switches| && m.to.port < |net.switches[m.to.sw].ports|
    && |after.switches| == |net.switches|
    && after.switches == net.switches[m.to.sw := after.switches[m.to.sw]]
    && Accepted(net.switches[m.to.sw], after.switches[m.to.sw], m.to.port, m.config)
  }

  lemma AcceptedPorts(t: Topology, net: Net, after: Net, m: Message)
    requires WellFormed(t) && |net.switches| == |t.ids| && AcceptedAt(net, after, m) && Improves(net, after)
    requires PortsTruthful(t, net) && MessageTruthful(t, net, m)
    ensures PortsTruthful(t, after)
  {
    forall w, port | 0 <= w < |after.switches| && 0 <= port < |after.switches[w].ports|
      ensures PortTruthful(t, after, w, port)
    {
      assert PortTruthful(t, net, w, port);
      if !Designated(after.switches[w], port) {
        if w == m.to.sw && port == m.to.port {
          PastTruthKept(t, net, after, m.config, t.links[m.to]);
        } else {
          PastTruthKept(t, net, after, net.switches[w].ports[port], t.links[End(w, port)]);
        }
      }
    }
  }

  lemma AcceptedMessages(t: Topology, net: Net, after: Net, u: nat, out: seq<Outgoing>)
    requires WellFormed(t) && |net.switches| == |t.ids| && Improves(net, after) && MessagesTruthful(t, net)
    requires SwitchesFit(t, after) && SwitchesGrounded(t, after) && u < |t.ids|
    requires after.sent == net.sent + OnTheWire(t, u, out)
    requires forall o :: o in out ==> o.port < t.nports[u] && o.config == Own(after.switches[u], o.port)
    ensures MessagesTruthful(t, after)
  {
    OwnTruthful(t, after, u, out);
    forall m | m in after.sent
      ensures MessageTruthful(t, after, m)
    {
      if m in net.sent {
        assert MessageTruthful(t, net, m);
        PastTruthKept(t, net, after, m.config, t.links[m.to]);
      }
    }
  }

  lemma AcceptedHeard(net: Net, after: Net, m: Message)
    requires AcceptedAt(net, after, m) && HeardAbsorbed(net)
    requires m in after.sent && net.sent <= after.sent && after.heard == net.heard + {m}
    ensures HeardAbsorbed(after)
  {
  }

  lemma AcceptedSpoken(t: Topology, net: Net, after: Net, u: nat)
    requires u < |net.switches| && |after.switches| == |net.switches| && SpokenSent(t, net)
    requires after.switches == net.switches[u := after.switches[u]]
    requires after.spoken == net.spoken + {u} && net.sent <= after.sent
    requires var s := after.switches[u];
             (s.rootPort.Some? || IsRoot(s)) && OnTheWire(t, u, Configs(s, |s.ports|)) <= after.sent
    ensures SpokenSent(t, after)
  {
    var s := after.switches[u];
    SpeakingSends(t, s, u, Configs(s, |s.ports|), after.sent);
  }

  lemma AcceptedFits(t: Topology, net: Net, after: Net, m: Message)
    requires |t.ids| == |t.nports| && SwitchesFit(t, net) && AcceptedAt(net, after, m)
    ensures SwitchesFit(t, after) && Improves(net, after)
  {
  }

  // The reaction to an accepted config keeps the invariant.
  lemma AcceptedKeepsInv(t: Topology, net: Net, m: Message, x: Switch)
    requires WellFormed(t) && Inv(t, net) && Enabled(net, Deliver(m))
    requires Better(m.config, net.switches[m.to.sw].ports[m.to.port])
    requires Accepted(net.switches[m.to.sw], x, m.to.port, m.config)
    ensures var after := Reacted(t, net, m, Reaction(x, Configs(x, |x.ports|)));
            Inv(t, after) && Improves(net, after)
  {
    var after := Reacted(t, net, m, Reaction(x, Configs(x, |x.ports|)));
    assert AcceptedAt(net, after, m);
    AcceptedFits(t, net, after, m);
    assert MessageTruthful(t, net, m);
    AcceptedPorts(t, net, after, m);
    SwitchesAreGrounded(t, after);
    AcceptedMessages(t, net, after, m.to.sw, Configs(x, |x.ports|));
    AcceptedHeard(net, after, m);
    AcceptedSpoken(t, net, after, m.to.sw);
  }

  // The two ways a delivery can go.
  lemma DeliverCases(t: Topology, net: Net, m: Message)
    requires Enabled(net, Deliver(m))
    ensures var s, after := net.switches[m.to.sw], Step(t, net, Deliver(m));
            if Better(m.config, s.ports[m.to.port]) then
              var x := Accept(s, m.to.port, m.config);
              after == Reacted(t, net, m, Reaction(x, Configs(x, |x.ports|)))
            else
              after == net.(sent := net.sent + OnTheWire(t, m.to.sw, PortConfig(s, m.to.port)),
                            heard := net.heard + {m})
  {
    if !Better(m.config, net.switches[m.to.sw].ports[m.to.port]) {
      assert net.switches[m.to.sw := net.switches[m.to.sw]] == net.switches;
    }
  }

  // A better config that arrives is accepted.
  lemma DeliveredAccepted(t: Topology, net: Net, m: Message)
    requires WellFormed(t) && Inv(t, net) && Enabled(net, Deliver(m))
    requires Better(m.config, net.switches[m.to.sw].ports[m.to.port])
    ensures var s := net.switches[m.to.sw]; Accepted(s, Accept(s, m.to.port, m.config), m.to.port, m.config)
  {
    DeliveredCredible(t, net, m);
    AcceptContract(net.switches[m.to.sw], m.to.port, m.config);
  }

  lemma DeliverKeepsInv(t: Topology, net: Net, after: Net, m: Message)
    requires WellFormed(t) && Inv(t, net) && Enabled(net, Deliver(m)) && after == Step(t, net, Deliver(m))
    ensures Inv(t, after) && Improves(net, after)
  {
    DeliverCases(t, net, m);
    var s := net.switches[m.to.sw];
    if Better(m.config, s.ports[m.to.port]) {
      DeliveredAccepted(t, net, m);
      AcceptedKeepsInv(t, net, m, Accept(s, m.to.port, m.config));
    } else {
      IgnoredKeepsInv(t, net, after, m, PortConfig(s, m.to.port));
    }
  }

  lemma StepKeepsInv(t: Topology, net: Net, e: Event)
    requires WellFormed(t) && Inv(t, net) && Enabled(net, e)
    ensures Inv(t, Step(t, net, e)) && Improves(net, Step(t, net, e))
  {
    match e
    case HelloTimeout(u) => HelloKeepsInv(t, net, u);
    case Deliver(m) => DeliverKeepsInv(t, net, Step(t, net, e), m);
  }

  lemma InitInv(t: Topology)
    requires WellFormed(t)
    ensures Inv(t, InitNet(t))
  {
    var net := InitNet(t);
    forall u | 0 <= u < |t.ids|
      ensures Consistent(net.switches[u])
    {
      InitConsistent(t.ids[u], t.nports[u]);
    }
  }

  lemma RunFirst(t: Topology, net: Net, e: Event, rest: seq<Event>)
    requires Enabled(net, e)
    ensures Run(t, net, [e] + rest) == Run(t, Step(t, net, e), rest)
  {
    assert ([e] + rest)[1..] == rest;
  }

  lemma {:induction false} RunAppend(t: Topology, net: Net, events: seq<Event>, more: seq<Event>)
    requires Run(t, net, events).Some?
    ensures Run(t, net, events + more) == Run(t, Run(t, net, events).value, more)
    decreases |events|
  {
    if events == [] {
      assert events + more == more;
    } else {
      assert (events + more)[1..] == events[1..] + more;
      RunAppend(t, Step(t, net, events[0]), events[1..], more);
    }
  }

  lemma {:induction false} RunKeepsInv(t: Topology, net: Net, events: seq<Event>)
    requires WellFormed(t) && Inv(t, net) && Run(t, net, events).Some?
    ensures Inv(t, Run(t, net, events).value)
    decreases |events|
  {
    if events != [] {
      StepKeepsInv(t, net, events[0]);
      RunKeepsInv(t, Step(t, net, events[0]), events[1..]);
    }
  }

  lemma ReachableInv(t: Topology, net: Net)
    requires WellFormed(t) && Reachable(t, net)
    ensures Inv(t, net)
  {
    var events :| Run(t, InitNet(t), events) == Some(net);
    InitInv(t);
    RunKeepsInv(t, InitNet(t), events);
  }
}
