/** What losing configs for good does: which losses keep the network from ever settling. */
module StpLoss {
  import opened Wrappers
  import opened StpVector
  import opened StpSwitch
  import opened StpNetwork
  import opened StpProgress
  import opened StpConvergence
  import opened StpAttain
  import opened StpDistance

  ghost predicate Avoids(events: seq<Event>, lost: set<Message>) {
    forall m :: m in lost ==> Deliver(m) !in events
  }

  // The run delivers none of the lost configs and ends in a stable state.
  ghost predicate SettlesBy(t: Topology, net: Net, lost: set<Message>, events: seq<Event>)
    requires WellFormed(t)
  {
    && Avoids(events, lost) && Run(t, net, events).Some?
    && var after := Run(t, net, events).value;
       SwitchesFit(t, after) && Stable(t, after)
  }

  // The final vector of every winning end is stored at its peer already, or is not lost.
  ghost predicate Unhindered(t: Topology, net: Net, r: nat, d: seq<nat>, lost: set<Message>)
    requires Distances(t, r, d) && Inv(t, net)
  {
    forall e :: e in t.links && Wins(t, r, d, e) ==>
      Message(t.links[e], Final(t, r, d, e)) !in lost || Stores(t, net, r, d, e)
  }

  ghost predicate Stores(t: Topology, net: Net, r: nat, d: seq<nat>, e: End)
    requires Distances(t, r, d) && Inv(t, net) && e in t.links
  {
    var p := t.links[e];
    net.switches[p.sw].ports[p.port] == Final(t, r, d, e)
  }

  // ---------------------------------------------------------------- only delivery brings a vector

  lemma AcceptedBrings(net: Net, after: Net, m: Message, p: End, v: Vector)
    requires AcceptedAt(net, after, m) && p.sw < |net.switches| && p.port < |net.switches[p.sw].ports|
    requires v.switchId != net.switches[p.sw].id && p.port < |after.switches[p.sw].ports| && after.switches[p.sw].ports[p.port] == v
    ensures net.switches[p.sw].ports[p.port] == v || (m.to.sw == p.sw && m.to.port == p.port && m.config == v)
  {
  }

  lemma StoredByStep(t: Topology, net: Net, e: Event, p: End, v: Vector)
    requires WellFormed(t) && Inv(t, net) && Enabled(net, e) && p.sw < |t.ids| && p.port < t.nports[p.sw]
    requires v.switchId != t.ids[p.sw]
    requires var s := Step(t, net, e).switches; |s| == |t.ids| && p.port < |s[p.sw].ports| && s[p.sw].ports[p.port] == v
    ensures net.switches[p.sw].ports[p.port] == v || e == Deliver(Message(p, v))
  {
    if e.Deliver? {
      var after := Step(t, net, e);
      DeliveryOutcome(t, net, after, e.m);
      if AcceptedAt(net, after, e.m) {
        AcceptedBrings(net, after, e.m, p, v);
        assert Message(End(p.sw, p.port), v) == Message(p, v);
      }
    }
  }

  lemma {:induction false} StoredByRun(t: Topology, net: Net, events: seq<Event>, p: End, v: Vector)
    requires WellFormed(t) && Inv(t, net) && Run(t, net, events).Some? && p.sw < |t.ids| && p.port < t.nports[p.sw]
    requires v.switchId != t.ids[p.sw]
    requires |Run(t, net, events).value.switches| == |t.ids| && p.port < |Run(t, net, events).value.switches[p.sw].ports|
    requires Run(t, net, events).value.switches[p.sw].ports[p.port] == v
    ensures net.switches[p.sw].ports[p.port] == v || Deliver(Message(p, v)) in events
    decreases |events|
  {
    if events != [] {
      StepKeepsInv(t, net, events[0]);
      StoredByRun(t, Step(t, net, events[0]), events[1..], p, v);
      if Step(t, net, events[0]).switches[p.sw].ports[p.port] == v {
        StoredByStep(t, net, events[0], p, v);
      }
    }
  }

  // In a stable state the peer of every winning end stores its final vector.
  lemma StableStoresFinal(t: Topology, net: Net, r: nat, d: seq<nat>, e: End)
    requires Distances(t, r, d) && Connected(t) && Inv(t, net) && Stable(t, net) && e in t.links && Wins(t, r, d, e)
    ensures Stores(t, net, r, d, e)
  {
    var p := t.links[e];
    StableIsSettled(t, net);
    SettledIsRight(t, net, r, d, e.sw);
    SettledIsRight(t, net, r, d, p.sw);
    WinnerDesignated(t, net, r, d, e);
    StableLink(t, net, e);
  }

  lemma SettledIsRight(t: Topology, net: Net, r: nat, d: seq<nat>, u: nat)
    requires Distances(t, r, d) && Connected(t) && Settled(t, net) && u < |t.ids|
    ensures Right(t, net, r, d, u)
  {
    SettledIsShortestPathTree(t, net, r, u);
    var w :| Joins(t, w, u, r) && |w| == d[u] + 1;
    var x :| Joins(t, x, u, r) && |x| == net.switches[u].cost + 1;
  }

  lemma SettlingIsUnhindered(t: Topology, net: Net, r: nat, d: seq<nat>, lost: set<Message>, events: seq<Event>)
    requires Distances(t, r, d) && Connected(t) && Inv(t, net) && SettlesBy(t, net, lost, events)
    ensures Unhindered(t, net, r, d, lost)
  {
    var after := Run(t, net, events).value;
    RunKeepsInv(t, net, events);
    forall e | e in t.links && Wins(t, r, d, e)
      ensures Message(t.links[e], Final(t, r, d, e)) !in lost || Stores(t, net, r, d, e)
    {
      StableStoresFinal(t, after, r, d, e);
      assert SwitchNumber(t.ids[e.sw]) != SwitchNumber(t.ids[t.links[e].sw]);
      StoredByRun(t, net, events, t.links[e], Final(t, r, d, e));
    }
  }

  // ---------------------------------------------------------------- delivering what is not lost

  // The winning ends whose final vector has not been absorbed.
  ghost function Missing(t: Topology, net: Net, r: nat, d: seq<nat>): set<End> {
    set e | e in t.links && Wins(t, r, d, e) && !Absorbed(t, net, r, d, e)
  }

  lemma AbsorbedStays(t: Topology, net: Net, after: Net, r: nat, d: seq<nat>, e: End)
    requires PortsNoWorse(net, after) && e in t.links && r < |t.ids| == |d| && e.sw < |d|
    ensures Absorbed(t, net, r, d, e) ==> Absorbed(t, after, r, d, e)
  {
    if Absorbed(t, net, r, d, e) {
      var p := t.links[e];
      assert !Better(net.switches[p.sw].ports[p.port], after.switches[p.sw].ports[p.port]);
    }
  }

  // Of some ends one whose switch is nearest to the root.
  lemma {:induction false} NearestEnd(d: seq<nat>, ends: set<End>) returns (e: End)
    requires ends != {} && forall x :: x in ends ==> x.sw < |d|
    ensures e in ends && forall x :: x in ends ==> d[e.sw] <= d[x.sw]
    decreases |ends|
  {
    e :| e in ends;
    if ends != {e} {
      var rest := NearestEnd(d, ends - {e});
      if d[rest.sw] < d[e.sw] {
        e := rest;
      }
    }
  }

  // The nearest missing vector is on its way: its switch is right, designated and has spoken.
  lemma NearestIsSent(t: Topology, net: Net, r: nat, d: seq<nat>, e: End)
    requires Distances(t, r, d) && Inv(t, net) && SpokenUpTo(net, |t.ids|)
    requires e in Missing(t, net, r, d) && forall x :: x in Missing(t, net, r, d) ==> d[e.sw] <= d[x.sw]
    ensures Message(t.links[e], Final(t, r, d, e)) in net.sent
    ensures Enabled(net, Deliver(Message(t.links[e], Final(t, r, d, e))))
  {
    RightUpTo(t, net, r, d, d[e.sw], e.sw);
    WinnerDesignated(t, net, r, d, e);
    assert Consistent(net.switches[e.sw]) && End(e.sw, e.port) == e;
    assert Own(net.switches[e.sw], e.port) == Final(t, r, d, e);
  }

  // Delivering a final vector absorbs it.
  lemma DeliveryAbsorbs(t: Topology, net: Net, after: Net, r: nat, d: seq<nat>, e: End)
    requires Distances(t, r, d) && Inv(t, net) && Inv(t, after) && e in t.links
    requires Enabled(net, Deliver(Message(t.links[e], Final(t, r, d, e))))
    requires after == Step(t, net, Deliver(Message(t.links[e], Final(t, r, d, e))))
    ensures Absorbed(t, after, r, d, e)
  {
    var m := Message(t.links[e], Final(t, r, d, e));
    assert m in after.heard;
  }

  lemma FewerMissing(t: Topology, net: Net, after: Net, r: nat, d: seq<nat>, e: End)
    requires PortsNoWorse(net, after)
    requires e in Missing(t, net, r, d) && Absorbed(t, after, r, d, e)
    ensures |Missing(t, after, r, d)| < |Missing(t, net, r, d)|
  {
    var now, was := Missing(t, after, r, d), Missing(t, net, r, d);
    forall x | x in now
      ensures x in was - {e}
    {
      AbsorbedStays(t, net, after, r, d, x);
    }
    FewerMembers(now, was - {e});
  }

  // Nothing missing is lost.
  ghost predicate MissingNotLost(t: Topology, net: Net, r: nat, d: seq<nat>, lost: set<Message>) {
    forall e :: e in Missing(t, net, r, d) ==> Message(t.links[e], Final(t, r, d, e)) !in lost
  }

  lemma MissingStaysNotLost(t: Topology, net: Net, after: Net, r: nat, d: seq<nat>, lost: set<Message>)
    requires PortsNoWorse(net, after)
    requires MissingNotLost(t, net, r, d, lost)
    ensures MissingNotLost(t, after, r, d, lost)
  {
    forall e | e in Missing(t, after, r, d)
      ensures Message(t.links[e], Final(t, r, d, e)) !in lost
    {
      AbsorbedStays(t, net, after, r, d, e);
    }
  }

  // The missing vectors are delivered, those of the nearest switches first.
  lemma {:induction false} MissingArrive(t: Topology, net: Net, r: nat, d: seq<nat>, lost: set<Message>) returns (events: seq<Event>)
    requires Distances(t, r, d) && Inv(t, net) && SpokenUpTo(net, |t.ids|) && MissingNotLost(t, net, r, d, lost)
    ensures SettlesBy(t, net, lost, events)
    decreases |Missing(t, net, r, d)|
  {
    if Missing(t, net, r, d) == {} {
      NothingMissing(t, net, r, d);
      events := [];
    } else {
      var e := NearestEnd(d, Missing(t, net, r, d));
      var m := Message(t.links[e], Final(t, r, d, e));
      NearestIsSent(t, net, r, d, e);
      var after := AbsorbOne(t, net, r, d, lost, e);
      var rest := MissingArrive(t, after, r, d, lost);
      RunFirst(t, net, Deliver(m), rest);
      events := [Deliver(m)] + rest;
    }
  }

  lemma NothingMissing(t: Topology, net: Net, r: nat, d: seq<nat>)
    requires Distances(t, r, d) && Inv(t, net) && Missing(t, net, r, d) == {}
    ensures Stable(t, net)
  {
    forall e | e in t.links && Wins(t, r, d, e)
      ensures Absorbed(t, net, r, d, e)
    {
      assert e !in Missing(t, net, r, d);
    }
    AllAbsorbedStable(t, net, r, d);
  }

  // One missing vector is delivered; nothing else changes for the worse.
  lemma AbsorbOne(t: Topology, net: Net, r: nat, d: seq<nat>, lost: set<Message>, e: End) returns (after: Net)
    requires Distances(t, r, d) && Inv(t, net) && SpokenUpTo(net, |t.ids|) && MissingNotLost(t, net, r, d, lost)
    requires e in Missing(t, net, r, d) && Enabled(net, Deliver(Message(t.links[e], Final(t, r, d, e))))
    ensures after == Step(t, net, Deliver(Message(t.links[e], Final(t, r, d, e))))
    ensures Inv(t, after) && SpokenUpTo(after, |t.ids|) && MissingNotLost(t, after, r, d, lost)
    ensures |Missing(t, after, r, d)| < |Missing(t, net, r, d)|
  {
    var event := Deliver(Message(t.links[e], Final(t, r, d, e)));
    after := Step(t, net, event);
    StepKeepsInv(t, net, event);
    StepPortsNoWorse(t, net, event);
    DeliveryAbsorbs(t, net, after, r, d, e);
    FewerMissing(t, net, after, r, d, e);
    MissingStaysNotLost(t, net, after, r, d, lost);
  }

  lemma StoredIsAbsorbed(t: Topology, net: Net, r: nat, d: seq<nat>, lost: set<Message>)
    requires Distances(t, r, d) && Inv(t, net) && Unhindered(t, net, r, d, lost)
    ensures MissingNotLost(t, net, r, d, lost)
  {
  }

  lemma UnhinderedSettles(t: Topology, net: Net, r: nat, d: seq<nat>, lost: set<Message>) returns (events: seq<Event>)
    requires Distances(t, r, d) && Inv(t, net) && SilentAreRoots(net) && Unhindered(t, net, r, d, lost)
    ensures SettlesBy(t, net, lost, events)
  {
    var speaking := EverybodySpeaks(t, net, |t.ids|);
    var spoken := Run(t, net, speaking).value;
    StoredIsAbsorbed(t, net, r, d, lost);
    MissingStaysNotLost(t, net, spoken, r, d, lost);
    var arriving := MissingArrive(t, spoken, r, d, lost);
    RunAppend(t, net, speaking, arriving);
    events := speaking + arriving;
  }

  // ---------------------------------------------------------------- results

  // From a reachable state of a connected network, with some configs lost for good, the network can
  // still settle exactly when no winning end's final vector is lost before its peer has stored it.
  lemma SettlesIffUnhindered(t: Topology, net: Net, r: nat, d: seq<nat>, lost: set<Message>)
    requires Distances(t, r, d) && Connected(t) && Reachable(t, net)
    ensures Inv(t, net)
    ensures (exists events :: SettlesBy(t, net, lost, events)) <==> Unhindered(t, net, r, d, lost)
  {
    ReachableInv(t, net);
    if Unhindered(t, net, r, d, lost) {
      ReachableSilent(t, net);
      var events := UnhinderedSettles(t, net, r, d, lost);
    } else {
      forall events
        ensures !SettlesBy(t, net, lost, events)
      {
        if SettlesBy(t, net, lost, events) {
          SettlingIsUnhindered(t, net, r, d, lost, events);
        }
      }
    }
  }

  lemma ReachableSilent(t: Topology, net: Net)
    requires WellFormed(t) && Reachable(t, net)
    ensures SilentAreRoots(net)
  {
    var past :| Run(t, InitNet(t), past) == Some(net);
    RunKeepsSilent(t, InitNet(t), past);
  }

  // ---------------------------------------------------------------- an example

  // Three switches in a row: 1 - 2 - 3.
  function ThreeInRow(): Topology {
    Topology([1, 2, 3], [1, 2, 1],
             map[End(0, 0) := End(1, 0), End(1, 0) := End(0, 0), End(1, 1) := End(2, 0), End(2, 0) := End(1, 1)])
  }

  // What the second switch tells the third once it has accepted the first as root.
  function News(): Message { Message(End(2, 0), Vector(1, 1, 2, PortId(1))) }

  lemma ChainWellFormed()
    ensures WellFormed(ThreeInRow()) && SmallestId(ThreeInRow(), 0)
  {
    var t := ThreeInRow();
    forall e | e in t.links
      ensures e.sw < 3 && e.port < t.nports[e.sw] && t.links[e].sw != e.sw && t.links[e] in t.links && t.links[t.links[e]] == e
    {
      assert e == End(0, 0) || e == End(1, 0) || e == End(1, 1) || e == End(2, 0);
    }
    assert SwitchNumber(1) == 1 && SwitchNumber(2) == 2 && SwitchNumber(3) == 3;
    assert Wired(t);
  }

  lemma ChainAdjacent()
    ensures Adjacent(ThreeInRow(), 0, 1) && Adjacent(ThreeInRow(), 1, 0) && Adjacent(ThreeInRow(), 1, 2) && Adjacent(ThreeInRow(), 2, 1)
    ensures !Adjacent(ThreeInRow(), 2, 0)
  {
    var t := ThreeInRow();
    assert t.links[End(0, 0)].sw == 1 && t.links[End(1, 0)].sw == 0 && t.links[End(1, 1)].sw == 2 && t.links[End(2, 0)].sw == 1;
  }

  // The shortest walk between two of the three.
  function Straight(u: nat, v: nat): seq<nat> {
    if u == v then [u] else if u == 1 || v == 1 then [u, v] else [u, 1, v]
  }

  lemma ChainConnected()
    ensures Connected(ThreeInRow())
  {
    ChainAdjacent();
    forall u, v | 0 <= u < 3 && 0 <= v < 3
      ensures Linked(ThreeInRow(), u, v)
    {
      assert Joins(ThreeInRow(), Straight(u, v), u, v);
    }
  }

  lemma ChainDistances()
    ensures Distances(ThreeInRow(), 0, [0, 1, 2])
  {
    ChainWellFormed();
    ChainAdjacent();
    forall u | 0 <= u < 3
      ensures HopDistance(ThreeInRow(), u, 0, u)
    {
      assert Joins(ThreeInRow(), Straight(u, 0), u, 0);
      forall w | Joins(ThreeInRow(), w, u, 0)
        ensures u + 1 <= |w|
      {
        if |w| == 2 { assert Adjacent(ThreeInRow(), w[1 - 1], w[1]); }
      }
    }
    assert forall u :: 0 <= u < 3 ==> [0, 1, 2][u] == u;
  }

  // If the news to the third switch is lost for good, the chain never settles, whatever else happens.
  lemma NewsLostUnsettles(events: seq<Event>)
    ensures WellFormed(ThreeInRow()) && Connected(ThreeInRow())
    ensures !SettlesBy(ThreeInRow(), InitNet(ThreeInRow()), {News()}, events)
  {
    ChainConnected();
    ChainDistances();
    var t, net, d: seq<nat>, e := ThreeInRow(), InitNet(ThreeInRow()), [0, 1, 2], End(1, 1);
    assert Run(t, net, []) == Some(net);
    SettlesIffUnhindered(t, net, 0, d, {News()});
    assert Wins(t, 0, d, e) && Message(t.links[e], Final(t, 0, d, e)) == News() && !Stores(t, net, 0, d, e);
  }
}
