/** From every reachable state the network can still come to rest, and so to the shortest-path tree. */
module StpAttain {
  import opened Wrappers
  import opened StpVector
  import opened StpSwitch
  import opened StpNetwork
  import opened StpProgress
  import opened StpConvergence

  // ---------------------------------------------------------------- everybody speaks

  // A switch that has not spoken has heard nothing better either: it is its own root.
  ghost predicate SilentAreRoots(net: Net) {
    forall u :: 0 <= u < |net.switches| && u !in net.spoken ==> IsRoot(net.switches[u])
  }

  lemma StepKeepsSilent(t: Topology, net: Net, e: Event)
    requires SilentAreRoots(net) && Enabled(net, e)
    ensures SilentAreRoots(Step(t, net, e))
  {
  }

  lemma {:induction false} RunKeepsSilent(t: Topology, net: Net, events: seq<Event>)
    requires SilentAreRoots(net) && Run(t, net, events).Some?
    ensures SilentAreRoots(Run(t, net, events).value)
    decreases |events|
  {
    if events != [] {
      StepKeepsSilent(t, net, events[0]);
      RunKeepsSilent(t, Step(t, net, events[0]), events[1..]);
    }
  }

  ghost predicate SpokenUpTo(net: Net, n: nat) {
    forall u :: 0 <= u < n ==> u in net.spoken
  }

  // The hello timers of the switches that have not spoken run, and expire one after the other.
  lemma {:induction false} EverybodySpeaks(t: Topology, net: Net, n: nat) returns (events: seq<Event>)
    requires WellFormed(t) && Inv(t, net) && SilentAreRoots(net) && n <= |t.ids|
    ensures Run(t, net, events).Some?
    ensures Inv(t, Run(t, net, events).value) && SilentAreRoots(Run(t, net, events).value)
    ensures SpokenUpTo(Run(t, net, events).value, n)
    ensures Run(t, net, events).value.switches == net.switches && forall m :: Deliver(m) !in events
    decreases n
  {
    if n == 0 {
      events := [];
    } else {
      events := EverybodySpeaks(t, net, n - 1);
      var now := Run(t, net, events).value;
      if n - 1 !in now.spoken {
        var e := HelloTimeout(n - 1);
        assert Consistent(now.switches[n - 1]);
        StepKeepsInv(t, now, e);
        StepKeepsSilent(t, now, e);
        RunFirst(t, now, e, []);
        RunAppend(t, net, events, [e] + []);
        events := events + ([e] + []);
      }
    }
  }

  // ---------------------------------------------------------------- everything arrives

  // The config a switch would answer with on each link end.
  ghost function Answers(t: Topology, net: Net): set<Message> {
    set e | e in t.links && e.sw < |net.switches| :: Message(t.links[e], Own(net.switches[e.sw], e.port))
  }

  // What is under way, or may be once it is answered.
  ghost function Pending(t: Topology, net: Net): set<Message> {
    net.sent + Answers(t, net) - net.heard
  }

  lemma AnswerIsAnswer(t: Topology, net: Net, m: Message)
    requires Enabled(net, Deliver(m))
    ensures OnTheWire(t, m.to.sw, PortConfig(net.switches[m.to.sw], m.to.port)) <= Answers(t, net)
  {
    var s := net.switches[m.to.sw];
    forall x | x in OnTheWire(t, m.to.sw, PortConfig(s, m.to.port))
      ensures x in Answers(t, net)
    {
      var e := End(m.to.sw, m.to.port);
      assert e in t.links && x == Message(t.links[e], Own(s, m.to.port));
    }
  }

  lemma {:induction false} FewerMembers<T>(a: set<T>, b: set<T>)
    requires a <= b
    ensures |a| <= |b|
    decreases |a|
  {
    if a != {} {
      var x :| x in a;
      FewerMembers(a - {x}, b - {x});
    }
  }

  lemma OneLess(sent: set<Message>, answers: set<Message>, heard: set<Message>, now: set<Message>, m: Message)
    requires now <= sent + answers && m in sent && m !in heard
    ensures |now + answers - (heard + {m})| < |sent + answers - heard|
  {
    FewerMembers(now + answers - (heard + {m}), sent + answers - heard - {m});
  }

  // A config that changes nothing is one less to come.
  lemma IgnoredLeavesFewer(t: Topology, net: Net, after: Net, m: Message)
    requires Enabled(net, Deliver(m)) && m !in net.heard
    requires after == net.(sent := net.sent + OnTheWire(t, m.to.sw, PortConfig(net.switches[m.to.sw], m.to.port)),
                           heard := net.heard + {m})
    ensures |Pending(t, after)| < |Pending(t, net)|
  {
    AnswerIsAnswer(t, net, m);
    assert Answers(t, after) == Answers(t, net);
    OneLess(net.sent, Answers(t, net), net.heard, after.sent, m);
  }

  // A config that changes its receiver lowers the rank.
  lemma AcceptedLowers(t: Topology, net: Net, after: Net, m: Message)
    requires WellFormed(t) && Inv(t, net) && Inv(t, after) && Enabled(net, Deliver(m))
    requires Better(m.config, net.switches[m.to.sw].ports[m.to.port]) && after == Step(t, net, Deliver(m))
    ensures NetRank(t, after.switches, |t.ids|) < NetRank(t, net.switches, |t.ids|)
    ensures after.spoken == net.spoken + {m.to.sw}
  {
    DeliveredAccepted(t, net, m);
    DeliverCases(t, net, m);
    assert AcceptedAt(net, after, m);
    AcceptedRankFalls(t, net, after, m);
  }

  // Each delivery of what has not been heard lowers the rank or leaves one config less to come.
  lemma ArrivalLowers(t: Topology, net: Net, m: Message) returns (after: Net)
    requires WellFormed(t) && Inv(t, net) && Enabled(net, Deliver(m)) && m !in net.heard
    ensures after == Step(t, net, Deliver(m)) && Inv(t, after) && net.spoken <= after.spoken
    ensures NetRank(t, after.switches, |t.ids|) < NetRank(t, net.switches, |t.ids|)
      || (after.switches == net.switches && |Pending(t, after)| < |Pending(t, net)|)
  {
    after := Step(t, net, Deliver(m));
    StepKeepsInv(t, net, Deliver(m));
    if Better(m.config, net.switches[m.to.sw].ports[m.to.port]) {
      AcceptedLowers(t, net, after, m);
    } else {
      DeliverCases(t, net, m);
      IgnoredLeavesFewer(t, net, after, m);
    }
  }

  // So they are delivered until nothing is left.
  lemma {:induction false} EverythingArrives(t: Topology, net: Net) returns (events: seq<Event>)
    requires WellFormed(t) && Inv(t, net) && SpokenUpTo(net, |t.ids|)
    ensures Run(t, net, events).Some? && Quiet(t, Run(t, net, events).value)
    decreases NetRank(t, net.switches, |t.ids|), |Pending(t, net)|
  {
    if net.sent <= net.heard {
      events := [];
    } else {
      var m :| m in net.sent && m !in net.heard;
      assert MessageTruthful(t, net, m);
      var after := ArrivalLowers(t, net, m);
      var rest := EverythingArrives(t, after);
      RunFirst(t, net, Deliver(m), rest);
      events := [Deliver(m)] + rest;
    }
  }

  // ---------------------------------------------------------------- results

  // However far from settled, some continuation of every run brings all configs to their ports.
  lemma QuietAttainable(t: Topology, net: Net) returns (events: seq<Event>)
    requires WellFormed(t) && Reachable(t, net)
    ensures Run(t, net, events).Some? && Quiet(t, Run(t, net, events).value)
    ensures Reachable(t, Run(t, net, events).value)
  {
    var past :| Run(t, InitNet(t), past) == Some(net);
    InitInv(t);
    RunKeepsInv(t, InitNet(t), past);
    RunKeepsSilent(t, InitNet(t), past);
    var speaking := EverybodySpeaks(t, net, |t.ids|);
    var arriving := EverythingArrives(t, Run(t, net, speaking).value);
    RunAppend(t, net, speaking, arriving);
    events := speaking + arriving;
    RunAppend(t, InitNet(t), past, events);
  }

  // The state a connected network should come to.
  ghost predicate ShortestPathTree(t: Topology, net: Net, r: nat) {
    && Settled(t, net) && r < |t.ids|
    && (forall u :: 0 <= u < |t.ids| ==>
          && net.switches[u].root == t.ids[r]
          && HopDistance(t, u, r, net.switches[u].cost)
          && (net.switches[u].rootPort.None? <==> u == r))
    && (forall hops :: !ForwardingLoop(t, net, hops))
  }

  // From every reachable state of a connected network the shortest-path tree to the smallest id is
  // still attainable, as long as what was sent can still arrive.
  lemma TreeAttainable(t: Topology, net: Net, r: nat)
    requires WellFormed(t) && Connected(t) && Reachable(t, net) && SmallestId(t, r)
    ensures exists events :: Run(t, net, events).Some? && ShortestPathTree(t, Run(t, net, events).value, r)
  {
    var events := QuietAttainable(t, net);
    QuietRunsConverge(t, Run(t, net, events).value, r);
    assert ShortestPathTree(t, Run(t, net, events).value, r);
  }
}
