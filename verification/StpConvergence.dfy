/** What a settled network looks like: one root, shortest costs, and a loop-free set of
    forwarding links. */
module StpConvergence {
  import opened Wrappers
  import opened StpVector
  import opened StpSwitch
  import opened StpNetwork

  // Delivering the current config of any designated port to its peer changes nothing.
  ghost predicate Stable(t: Topology, net: Net)
    requires WellFormed(t) && SwitchesFit(t, net)
  {
    forall e :: e in t.links && Designated(net.switches[e.sw], e.port) ==>
                  var p := t.links[e];
                  Handle(net.switches[p.sw], p.port, Own(net.switches[e.sw], e.port)).sw == net.switches[p.sw]
  }

  // Every switch has announced itself and no config ever sent is still undelivered.
  ghost predicate Quiet(t: Topology, net: Net) {
    net.sent <= net.heard && (forall u :: 0 <= u < |t.ids| ==> u in net.spoken)
  }

  lemma QuietIsStable(t: Topology, net: Net)
    requires WellFormed(t) && Inv(t, net) && Quiet(t, net)
    ensures Stable(t, net)
  {
    forall e | e in t.links && Designated(net.switches[e.sw], e.port)
      ensures var p := t.links[e];
              Handle(net.switches[p.sw], p.port, Own(net.switches[e.sw], e.port)).sw == net.switches[p.sw]
    {
      var m := Message(t.links[e], Own(net.switches[e.sw], e.port));
      assert End(e.sw, e.port) == e;
      assert m in net.heard;
    }
  }

  // Two ports each showing what the other's switch once held: they cannot both be beaten.
  lemma OneOfTwo(s: Switch, i: nat, r: Switch, j: nat)
    requires Consistent(s) && Consistent(r) && i < |s.ports| && j < |r.ports|
    requires !Designated(s, i) ==> s.ports[i].switchId == r.id && NoWorse(r.root, r.cost, s.ports[i].root, s.ports[i].cost)
    requires !Designated(r, j) ==> r.ports[j].switchId == s.id && NoWorse(s.root, s.cost, r.ports[j].root, r.ports[j].cost)
    ensures Designated(s, i) || Designated(r, j)
  {
  }

  lemma DesignatedEnd(t: Topology, net: Net, e: End)
    requires WellFormed(t) && Inv(t, net) && e in t.links
    ensures Designated(net.switches[e.sw], e.port)
            || Designated(net.switches[t.links[e].sw], t.links[e].port)
  {
    var p := t.links[e];
    assert End(e.sw, e.port) == e && End(p.sw, p.port) == p;
    assert PortTruthful(t, net, e.sw, e.port) && PortTruthful(t, net, p.sw, p.port);
    OneOfTwo(net.switches[e.sw], e.port, net.switches[p.sw], p.port);
  }

  // In every reachable state, however far from settled, each link has a designated end.
  lemma NeverBothBlocked(t: Topology, net: Net)
    requires WellFormed(t) && Reachable(t, net)
    ensures Inv(t, net)
    ensures forall e :: e in t.links ==>
              Designated(net.switches[e.sw], e.port) || Designated(net.switches[t.links[e].sw], t.links[e].port)
  {
    ReachableInv(t, net);
    forall e | e in t.links
      ensures Designated(net.switches[e.sw], e.port) || Designated(net.switches[t.links[e].sw], t.links[e].port)
    {
      DesignatedEnd(t, net, e);
    }
  }

  // In a stable state exactly one end of a link is designated, and the other end stores its
  // current vector, which beats the other switch's own.
  lemma StableLink(t: Topology, net: Net, e: End)
    requires WellFormed(t) && Inv(t, net) && Stable(t, net)
    requires e in t.links && Designated(net.switches[e.sw], e.port)
    ensures var p := t.links[e];
            && !Designated(net.switches[p.sw], p.port)
            && net.switches[p.sw].ports[p.port] == Own(net.switches[e.sw], e.port)
            && Better(Own(net.switches[e.sw], e.port), Own(net.switches[p.sw], p.port))
  {
    var p := t.links[e];
    var s, r := net.switches[e.sw], net.switches[p.sw];
    assert End(e.sw, e.port) == e && End(p.sw, p.port) == p;
    assert SwitchNumber(s.id) != SwitchNumber(r.id);
    NotBeaten(t, net, e);
    assert PortTruthful(t, net, p.sw, p.port);
    if Designated(r, p.port) {
      NotBeaten(t, net, p);
    }
  }

  // In a stable state the own vector of a designated end does not beat what the peer stores.
  lemma NotBeaten(t: Topology, net: Net, e: End)
    requires WellFormed(t) && Inv(t, net) && Stable(t, net)
    requires e in t.links && Designated(net.switches[e.sw], e.port)
    ensures !Better(Own(net.switches[e.sw], e.port), net.switches[t.links[e].sw].ports[t.links[e].port])
  {
    var p := t.links[e];
    var s, r := net.switches[e.sw], net.switches[p.sw];
    assert SwitchNumber(s.id) != SwitchNumber(r.id);
    SwitchesAreGrounded(t, net);
    var own := Own(s, e.port);
    assert PastTruth(t, net, own, e);
    TruthIsCredible(t, net, own, p.sw, e);
    ChangeIffBetter(r, p.port, own);
  }

  ghost predicate IsRootPort(net: Net, e: End) {
    e.sw < |net.switches| && net.switches[e.sw].rootPort == Some(e.port)
  }

  // Across a settled link the roots agree, the costs differ by at most one, exactly one end is
  // designated, and a root port is one hop further from the root than its peer.
  ghost predicate LinkSettled(t: Topology, net: Net, e: End)
    requires e in t.links
  {
    var p := t.links[e];
    && e.sw < |net.switches| && e.port < |net.switches[e.sw].ports|
    && p.sw < |net.switches| && p.port < |net.switches[p.sw].ports|
    && net.switches[e.sw].root == net.switches[p.sw].root
    && net.switches[e.sw].cost <= net.switches[p.sw].cost + 1
    && (Designated(net.switches[e.sw], e.port) <==> !Designated(net.switches[p.sw], p.port))
    && (IsRootPort(net, e) ==>
          !Designated(net.switches[e.sw], e.port) && net.switches[e.sw].cost == net.switches[p.sw].cost + 1)
  }

  // A switch without root port is its own root; a root port is on a link.
  ghost predicate SwitchSettled(t: Topology, net: Net, u: nat)
    requires u < |net.switches| && |net.switches| == |t.ids|
  {
    var s := net.switches[u];
    && s.id == t.ids[u] && s.root <= s.id
    && (s.rootPort.None? ==> s.root == s.id && s.cost == 0)
    && (s.rootPort.Some? ==> End(u, s.rootPort.value) in t.links && s.root < s.id)
  }

  ghost predicate Settled(t: Topology, net: Net) {
    && |net.switches| == |t.ids|
    && (forall u :: 0 <= u < |t.ids| ==> SwitchSettled(t, net, u))
    && (forall e :: e in t.links ==> LinkSettled(t, net, e))
  }

  // A switch that stores the current vector of its peer agrees on the root, is at most one hop
  // further and no closer, and exactly one hop further through its root port.
  lemma StoringCurrentVector(s: Switch, i: nat, r: Switch, j: nat)
    requires Consistent(r) && i < |s.ports| && j < |r.ports| && !Designated(r, j)
    requires r.ports[j] == Own(s, i)
    requires Better(Own(s, i), Own(r, j))
    ensures s.root == r.root && s.cost <= r.cost <= s.cost + 1
    ensures r.rootPort == Some(j) ==> r.cost == s.cost + 1
  {
    assert r.rootPort.Some?;
    assert !Better(r.ports[j], r.ports[r.rootPort.value]);
  }

  lemma StoringEndSettled(t: Topology, net: Net, e: End)
    requires e in t.links && t.links[e] in t.links && t.links[t.links[e]] == e
    requires e.sw < |net.switches| && e.port < |net.switches[e.sw].ports|
    requires var p := t.links[e];
             && p.sw < |net.switches| && p.port < |net.switches[p.sw].ports|
             && Consistent(net.switches[p.sw]) && Consistent(net.switches[e.sw])
             && Designated(net.switches[e.sw], e.port) && !Designated(net.switches[p.sw], p.port)
             && net.switches[p.sw].ports[p.port] == Own(net.switches[e.sw], e.port)
             && Better(Own(net.switches[e.sw], e.port), Own(net.switches[p.sw], p.port))
    ensures LinkSettled(t, net, e) && LinkSettled(t, net, t.links[e])
  {
    var p := t.links[e];
    StoringCurrentVector(net.switches[e.sw], e.port, net.switches[p.sw], p.port);
  }

  lemma DesignatedEndSettled(t: Topology, net: Net, e: End)
    requires WellFormed(t) && Inv(t, net) && Stable(t, net)
    requires e in t.links && Designated(net.switches[e.sw], e.port)
    ensures LinkSettled(t, net, e) && LinkSettled(t, net, t.links[e])
  {
    StableLink(t, net, e);
    assert Consistent(net.switches[t.links[e].sw]) && Consistent(net.switches[e.sw]);
    StoringEndSettled(t, net, e);
  }

  lemma StableIsSettled(t: Topology, net: Net)
    requires WellFormed(t) && Inv(t, net) && Stable(t, net)
    ensures Settled(t, net)
  {
    forall e | e in t.links
      ensures LinkSettled(t, net, e)
    {
      DesignatedEnd(t, net, e);
      if Designated(net.switches[e.sw], e.port) {
        DesignatedEndSettled(t, net, e);
      } else {
        DesignatedEndSettled(t, net, t.links[e]);
      }
    }
    forall u | 0 <= u < |t.ids|
      ensures SwitchSettled(t, net, u)
    {
      assert Consistent(net.switches[u]);
      if net.switches[u].rootPort.Some? {
        assert PortTruthful(t, net, u, net.switches[u].rootPort.value);
      }
    }
  }

  // ---------------------------------------------------------------- walks

  ghost predicate Walk(t: Topology, w: seq<nat>) {
    && |w| > 0
    && (forall k :: 0 <= k < |w| ==> w[k] < |t.ids|)
    && (forall k :: 0 < k < |w| ==> Adjacent(t, w[k - 1], w[k]))
  }

  ghost predicate Joins(t: Topology, w: seq<nat>, u: nat, v: nat) {
    Walk(t, w) && w[0] == u && w[|w| - 1] == v
  }

  ghost predicate Linked(t: Topology, u: nat, v: nat) {
    exists w :: Joins(t, w, u, v)
  }

  ghost predicate Connected(t: Topology) {
    forall u, v :: 0 <= u < |t.ids| && 0 <= v < |t.ids| ==> Linked(t, u, v)
  }

  // d is the least number of links between u and v.
  ghost predicate HopDistance(t: Topology, u: nat, v: nat, d: nat) {
    && (exists w :: Joins(t, w, u, v) && |w| == d + 1)
    && (forall w :: Joins(t, w, u, v) ==> d + 1 <= |w|)
  }

  ghost predicate SmallestId(t: Topology, r: nat) {
    r < |t.ids| && forall u :: 0 <= u < |t.ids| ==> t.ids[r] <= t.ids[u]
  }

  lemma {:induction false} WalkAgreement(t: Topology, net: Net, w: seq<nat>)
    requires WellFormed(t) && Settled(t, net) && Walk(t, w)
    ensures net.switches[w[0]].root == net.switches[w[|w| - 1]].root
    ensures net.switches[w[0]].cost <= net.switches[w[|w| - 1]].cost + |w| - 1
    decreases |w|
  {
    if |w| > 1 {
      assert Adjacent(t, w[0], w[1]);
      var port :| End(w[0], port) in t.links && t.links[End(w[0], port)].sw == w[1];
      assert LinkSettled(t, net, End(w[0], port));
      WalkAgreement(t, net, w[1..]);
    }
  }

  // The switch at the other end of u's root port.
  ghost function Parent(t: Topology, net: Net, u: nat): nat
    requires Settled(t, net) && u < |t.ids| && net.switches[u].rootPort.Some?
  {
    assert SwitchSettled(t, net, u);
    t.links[End(u, net.switches[u].rootPort.value)].sw
  }

  // The root port leads one hop closer.
  lemma ParentCloser(t: Topology, net: Net, u: nat)
    requires WellFormed(t) && Settled(t, net) && u < |t.ids| && net.switches[u].rootPort.Some?
    ensures var p := Parent(t, net, u);
            && p < |t.ids| && Adjacent(t, u, p)
            && net.switches[p].root == net.switches[u].root
            && net.switches[u].cost == net.switches[p].cost + 1
  {
    assert SwitchSettled(t, net, u);
    var e := End(u, net.switches[u].rootPort.value);
    assert LinkSettled(t, net, e) && IsRootPort(net, e);
  }

  // The switches met on following root ports from u.
  ghost function RootPath(t: Topology, net: Net, u: nat): seq<nat>
    requires WellFormed(t) && Settled(t, net) && u < |t.ids|
    decreases net.switches[u].cost
  {
    if net.switches[u].rootPort.None? then [u]
    else
      ParentCloser(t, net, u);
      [u] + RootPath(t, net, Parent(t, net, u))
  }

  lemma WalkFrom(t: Topology, u: nat, w: seq<nat>)
    requires u < |t.ids| && Walk(t, w) && Adjacent(t, u, w[0])
    ensures Walk(t, [u] + w)
  {
    var longer := [u] + w;
    forall k | 0 < k < |longer|
      ensures Adjacent(t, longer[k - 1], longer[k])
    {
      if k > 1 { assert Adjacent(t, w[k - 1 - 1], w[k - 1]); }
    }
  }

  // Following root ports from u ends, in exactly cost steps, at a switch that is its own root.
  lemma {:induction false} RootPathClimbs(t: Topology, net: Net, u: nat)
    requires WellFormed(t) && Settled(t, net) && u < |t.ids|
    ensures var w := RootPath(t, net, u);
            && Walk(t, w) && w[0] == u && |w| == net.switches[u].cost + 1
            && net.switches[w[|w| - 1]].rootPort.None?
            && net.switches[w[|w| - 1]].root == net.switches[u].root
    decreases net.switches[u].cost
  {
    assert SwitchSettled(t, net, u);
    if net.switches[u].rootPort.Some? {
      ParentCloser(t, net, u);
      var p := Parent(t, net, u);
      RootPathClimbs(t, net, p);
      WalkFrom(t, u, RootPath(t, net, p));
    }
  }

  // All switches of a settled connected network name the smallest id as root.
  lemma RootAgreement(t: Topology, net: Net, r: nat, u: nat)
    requires WellFormed(t) && Settled(t, net) && Connected(t) && SmallestId(t, r) && u < |t.ids|
    ensures net.switches[u].root == t.ids[r]
  {
    assert Linked(t, u, r);
    var w :| Joins(t, w, u, r);
    WalkAgreement(t, net, w);
    RootPathClimbs(t, net, u);
    var path := RootPath(t, net, u);
    assert SwitchSettled(t, net, r) && SwitchSettled(t, net, path[|path| - 1]);
  }

  // Root, shortest costs and root ports of every stable state of a connected network.
  lemma SettledIsShortestPathTree(t: Topology, net: Net, r: nat, u: nat)
    requires WellFormed(t) && Settled(t, net) && Connected(t) && SmallestId(t, r) && u < |t.ids|
    ensures net.switches[u].root == t.ids[r]
    ensures HopDistance(t, u, r, net.switches[u].cost)
    ensures net.switches[u].rootPort.None? <==> u == r
  {
    RootAgreement(t, net, r, u);
    RootAgreement(t, net, r, r);
    assert SwitchSettled(t, net, r) && SwitchSettled(t, net, u);
    RootPathClimbs(t, net, u);
    var path := RootPath(t, net, u);
    var top := path[|path| - 1];
    assert SwitchSettled(t, net, top);
    assert t.ids[top] == t.ids[r];
    assert top == r;
    assert Joins(t, path, u, r);
    forall w | Joins(t, w, u, r)
      ensures net.switches[u].cost + 1 <= |w|
    {
      WalkAgreement(t, net, w);
    }
  }

  // ---------------------------------------------------------------- forwarding

  datatype Role = RootRole | DesignatedRole | AlternateRole

  // stp_port_state
  function PortRole(s: Switch, port: nat): Role
    requires port < |s.ports|
  {
    if s.rootPort.Some? && PortId(port) == PortId(s.rootPort.value) then RootRole
    else if Designated(s, port) then DesignatedRole
    else AlternateRole
  }

  // The root port has the root role, designated ports have the designated role, all others none.
  lemma RolesExact(s: Switch, port: nat)
    requires Consistent(s) && port < |s.ports|
    ensures PortRole(s, port) == RootRole <==> s.rootPort == Some(port)
    ensures PortRole(s, port) == DesignatedRole <==> s.ports[port].switchId == s.id && s.ports[port].portId == PortId(port)
    ensures PortRole(s, port) == AlternateRole <==> s.rootPort != Some(port) && !Designated(s, port)
  {
  }

  // Neither end of the link is blocked.
  ghost predicate Forwarding(t: Topology, net: Net, e: End)
    requires Settled(t, net) && e in t.links
  {
    assert LinkSettled(t, net, e);
    && PortRole(net.switches[e.sw], e.port) != AlternateRole
    && PortRole(net.switches[t.links[e].sw], t.links[e].port) != AlternateRole
  }

  // A settled link forwards exactly when one of its ends is a root port, and never two are; the
  // root port is one hop further from the root than the other end.
  lemma ForwardingIffRootLink(t: Topology, net: Net, e: End)
    requires WellFormed(t) && Settled(t, net) && e in t.links
    ensures Forwarding(t, net, e) <==> IsRootPort(net, e) || IsRootPort(net, t.links[e])
    ensures !(IsRootPort(net, e) && IsRootPort(net, t.links[e]))
    ensures IsRootPort(net, e) ==> net.switches[e.sw].cost == net.switches[t.links[e].sw].cost + 1
    ensures IsRootPort(net, t.links[e]) ==> net.switches[t.links[e].sw].cost == net.switches[e.sw].cost + 1
  {
    assert LinkSettled(t, net, e) && LinkSettled(t, net, t.links[e]);
  }

  // Every switch but the root climbs towards it over a forwarding link.
  lemma RootPortForwards(t: Topology, net: Net, u: nat)
    requires WellFormed(t) && Settled(t, net) && u < |t.ids| && net.switches[u].rootPort.Some?
    ensures var e := End(u, net.switches[u].rootPort.value);
            e in t.links && Forwarding(t, net, e) && t.links[e].sw == Parent(t, net, u)
  {
    assert SwitchSettled(t, net, u);
    ForwardingIffRootLink(t, net, End(u, net.switches[u].rootPort.value));
  }

  // A trip over forwarding links that leaves by hops[k], enters the switch of the next hop, ends
  // where it began and never turns round on the link it came by.
  ghost predicate ForwardingLoop(t: Topology, net: Net, hops: seq<End>)
    requires Settled(t, net)
  {
    && |hops| > 0
    && (forall k :: 0 <= k < |hops| ==> hops[k] in t.links && Forwarding(t, net, hops[k]))
    && (forall k :: 0 < k < |hops| ==> Continues(t, hops[k - 1], hops[k]))
    && Continues(t, hops[|hops| - 1], hops[0])
  }

  predicate Continues(t: Topology, hop: End, next: End)
    requires hop in t.links
  {
    t.links[hop].sw == next.sw && t.links[hop] != next
  }

  lemma {:induction false} FarthestHop(net: Net, hops: seq<End>) returns (far: nat)
    requires |hops| > 0 && forall k :: 0 <= k < |hops| ==> hops[k].sw < |net.switches|
    ensures far < |hops|
    ensures forall k :: 0 <= k < |hops| ==> net.switches[hops[k].sw].cost <= net.switches[hops[far].sw].cost
    decreases |hops|
  {
    far := 0;
    if |hops| > 1 {
      var rest := FarthestHop(net, hops[1..]);
      assert forall k :: 1 <= k < |hops| ==> hops[k] == hops[1..][k - 1];
      if net.switches[hops[0].sw].cost < net.switches[hops[1 + rest].sw].cost {
        far := 1 + rest;
      }
    }
  }

  // No switch lies strictly between two switches at most as far from the root on a trip that
  // does not turn round: both links would have to be its root port's.
  lemma NoPeak(t: Topology, net: Net, hop: End, next: End)
    requires WellFormed(t) && Settled(t, net) && hop in t.links && next in t.links
    requires Forwarding(t, net, hop) && Forwarding(t, net, next)
    requires t.links[hop].sw == next.sw
    requires net.switches[hop.sw].cost <= net.switches[next.sw].cost
    requires net.switches[t.links[next].sw].cost <= net.switches[next.sw].cost
    ensures t.links[hop] == next
  {
    ForwardingIffRootLink(t, net, hop);
    ForwardingIffRootLink(t, net, next);
  }

  // A frame flooded over the forwarding links of a settled network never comes round.
  lemma NoForwardingLoop(t: Topology, net: Net, hops: seq<End>)
    requires WellFormed(t) && Settled(t, net)
    ensures !ForwardingLoop(t, net, hops)
  {
    if ForwardingLoop(t, net, hops) {
      var far := FarthestHop(net, hops);
      var hop := if far == 0 then hops[|hops| - 1] else hops[far - 1];
      var after := if far == |hops| - 1 then hops[0] else hops[far + 1];
      var next := hops[far];
      assert Continues(t, hop, next) && Continues(t, next, after) by {
        if far + 1 < |hops| { assert Continues(t, hops[far + 1 - 1], hops[far + 1]); }
      }
      NoPeak(t, net, hop, next);
    }
  }

  // The main result on runs: whenever every config sent so far has arrived at least once, the
  // network has computed the tree of shortest paths to the smallest switch id and forwards
  // without loops.
  lemma QuietRunsConverge(t: Topology, net: Net, r: nat)
    requires WellFormed(t) && Connected(t) && Reachable(t, net) && Quiet(t, net) && SmallestId(t, r)
    ensures Settled(t, net)
    ensures forall u :: 0 <= u < |t.ids| ==>
              && net.switches[u].root == t.ids[r]
              && HopDistance(t, u, r, net.switches[u].cost)
              && (net.switches[u].rootPort.None? <==> u == r)
    ensures forall hops :: !ForwardingLoop(t, net, hops)
  {
    ReachableInv(t, net);
    QuietIsStable(t, net);
    StableIsSettled(t, net);
    forall u | 0 <= u < |t.ids|
      ensures net.switches[u].root == t.ids[r]
      ensures HopDistance(t, u, r, net.switches[u].cost)
      ensures net.switches[u].rootPort.None? <==> u == r
    {
      SettledIsShortestPathTree(t, net, r, u);
    }
    forall hops
      ensures !ForwardingLoop(t, net, hops)
    {
      NoForwardingLoop(t, net, hops);
    }
  }
}
