/** One switch as a value: its state, its reaction to a config message, and what
    every reaction keeps. */
module StpSwitch {
  import opened Wrappers
  import opened StpVector

  datatype Switch = Switch(
    id: nat,
    root: nat,
    cost: nat,
    rootPort: Option<nat>,
    ports: seq<Vector>,
    helloActive: bool)

  // A config handed to the wire on one port.
  datatype Outgoing = Outgoing(port: nat, config: Vector)

  datatype Reaction = Reaction(sw: Switch, out: seq<Outgoing>)

  function InitSwitch(id: nat, nports: nat): Switch {
    Switch(id, id, 0, None, seq(nports, i requires 0 <= i < nports => Vector(id, 0, id, PortId(i))), true)
  }

  // The vector the switch advertises, and would itself hold, on a port.
  function Own(s: Switch, port: nat): Vector {
    Vector(s.root, s.cost, s.id, PortId(port))
  }

  predicate IsRoot(s: Switch) { s.root == s.id }

  predicate Designated(s: Switch, port: nat)
    requires port < |s.ports|
  {
    s.ports[port].switchId == s.id && s.ports[port].portId == PortId(port)
  }

  // The first non-designated port among ports[..n] that no other one beats.
  function BestPort(s: Switch, n: nat): (best: Option<nat>)
    requires n <= |s.ports|
    ensures best.None? ==> forall i :: 0 <= i < n ==> Designated(s, i)
    ensures best.Some? ==> best.value < n && !Designated(s, best.value)
    ensures best.Some? ==> forall i :: 0 <= i < n && !Designated(s, i) ==> !Better(s.ports[i], s.ports[best.value])
    ensures best.Some? ==>
              forall i :: 0 <= i < best.value && !Designated(s, i) ==> Better(s.ports[best.value], s.ports[i])
  {
    if n == 0 then None
    else
      var best := BestPort(s, n - 1);
      if !Designated(s, n - 1) && (best.None? || Compare(s.ports[n - 1], s.ports[best.value]) > 0) then Some(n - 1)
      else best
  }

  // Root port, root and cost recomputed from the port vectors.
  function Reselect(s: Switch): (r: Switch)
    ensures r.ports == s.ports && r.id == s.id && r.helloActive == s.helloActive
  {
    match BestPort(s, |s.ports|)
    case None => s.(rootPort := None, root := s.id, cost := 0)
    case Some(p) => s.(rootPort := Some(p), root := s.ports[p].root, cost := s.ports[p].cost + PATH_COST)
  }

  // A port's vector after the second loop of stp_update.
  function Refreshed(s: Switch, port: nat): Vector
    requires port < |s.ports|
  {
    if Designated(s, port) || Compare(s.ports[port], Own(s, port)) < 0 then Own(s, port) else s.ports[port]
  }

  function Refresh(s: Switch): Switch {
    s.(ports := seq(|s.ports|, i requires 0 <= i < |s.ports| => Refreshed(s, i)))
  }

  // stp_update
  function Update(s: Switch): Switch {
    Refresh(Reselect(s))
  }

  // stp_port_send_config: silent only for a switch that is not root and has no root port.
  function PortConfig(s: Switch, port: nat): (out: seq<Outgoing>)
    ensures forall o :: o in out ==> o.port == port && o.config == Own(s, port)
  {
    if !IsRoot(s) && s.rootPort.None? then [] else [Outgoing(port, Own(s, port))]
  }

  // stp_send_config over ports[..n].
  function Configs(s: Switch, n: nat): (out: seq<Outgoing>)
    requires n <= |s.ports|
    ensures forall o :: o in out ==> o.port < n && Designated(s, o.port) && o.config == Own(s, o.port)
    ensures IsRoot(s) || s.rootPort.Some? ==>
              forall i :: 0 <= i < n && Designated(s, i) ==> Outgoing(i, Own(s, i)) in out
  {
    if n == 0 then []
    else Configs(s, n - 1) + if Designated(s, n - 1) then PortConfig(s, n - 1) else []
  }

  // The switch after a better config was accepted on a port.
  function Accept(s: Switch, port: nat, config: Vector): Switch
    requires port < |s.ports|
  {
    var updated := Update(s.(ports := s.ports[port := config]));
    if IsRoot(s) then updated.(helloActive := false) else updated
  }

  // stp_handle_config_packet.
  function Handle(s: Switch, port: nat, config: Vector): Reaction
    requires port < |s.ports|
  {
    if Compare(s.ports[port], config) < 0 then
      var t := Accept(s, port, config);
      Reaction(t, Configs(t, |t.ports|))
    else Reaction(s, PortConfig(s, port))
  }

  // stp_handle_hello_timeout.
  function Hello(s: Switch): seq<Outgoing> {
    if s.helloActive then Configs(s, |s.ports|) else []
  }

  // Every port either shows the switch's own vector or one of somebody else that beats it;
  // root, cost and root port agree with the ports; the hello timer runs exactly at a root.
  ghost predicate Consistent(s: Switch) {
    && |s.ports| <= MAX_PORTS
    && (forall i :: 0 <= i < |s.ports| && Designated(s, i) ==> s.ports[i] == Own(s, i))
    && (forall i :: 0 <= i < |s.ports| && !Designated(s, i) ==>
          Better(s.ports[i], Own(s, i)) && SwitchNumber(s.ports[i].switchId) != SwitchNumber(s.id))
    && s.rootPort == BestPort(s, |s.ports|)
    && (s.rootPort.None? ==> s.root == s.id && s.cost == 0)
    && (s.rootPort.Some? ==> s.root == s.ports[s.rootPort.value].root
                             && s.cost == s.ports[s.rootPort.value].cost + PATH_COST && s.root < s.id)
    && s.helloActive == IsRoot(s)
  }

  // What a config from another switch may say: it is not signed by s, and claims s as root
  // only at a positive distance.
  predicate Credible(s: Switch, config: Vector) {
    && SwitchNumber(config.switchId) != SwitchNumber(s.id)
    && (config.root == s.id ==> config.cost > 0)
  }

  lemma InitConsistent(id: nat, nports: nat)
    requires nports <= MAX_PORTS
    ensures Consistent(InitSwitch(id, nports))
  {
    var s := InitSwitch(id, nports);
    assert forall i :: 0 <= i < |s.ports| ==> Designated(s, i);
    assert BestPort(s, |s.ports|).None?;
  }

  // Accepting a config never worsens (root, cost) or any port vector, and improves the receiving port.
  lemma AcceptImproves(s: Switch, port: nat, config: Vector)
    requires Consistent(s) && port < |s.ports| && Credible(s, config) && Better(config, s.ports[port])
    ensures var t := Accept(s, port, config);
            && t.id == s.id && |t.ports| == |s.ports|
            && NoWorse(t.root, t.cost, s.root, s.cost)
            && Better(t.ports[port], s.ports[port])
            && (forall i :: 0 <= i < |s.ports| ==> !Better(s.ports[i], t.ports[i]))
  {
    var m := s.(ports := s.ports[port := config]);
    var r := Reselect(m);
    assert !Designated(m, port);
    var best := BestPort(m, |m.ports|);
    assert best.Some?;
    assert !Better(config, m.ports[best.value]);
    if s.rootPort.Some? {
      var prior := s.rootPort.value;
      assert !Designated(m, prior);
      assert !Better(m.ports[prior], m.ports[best.value]);
    } else {
      assert Designated(s, port);
    }
    assert NoWorse(r.root, r.cost, s.root, s.cost);
  }

  // The ports after an accepted config: own vectors where designated, otherwise unchanged
  // vectors of other switches or the config itself.
  lemma AcceptPorts(s: Switch, port: nat, config: Vector)
    requires Consistent(s) && port < |s.ports| && Credible(s, config) && Better(config, s.ports[port])
    ensures var t := Accept(s, port, config);
            && |t.ports| == |s.ports|
            && (forall i :: 0 <= i < |s.ports| && !Designated(t, i) ==>
                  t.ports[i] == (if i == port then config else s.ports[i]) && (i != port ==> !Designated(s, i)))
            && (forall i :: 0 <= i < |s.ports| && Designated(t, i) ==> t.ports[i] == Own(t, i))
  {
  }

  // Turning losing ports into designated ones leaves the winner the same.
  lemma WinnerStays(m: Switch, t: Switch, best: nat)
    requires |m.ports| == |t.ports| && BestPort(m, |m.ports|) == Some(best)
    requires !Designated(t, best)
    requires forall i :: 0 <= i < |t.ports| && !Designated(t, i) ==> !Designated(m, i) && t.ports[i] == m.ports[i]
    ensures BestPort(t, |t.ports|) == Some(best)
  {
    var again := BestPort(t, |t.ports|);
    assert again.Some?;
  }

  // A switch refreshed after choosing best as root port of m is consistent again.
  lemma RefreshedConsistent(m: Switch, t: Switch, best: nat)
    requires |m.ports| == |t.ports| <= MAX_PORTS && BestPort(m, |m.ports|) == Some(best)
    requires t.rootPort == Some(best) && t.root == m.ports[best].root && t.cost == m.ports[best].cost + PATH_COST
    requires t.root < t.id && !t.helloActive && t.ports[best] == m.ports[best] && t.id == m.id
    requires forall i :: 0 <= i < |t.ports| && Designated(t, i) ==> t.ports[i] == Own(t, i)
    requires forall i :: 0 <= i < |t.ports| && !Designated(t, i) ==>
               && !Designated(m, i) && t.ports[i] == m.ports[i]
               && SwitchNumber(m.ports[i].switchId) != SwitchNumber(t.id) && !Better(Own(t, i), t.ports[i])
    ensures Consistent(t)
  {
    WinnerStays(m, t, best);
  }

  // The winning config names a smaller root than the switch itself.
  lemma WinnerNamesSmallerRoot(s: Switch, port: nat, config: Vector, best: nat)
    requires Consistent(s) && port < |s.ports| && Credible(s, config) && Better(config, s.ports[port])
    requires best < |s.ports| && !Better(config, s.ports[port := config][best])
    ensures s.ports[port := config][best].root < s.id
  {
    if s.rootPort.Some? {
      assert !Designated(s, s.rootPort.value);
    } else {
      assert Designated(s, port);
    }
  }

  lemma AcceptConsistent(s: Switch, port: nat, config: Vector)
    requires Consistent(s) && port < |s.ports| && Credible(s, config) && Better(config, s.ports[port])
    ensures Consistent(Accept(s, port, config)) && Accept(s, port, config).rootPort.Some?
  {
    var m := s.(ports := s.ports[port := config]);
    assert !Designated(m, port);
    var best := BestPort(m, |m.ports|).value;
    WinnerNamesSmallerRoot(s, port, config, best);
    assert Refreshed(Reselect(m), best) == m.ports[best];
    RefreshedConsistent(m, Accept(s, port, config), best);
  }

  // A config changes a consistent switch exactly when it beats the vector stored on its port.
  lemma ChangeIffBetter(s: Switch, port: nat, config: Vector)
    requires Consistent(s) && port < |s.ports| && Credible(s, config)
    ensures Handle(s, port, config).sw != s <==> Better(config, s.ports[port])
  {
    if Better(config, s.ports[port]) {
      AcceptImproves(s, port, config);
    }
  }

  // The guard of stp_port_send_config never suppresses a message.
  lemma NeverSilent(s: Switch)
    requires Consistent(s)
    ensures IsRoot(s) <==> s.rootPort.None?
    ensures forall i :: 0 <= i < |s.ports| ==> PortConfig(s, i) == [Outgoing(i, Own(s, i))]
  {
  }

  // Only a switch that is neither root nor has a root port would be silent.
  lemma SilentIff(s: Switch, port: nat)
    ensures PortConfig(s, port) == [] <==> s.root != s.id && s.rootPort.None?
    ensures PortConfig(s, port) != [] ==> PortConfig(s, port) == [Outgoing(port, Vector(s.root, s.cost, s.id, PortId(port)))]
  {
  }

  // What is sent: the switch's own vector, once on each designated port in port order, on no other.
  ghost predicate OnceEach(s: Switch, out: seq<Outgoing>) {
    && InPortOrder(out)
    && (forall k :: 0 <= k < |out| ==> out[k].port < |s.ports| && Designated(s, out[k].port) && out[k].config == Own(s, out[k].port))
    && (forall i :: 0 <= i < |s.ports| && Designated(s, i) ==> Outgoing(i, Own(s, i)) in out)
  }

  ghost predicate InPortOrder(out: seq<Outgoing>) {
    forall k, l :: 0 <= k < l < |out| ==> out[k].port < out[l].port
  }

  lemma OrderExtended(before: seq<Outgoing>, o: Outgoing)
    requires InPortOrder(before) && forall k :: 0 <= k < |before| ==> before[k].port < o.port
    ensures InPortOrder(before + [o])
  {
  }

  lemma {:induction false} ConfigsInOrder(s: Switch, n: nat)
    requires n <= |s.ports|
    ensures InPortOrder(Configs(s, n))
  {
    if n > 0 {
      ConfigsInOrder(s, n - 1);
      var before, last := Configs(s, n - 1), Outgoing(n - 1, Own(s, n - 1));
      assert forall k :: 0 <= k < |before| ==> before[k] in before;
      OrderExtended(before, last);
      assert Configs(s, n) == before || Configs(s, n) == before + [last];
    }
  }

  lemma ConfigsOnce(s: Switch)
    requires IsRoot(s) || s.rootPort.Some?
    ensures OnceEach(s, Configs(s, |s.ports|))
  {
    ConfigsInOrder(s, |s.ports|);
    var out := Configs(s, |s.ports|);
    assert forall k :: 0 <= k < |out| ==> out[k] in out;
  }

  // A better config is answered on all ports that are designated afterwards, any other one on the port
  // it came in by, with what the switch holds.
  lemma HandleSends(s: Switch, port: nat, config: Vector)
    requires Consistent(s) && port < |s.ports| && Credible(s, config)
    ensures var r := Handle(s, port, config);
            if Better(config, s.ports[port]) then OnceEach(r.sw, r.out)
            else r.sw == s && r.out == [Outgoing(port, Vector(s.root, s.cost, s.id, PortId(port)))]
  {
    if Better(config, s.ports[port]) {
      AcceptConsistent(s, port, config);
      ConfigsOnce(Accept(s, port, config));
    } else {
      NeverSilent(s);
    }
  }

  // On a hello timeout a root sends on every port; no other switch sends.
  lemma HelloSends(s: Switch)
    requires Consistent(s)
    ensures if s.root == s.id then OnceEach(s, Hello(s)) && forall i :: 0 <= i < |s.ports| ==> Designated(s, i)
            else Hello(s) == []
  {
    if IsRoot(s) { ConfigsOnce(s); }
  }

  // All that the network needs to know about an accepted config.
  ghost predicate Accepted(s: Switch, t: Switch, port: nat, config: Vector)
    requires port < |s.ports|
  {
    && t.id == s.id && |t.ports| == |s.ports| && Consistent(t) && t.rootPort.Some?
    && NoWorse(t.root, t.cost, s.root, s.cost)
    && (forall i :: 0 <= i < |s.ports| ==> !Better(s.ports[i], t.ports[i]))
    && Better(t.ports[port], s.ports[port])
    && !Better(config, t.ports[port])
    && (forall i :: 0 <= i < |s.ports| && !Designated(t, i) ==>
          t.ports[i] == (if i == port then config else s.ports[i]) && (i != port ==> !Designated(s, i)))
  }

  lemma AcceptContract(s: Switch, port: nat, config: Vector)
    requires Consistent(s) && port < |s.ports| && Credible(s, config) && Better(config, s.ports[port])
    ensures Accepted(s, Accept(s, port, config), port, config)
  {
    AcceptImproves(s, port, config);
    AcceptConsistent(s, port, config);
    AcceptPorts(s, port, config);
    assert !Designated(s.(ports := s.ports[port := config]), port);
  }
}
