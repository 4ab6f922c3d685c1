/** The switch as the C code has it: an object whose ports are overwritten in place. */
module StpDevice {
  import opened Wrappers
  import opened StpVector
  import opened StpSwitch

  class Device {
    const id: nat
    var root: nat
    var cost: nat
    var rootPort: Option<nat>
    var helloActive: bool
    const ports: array<Vector>

    ghost function State(): Switch
      reads this, ports
    {
      Switch(id, root, cost, rootPort, ports[..], helloActive)
    }

    // stp_init and stp_port_init; the C array has room for MAX_PORTS ports.
    constructor (id: nat, nports: nat)
      requires nports <= MAX_PORTS
      ensures fresh(ports)
      ensures State() == InitSwitch(id, nports)
    {
      this.id := id;
      root := id;
      cost := 0;
      rootPort := None;
      helloActive := true;
      ports := new Vector[nports](i requires 0 <= i < nports => Vector(id, 0, id, PortId(i)));
      new;
      assert ports[..] == InitSwitch(id, nports).ports;
    }

    // stp_port_is_designated
    function IsDesignated(port: nat): bool
      requires port < ports.Length
      reads this, ports
    {
      ports[port].switchId == id && ports[port].portId == PortId(port)
    }

    // undesigned_port
    method StoreConfig(port: nat, config: Vector)
      requires port < ports.Length
      modifies ports
      ensures State() == old(State()).(ports := old(State()).ports[port := config])
    {
      ports[port] := config;
    }

    // stp_update, first half: choose the root port and take over its root and cost
    method SelectRoot()
      modifies this
      ensures State() == Reselect(old(State()))
    {
      ghost var before := State();
      rootPort := None;
      for i := 0 to ports.Length
        invariant root == before.root && cost == before.cost && helloActive == before.helloActive
        invariant rootPort == BestPort(before, i)
      {
        if (rootPort.Some? && !IsDesignated(i) && Compare(ports[i], ports[rootPort.value]) > 0)
           || (rootPort.None? && !IsDesignated(i)) {
          rootPort := Some(i);
        }
      }
      if rootPort.None? {
        root := id;
        cost := 0;
      } else {
        root := ports[rootPort.value].root;
        cost := ports[rootPort.value].cost + PATH_COST;
      }
    }

    // stp_update, second half: bring every port up to date
    method RefreshPorts()
      modifies ports
      ensures State() == Refresh(old(State()))
    {
      ghost var before := State();
      for i := 0 to ports.Length
        invariant forall k :: 0 <= k < i ==> ports[k] == Refreshed(before, k)
        invariant forall k :: i <= k < ports.Length ==> ports[k] == before.ports[k]
      {
        if IsDesignated(i) {
          ports[i] := ports[i].(root := root, cost := cost);
        } else if Compare(ports[i], Vector(root, cost, id, PortId(i))) < 0 {
          ports[i] := Vector(root, cost, id, PortId(i));
        }
      }
      assert ports[..] == Refresh(before).ports;
    }

    // stp_update
    method Recompute()
      modifies this, ports
      ensures State() == Update(old(State()))
    {
      SelectRoot();
      RefreshPorts();
    }

    // stp_port_send_config
    method SendPortConfig(port: nat) returns (out: seq<Outgoing>)
      ensures out == PortConfig(State(), port)
    {
      if root != id && rootPort.None? {
        return [];
      }
      out := [Outgoing(port, Vector(root, cost, id, PortId(port)))];
    }

    // stp_send_config
    method SendConfigs() returns (out: seq<Outgoing>)
      ensures out == Configs(State(), ports.Length)
    {
      out := [];
      for i := 0 to ports.Length
        invariant out == Configs(State(), i)
      {
        if IsDesignated(i) {
          var sent := SendPortConfig(i);
          out := out + sent;
        }
      }
    }

    // stp_handle_config_packet
    method HandleConfig(port: nat, config: Vector) returns (out: seq<Outgoing>)
      requires port < ports.Length
      modifies this, ports
      ensures Reaction(State(), out) == Handle(old(State()), port, config)
    {
      if Compare(ports[port], config) < 0 {
        var usedToBeRoot := root == id;
        StoreConfig(port, config);
        Recompute();
        if usedToBeRoot {
          helloActive := false;
        }
        out := SendConfigs();
      } else {
        out := SendPortConfig(port);
      }
    }

    // stp_handle_hello_timeout, run by stp_timer_run_once only while the timer is active
    method HelloTimeout() returns (out: seq<Outgoing>)
      ensures out == Hello(State())
    {
      if helloActive {
        out := SendConfigs();
      } else {
        out := [];
      }
    }
  }
}
