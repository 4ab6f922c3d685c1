/** Priority vectors of the spanning-tree protocol and the comparison shared by
    `config_cmp_port_port`, `config_cmp_port_msg` and `config_cmp_port_stp`. */
module StpVector {

  // What a port stores, and what a config message carries.
  datatype Vector = Vector(root: nat, cost: nat, switchId: nat, portId: nat)

  // The comparison looks at the low 16 bits of a switch id and the low 8 bits of a port id.
  function SwitchNumber(id: nat): nat { id % 0x1_0000 }

  function PortNumber(id: nat): nat { id % 0x100 }

  // Port ids are numbered from 1, with the default priority 128 above the low byte.
  function PortId(port: nat): nat { 128 * 0x100 + port + 1 }

  // What is above the low bits of an id does not count, and port i has number i + 1.
  lemma NumbersOfIds(high: nat, sw: nat, port: nat)
    requires sw < 0x1_0000 && port < 0xFF
    ensures SwitchNumber(high * 0x1_0000 + sw) == sw
    ensures PortNumber(high * 0x100 + port) == port && PortNumber(PortId(port)) == port + 1
  {
  }

  const MAX_PORTS: nat := 32
  const PATH_COST: nat := 1

  // Lexicographic order on (root, cost): the first pair is at least as good.
  predicate NoWorse(root1: nat, cost1: nat, root2: nat, cost2: nat) {
    root1 < root2 || (root1 == root2 && cost1 <= cost2)
  }

  // a has strictly higher priority than b.
  predicate Better(a: Vector, b: Vector) {
    || a.root < b.root
    || (a.root == b.root && a.cost < b.cost)
    || (a.root == b.root && a.cost == b.cost && SwitchNumber(a.switchId) < SwitchNumber(b.switchId))
    || (a.root == b.root && a.cost == b.cost && SwitchNumber(a.switchId) == SwitchNumber(b.switchId)
        && PortNumber(a.portId) < PortNumber(b.portId))
  }

  // The cascade of tests in the three C comparators: 1 if a wins, -1 if b wins, 0 for a tie.
  function Compare(a: Vector, b: Vector): (r: int)
    ensures r > 0 <==> Better(a, b)
    ensures r < 0 <==> Better(b, a)
  {
    if a.root != b.root then (if a.root < b.root then 1 else -1)
    else if a.cost != b.cost then (if a.cost < b.cost then 1 else -1)
    else if SwitchNumber(a.switchId) != SwitchNumber(b.switchId) then
      (if SwitchNumber(a.switchId) < SwitchNumber(b.switchId) then 1 else -1)
    else if PortNumber(a.portId) != PortNumber(b.portId) then
      (if PortNumber(a.portId) < PortNumber(b.portId) then 1 else -1)
    else 0
  }
}
