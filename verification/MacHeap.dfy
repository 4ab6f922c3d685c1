/** The MAC table on the heap: chains of linked entries, changed in place. */
module MacHeap {
  import opened Wrappers
  import opened MacRecords

  // mac_port_entry_t
  class Entry {
    const mac: Mac
    const iface: nat
    var visited: int
    var next: Entry?

    constructor (mac: Mac, iface: nat, visited: int)
      ensures this.mac == mac && this.iface == iface && this.visited == visited && next == null
    {
      this.mac, this.iface, this.visited, next := mac, iface, visited, null;
    }
  }

  ghost function Nth(nodes: seq<Entry>, k: nat): Entry? {
    if k < |nodes| then nodes[k] else null
  }

  ghost predicate NoRepeats(nodes: seq<Entry>) {
    forall j, k :: 0 <= j < k < |nodes| ==> nodes[j] != nodes[k]
  }

  // Following next from the first of nodes passes exactly nodes, in order, and ends at NULL.
  ghost predicate NextAreLinked(nodes: seq<Entry>)
    reads nodes`next
  {
    forall k {:trigger nodes[k].next} :: 0 <= k < |nodes| ==> nodes[k].next == Nth(nodes, k + 1)
  }

  // The entries hold these records.
  ghost predicate Holds(nodes: seq<Entry>, records: Bucketful)
    reads nodes`visited
  {
    && |records| == |nodes|
    && forall k {:trigger records[k]} {:trigger nodes[k]} :: 0 <= k < |nodes| ==>
         records[k] == Record(nodes[k].mac, nodes[k].iface, nodes[k].visited)
  }

  // A bucket whose first i records are already swept.
  ghost function SweptFrom(l: Bucketful, i: nat, time: Clock): Bucketful
    requires i <= |l|
  {
    l[..i] + Sweep(l[i..], time)
  }

  // Skipping a young record and taking out an old one leave the same final result.
  lemma SweepStep(l: Bucketful, i: nat, time: Clock)
    requires i < |l|
    ensures Young(l[i], time(l[i].mac)) ==> SweptFrom(l, i + 1, time) == SweptFrom(l, i, time)
    ensures !Young(l[i], time(l[i].mac)) ==> SweptFrom(l[..i] + l[i + 1..], i, time) == SweptFrom(l, i, time)
  {
    assert l[i..] == [l[i]] + l[i + 1..];
    SweepFirst(l[i], l[i + 1..], time);
    if Young(l[i], time(l[i].mac)) {
      assert l[..i + 1] == l[..i] + [l[i]];
    } else {
      var m := l[..i] + l[i + 1..];
      assert m[..i] == l[..i] && m[i..] == l[i + 1..];
    }
  }

  // One slot of hash_table with the entries linked from it.
  class Chain {
    var head: Entry?
    ghost var nodes: seq<Entry>
    ghost var records: Bucketful
    ghost var repr: set<Entry>

    ghost predicate Valid()
      reads this, repr
    {
      && (forall k {:trigger nodes[k]} :: 0 <= k < |nodes| ==> nodes[k] in repr)
      && head == Nth(nodes, 0) && NoRepeats(nodes) && NextAreLinked(nodes) && Holds(nodes, records)
    }

    constructor ()
      ensures Valid() && records == [] && repr == {}
    {
      head, nodes, records, repr := null, [], [], {};
    }

    // Walking the chain to the entry for mac or past its end; tail is the last entry passed.
    method Find(mac: Mac) returns (entry: Entry?, tail: Entry?, ghost i: nat)
      requires Valid()
      ensures i == IndexOf(records, mac) && entry == Nth(nodes, IndexOf(records, mac))
      ensures tail == if IndexOf(records, mac) == 0 then null else nodes[IndexOf(records, mac) - 1]
    {
      entry, tail, i := head, null, 0;
      assert records[0..] == records;
      while entry != null && entry.mac != mac
        invariant i <= |records| && entry == Nth(nodes, i)
        invariant tail == if i == 0 then null else nodes[i - 1]
        invariant IndexOf(records, mac) == i + IndexOf(records[i..], mac)
        decreases |records| - i
      {
        assert records[i..][1..] == records[i + 1..] && records[i..][0] == records[i];
        tail := entry;
        entry := entry.next;
        i := i + 1;
      }
      if entry != null { assert records[i..][0] == records[i]; }
    }

    // The found entry is marked as visited now.
    method Visit(entry: Entry, ghost i: nat, now: int)
      requires Valid() && i < |nodes| && entry == nodes[i]
      modifies this`records, repr`visited
      ensures Valid() && records == old(records)[i := old(records)[i].(visited := now)]
    {
      entry.visited := now;
      records := records[i := records[i].(visited := now)];
    }

    // lookup_port on its chain
    method Lookup(mac: Mac, now: int) returns (iface: Option<nat>)
      requires Valid()
      modifies this`records, repr`visited
      ensures Valid() && iface == LookUp(old(records), mac) && records == Touch(old(records), mac, now)
    {
      var entry, tail, i := Find(mac);
      if entry == null {
        return None;
      }
      Visit(entry, i, now);
      iface := Some(entry.iface);
    }

    // A new entry goes behind the last one.
    method Append(tail: Entry?, entry: Entry)
      requires Valid() && entry !in repr && entry.next == null
      requires tail == if nodes == [] then null else nodes[|nodes| - 1]
      modifies this, repr`next
      ensures Valid() && nodes == old(nodes) + [entry] && repr == old(repr) + {entry}
      ensures records == old(records) + [Record(entry.mac, entry.iface, entry.visited)]
    {
      if tail == null {
        head := entry;
      } else {
        tail.next := entry;
      }
      nodes := nodes + [entry];
      repr := repr + {entry};
      records := records + [Record(entry.mac, entry.iface, entry.visited)];
    }

    // insert_mac_port on its chain
    method InsertPort(mac: Mac, iface: nat, now: int)
      requires Valid()
      modifies this, repr
      ensures Valid() && records == Insert(old(records), mac, iface, now)
      ensures fresh(repr - old(repr))
    {
      var entry, tail, i := Find(mac);
      if entry != null {
        Visit(entry, i, now);
      } else {
        entry := new Entry(mac, iface, now);
        Append(tail, entry);
      }
    }

    // The i-th entry is taken out of the chain; tail is the entry before it, or the first one.
    method Unlink(tail: Entry?, entry: Entry, ghost i: nat) returns (last: Entry?)
      requires Valid() && i < |nodes| && entry == nodes[i]
      requires tail == if i == 0 then head else nodes[i - 1]
      modifies this, repr`next
      ensures Valid() && nodes == old(nodes)[..i] + old(nodes)[i + 1..] && repr == old(repr)
      ensures records == old(records)[..i] + old(records)[i + 1..]
      ensures last == if i == 0 then head else tail
      ensures entry.next == old(entry.next)
    {
      last := tail;
      if head == entry {
        head := entry.next;
        last := head;
      } else {
        tail.next := entry.next;
      }
      nodes := nodes[..i] + nodes[i + 1..];
      records := records[..i] + records[i + 1..];
    }

    // sweep_aged_mac_port_entry on one chain
    method SweepAged(time: Clock)
      requires Valid()
      modifies this, repr`next
      ensures Valid() && records == Sweep(old(records), time) && repr == old(repr)
    {
      var tail, entry := head, head;
      ghost var i := 0;
      assert records[0..] == records;
      while entry != null
        invariant Valid() && i <= |nodes| && entry == Nth(nodes, i) && repr == old(repr)
        invariant tail == if i == 0 then head else nodes[i - 1]
        invariant SweptFrom(records, i, time) == Sweep(old(records), time)
        decreases |nodes| - i
      {
        SweepStep(records, i, time);
        if time(entry.mac) - entry.visited >= MAC_PORT_TIMEOUT {
          var next := entry.next;
          tail := Unlink(tail, entry, i);
          entry := next;
        } else {
          tail := entry;
          entry := entry.next;
          i := i + 1;
        }
      }
      assert records[..i] == records && records[i..] == [];
    }
  }

  // mac_port_map_t: a chain for every value of hash8
  class Table {
    const slots: seq<Chain>
    ghost var entries: set<Entry>

    // Chains are different objects without common entries.
    ghost predicate Separate()
      reads this, slots
    {
      && |slots| == HASH_8BITS
      && (forall b {:trigger slots[b]} :: 0 <= b < |slots| ==> slots[b].repr <= entries)
      && (forall b, c :: 0 <= b < c < |slots| ==> slots[b] != slots[c] && slots[b].repr !! slots[c].repr)
    }

    ghost predicate ChainsValid()
      reads this, slots, entries
    {
      Separate() && forall b {:trigger slots[b].Valid()} :: 0 <= b < |slots| ==> slots[b].Valid()
    }

    ghost predicate Valid()
      reads this, slots, entries
    {
      ChainsValid() && ProperTable(View())
    }

    ghost function View(): (t: seq<Bucketful>)
      reads slots
      ensures |t| == |slots|
      ensures forall b {:trigger t[b]} {:trigger slots[b]} :: 0 <= b < |t| ==> t[b] == slots[b].records
    {
      seq(|slots|, b requires 0 <= b < |slots| reads slots => slots[b].records)
    }

    // init_mac_hash_table: 256 empty chains
    constructor ()
      ensures Valid() && fresh(slots) && entries == {}
      ensures View() == TableRun([])
    {
      var chains: seq<Chain> := [];
      while |chains| < HASH_8BITS
        invariant |chains| <= HASH_8BITS && fresh(chains)
        invariant forall b {:trigger chains[b]} :: 0 <= b < |chains| ==> chains[b].Valid() && chains[b].records == [] && chains[b].repr == {}
        invariant forall b, c :: 0 <= b < c < |chains| ==> chains[b] != chains[c]
      {
        var chain := new Chain();
        chains := chains + [chain];
      }
      slots, entries := chains, {};
    }

    // The chain an address hashes to.
    ghost function ChainOf(mac: Mac): Chain
      requires |slots| == HASH_8BITS
    {
      slots[Bucket(mac)]
    }

    // The chain is found by the hash.
    method FindChain(mac: Mac) returns (chain: Chain)
      requires |slots| == HASH_8BITS
      ensures chain == ChainOf(mac)
    {
      var b := Hash8(mac);
      chain := slots[b as nat];
    }

    // Working on one chain leaves the other chains alone.
    method LookupIn(mac: Mac, now: int) returns (iface: Option<nat>)
      requires ChainsValid()
      modifies ChainOf(mac)`records, ChainOf(mac).repr`visited
      ensures ChainsValid() && iface == LookUp(old(ChainOf(mac).records), mac)
      ensures ChainOf(mac).records == Touch(old(ChainOf(mac).records), mac, now)
    {
      var chain := FindChain(mac);
      iface := chain.Lookup(mac, now);
    }

    // lookup_port
    method LookupPort(mac: Mac, now: int) returns (iface: Option<nat>)
      requires Valid()
      modifies ChainOf(mac)`records, ChainOf(mac).repr`visited
      ensures Valid() && iface == LookUp(old(View())[Bucket(mac)], mac)
      ensures View() == TableStep(old(View()), LookupAt(mac, now))
    {
      ghost var before := View();
      iface := LookupIn(mac, now);
      assert View() == TableStep(before, LookupAt(mac, now));
      StepProper(before, LookupAt(mac, now));
    }

    method InsertIn(mac: Mac, iface: nat, now: int)
      requires ChainsValid()
      modifies this`entries, ChainOf(mac), ChainOf(mac).repr
      ensures ChainsValid() && ChainOf(mac).records == Insert(old(ChainOf(mac).records), mac, iface, now)
    {
      var chain := FindChain(mac);
      ghost var was := chain.repr;
      chain.InsertPort(mac, iface, now);
      forall c | 0 <= c < |slots| && c != Bucket(mac)
        ensures slots[c].Valid() && slots[c].repr !! chain.repr && slots[c].repr <= entries
      {
        assert slots[c] != chain && slots[c].repr !! was;
      }
      entries := entries + chain.repr;
    }

    // insert_mac_port
    method InsertMacPort(mac: Mac, iface: nat, now: int)
      requires Valid()
      modifies this`entries, ChainOf(mac), ChainOf(mac).repr
      ensures Valid()
      ensures View() == TableStep(old(View()), InsertAt(mac, iface, now))
    {
      ghost var before := View();
      InsertIn(mac, iface, now);
      assert View() == TableStep(before, InsertAt(mac, iface, now));
      StepProper(before, InsertAt(mac, iface, now));
    }

    method SweepIn(i: nat, time: Clock)
      requires ChainsValid() && i < |slots|
      modifies slots[i], slots[i].repr`next
      ensures ChainsValid() && slots[i].records == Sweep(old(slots[i].records), time)
    {
      slots[i].SweepAged(time);
    }

    // One pass of sweep_aged_mac_port_entry
    method SweepEntries(time: Clock)
      requires Valid()
      modifies slots, entries`next
      ensures Valid() && View() == TableStep(old(View()), SweepAt(time))
    {
      ghost var before := View();
      for i := 0 to HASH_8BITS
        invariant ChainsValid()
        invariant forall b {:trigger slots[b]} :: 0 <= b < |slots| ==>
                    slots[b].records == if b < i then Sweep(before[b], time) else before[b]
      {
        SweepIn(i, time);
      }
      assert View() == TableStep(before, SweepAt(time));
      StepProper(before, SweepAt(time));
    }
  }
}
