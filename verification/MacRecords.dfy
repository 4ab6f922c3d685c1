/** The learning switch's MAC table: what its operations do to the records of one bucket, and to
    the table read as a map. */
module MacRecords {
  import opened Wrappers

  const HASH_8BITS: nat := 256
  const MAC_PORT_TIMEOUT: int := 30

  type Mac = m: seq<bv8> | |m| == 6 witness [0, 0, 0, 0, 0, 0]

  // hash8 over the bytes from n down
  function XorFrom(mac: seq<bv8>, n: nat): bv8
    requires n <= |mac|
    decreases |mac| - n
  {
    if n == |mac| then 0 else XorFrom(mac, n + 1) ^ mac[n]
  }

  function Bucket(mac: Mac): (b: nat)
    ensures b < HASH_8BITS
  {
    XorFrom(mac, 0) as nat
  }

  // hash8
  method Hash8(mac: Mac) returns (result: bv8)
    ensures result as nat == Bucket(mac)
  {
    result := 0;
    var len: nat := |mac|;
    while len > 0
      invariant len <= |mac| && result == XorFrom(mac, len)
    {
      len := len - 1;
      result := result ^ mac[len];
    }
  }

  // Changing any one byte by x changes the hash by x.
  lemma {:induction false} FlipsThrough(mac: seq<bv8>, n: nat, i: nat, x: bv8)
    requires n <= i < |mac|
    ensures XorFrom(mac[i := mac[i] ^ x], n) == XorFrom(mac, n) ^ x
    decreases |mac| - n
  {
    var m := mac[i := mac[i] ^ x];
    if n == i {
      SameTail(mac, m, n + 1);
      XorSwapped(XorFrom(mac, n + 1), mac[n], x);
    } else {
      FlipsThrough(mac, n + 1, i, x);
      XorSwapped(XorFrom(mac, n + 1), x, mac[n]);
      XorSwapped(XorFrom(mac, n + 1), mac[n], x);
    }
  }

  lemma XorSwapped(a: bv8, b: bv8, c: bv8)
    ensures a ^ (b ^ c) == (a ^ b) ^ c && (a ^ b) ^ c == (a ^ c) ^ b
  {
  }

  lemma {:induction false} SameTail(a: seq<bv8>, b: seq<bv8>, n: nat)
    requires |a| == |b| && n <= |a| && forall k :: n <= k < |a| ==> a[k] == b[k]
    ensures XorFrom(a, n) == XorFrom(b, n)
    decreases |a| - n
  {
    if n < |a| { SameTail(a, b, n + 1); }
  }

  // The hash is 0 for the address of zeros, and changing any byte by x changes it by x: it is the
  // exclusive or of all six bytes.
  lemma BucketIsXor(mac: Mac, i: nat, x: bv8) returns (h: bv8)
    requires i < 6
    ensures Bucket([0, 0, 0, 0, 0, 0]) == 0
    ensures Bucket(mac) == h as nat && Bucket(mac[i := mac[i] ^ x]) == (h ^ x) as nat
  {
    ZerosHash([0, 0, 0, 0, 0, 0], 0);
    h := XorFrom(mac, 0);
    FlipsThrough(mac, 0, i, x);
  }

  lemma {:induction false} ZerosHash(mac: seq<bv8>, n: nat)
    requires n <= |mac| && forall k :: 0 <= k < |mac| ==> mac[k] == 0
    ensures XorFrom(mac, n) == 0
    decreases |mac| - n
  {
    if n < |mac| { ZerosHash(mac, n + 1); }
  }

  // So addresses that differ in one byte only are in different buckets.
  lemma OneByteApart(mac: Mac, i: nat, x: bv8)
    requires i < 6 && x != 0
    ensures Bucket(mac[i := mac[i] ^ x]) != Bucket(mac)
  {
    var h := BucketIsXor(mac, i, x);
    XorMoves(h, x);
  }

  lemma XorMoves(a: bv8, x: bv8)
    requires x != 0
    ensures a ^ x != a
  {
  }

  // An entry's fields, without its link.
  datatype Record = Record(mac: Mac, iface: nat, visited: int)

  type Bucketful = seq<Record>

  // Where the walk along a chain finds the address, if anywhere.
  function IndexOf(l: Bucketful, mac: Mac): (i: nat)
    ensures i <= |l|
    ensures i < |l| ==> l[i].mac == mac
    ensures forall k :: 0 <= k < i ==> l[k].mac != mac
  {
    if l == [] || l[0].mac == mac then 0 else 1 + IndexOf(l[1..], mac)
  }

  // A found entry is marked as visited now.
  function Touch(l: Bucketful, mac: Mac, now: int): Bucketful {
    var i := IndexOf(l, mac);
    if i < |l| then l[i := l[i].(visited := now)] else l
  }

  function LookUp(l: Bucketful, mac: Mac): Option<nat> {
    var i := IndexOf(l, mac);
    if i < |l| then Some(l[i].iface) else None
  }

  // A known address is only touched, its interface stays; an unknown one goes to the end.
  function Insert(l: Bucketful, mac: Mac, iface: nat, now: int): Bucketful {
    if IndexOf(l, mac) < |l| then Touch(l, mac, now) else l + [Record(mac, iface, now)]
  }

  predicate Young(r: Record, now: int) { now - r.visited < MAC_PORT_TIMEOUT }

  // What the clock shows when the sweep looks at the entry for an address.
  type Clock = Mac -> int

  // The records younger than the timeout, in order.
  function Sweep(l: Bucketful, time: Clock): Bucketful {
    if l == [] then []
    else if Young(l[0], time(l[0].mac)) then [l[0]] + Sweep(l[1..], time)
    else Sweep(l[1..], time)
  }

  lemma SweepFirst(r: Record, rest: Bucketful, time: Clock)
    ensures Sweep([r] + rest, time) == if Young(r, time(r.mac)) then [r] + Sweep(rest, time) else Sweep(rest, time)
  {
    assert ([r] + rest)[1..] == rest;
  }

  // ---------------------------------------------------------------- as a map

  ghost predicate Distinct(l: Bucketful) {
    forall i, j :: 0 <= i < j < |l| ==> l[i].mac != l[j].mac
  }

  ghost predicate Homed(l: Bucketful, b: nat) {
    forall i :: 0 <= i < |l| ==> Bucket(l[i].mac) == b
  }

  // One record per address, each in its own bucket.
  ghost predicate ProperTable(table: seq<Bucketful>) {
    |table| == HASH_8BITS && forall b {:trigger table[b]} :: 0 <= b < |table| ==> Homed(table[b], b) && Distinct(table[b])
  }

  // What a bucket knows about an address.
  function KnownIn(l: Bucketful, mac: Mac): Option<(nat, int)> {
    var i := IndexOf(l, mac);
    if i < |l| then Some((l[i].iface, l[i].visited)) else None
  }

  // What the table knows about an address.
  function Known(table: seq<Bucketful>, mac: Mac): Option<(nat, int)>
    requires |table| == HASH_8BITS
  {
    KnownIn(table[Bucket(mac)], mac)
  }

  lemma {:induction false} SameIndex(l: Bucketful, t: Bucketful, mac: Mac)
    requires |l| == |t| && forall k :: 0 <= k < |l| ==> t[k].mac == l[k].mac
    ensures IndexOf(t, mac) == IndexOf(l, mac)
  {
    if l != [] { SameIndex(l[1..], t[1..], mac); }
  }

  lemma TouchInBucket(l: Bucketful, mac: Mac, now: int, other: Mac, b: nat)
    requires Distinct(l) && Homed(l, b)
    ensures var t := Touch(l, mac, now);
            && Distinct(t) && Homed(t, b)
            && KnownIn(t, other) ==
                 if other == mac && KnownIn(l, mac).Some? then Some((KnownIn(l, mac).value.0, now)) else KnownIn(l, other)
  {
    var t := Touch(l, mac, now);
    assert |t| == |l| && forall k :: 0 <= k < |l| ==> t[k].mac == l[k].mac;
    SameIndex(l, t, other);
  }

  lemma {:induction false} IndexInLonger(l: Bucketful, r: Record, mac: Mac)
    ensures IndexOf(l + [r], mac) ==
              if IndexOf(l, mac) < |l| then IndexOf(l, mac) else if r.mac == mac then |l| else |l| + 1
  {
    if l != [] {
      assert (l + [r])[1..] == l[1..] + [r];
      IndexInLonger(l[1..], r, mac);
    }
  }

  // Inserting moves nobody: a known address stays where it is, an unknown one comes last.
  lemma InsertKeepsPlaces(l: Bucketful, mac: Mac, iface: nat, now: int, other: Mac)
    requires IndexOf(l, other) < |l| || other == mac
    ensures IndexOf(Insert(l, mac, iface, now), other) == IndexOf(l, other)
  {
    if IndexOf(l, mac) < |l| {
      SameIndex(l, Touch(l, mac, now), other);
    } else {
      IndexInLonger(l, Record(mac, iface, now), other);
    }
  }

  lemma InsertInBucket(l: Bucketful, mac: Mac, iface: nat, now: int, other: Mac, b: nat)
    requires Distinct(l) && Homed(l, b) && Bucket(mac) == b
    ensures var t := Insert(l, mac, iface, now);
            && Distinct(t) && Homed(t, b)
            && KnownIn(t, other) ==
                 if other != mac then KnownIn(l, other)
                 else if KnownIn(l, mac).Some? then Some((KnownIn(l, mac).value.0, now))
                 else Some((iface, now))
  {
    if IndexOf(l, mac) < |l| {
      TouchInBucket(l, mac, now, other, b);
    } else {
      IndexInLonger(l, Record(mac, iface, now), other);
    }
  }

  lemma {:induction false} SweepMembers(l: Bucketful, time: Clock)
    requires Distinct(l)
    ensures Distinct(Sweep(l, time)) && forall i :: 0 <= i < |Sweep(l, time)| ==> Sweep(l, time)[i] in l
    decreases |l|
  {
    if l != [] {
      assert l == [l[0]] + l[1..];
      SweepMembers(l[1..], time);
    }
  }

  lemma {:induction false} IndexAbsent(l: Bucketful, mac: Mac)
    requires forall i :: 0 <= i < |l| ==> l[i].mac != mac
    ensures IndexOf(l, mac) == |l|
  {
    if l != [] { IndexAbsent(l[1..], mac); }
  }

  lemma {:induction false} SweepKnown(l: Bucketful, time: Clock, mac: Mac)
    requires Distinct(l)
    ensures KnownIn(Sweep(l, time), mac) ==
              match KnownIn(l, mac)
              case None => None
              case Some(x) => if time(mac) - x.1 < MAC_PORT_TIMEOUT then Some(x) else None
    decreases |l|
  {
    if l != [] {
      var rest := l[1..];
      assert l == [l[0]] + rest;
      SweepKnown(rest, time, mac);
      if l[0].mac == mac {
        IndexAbsent(rest, mac);
        SweepMembers(rest, time);
        IndexAbsent(Sweep(rest, time), mac);
      } else {
        KnownInRest(l[0], rest, mac);
      }
      if Young(l[0], time(l[0].mac)) {
        KnownInRest(l[0], Sweep(rest, time), mac);
      }
    }
  }

  lemma KnownInRest(r: Record, rest: Bucketful, mac: Mac)
    ensures KnownIn([r] + rest, mac) == if r.mac == mac then Some((r.iface, r.visited)) else KnownIn(rest, mac)
  {
    assert ([r] + rest)[1..] == rest;
  }

  // ---------------------------------------------------------------- operations on the table

  // Looking an address up answers what is known and renews only that address.
  lemma LookUpAsMap(table: seq<Bucketful>, mac: Mac, now: int, other: Mac)
    requires ProperTable(table)
    ensures var b := Bucket(mac);
            var after := table[b := Touch(table[b], mac, now)];
            && ProperTable(after)
            && (LookUp(table[b], mac) == match Known(table, mac) case None => None case Some(x) => Some(x.0))
            && Known(after, other) ==
                 if other == mac && Known(table, mac).Some? then Some((Known(table, mac).value.0, now))
                 else Known(table, other)
  {
    TouchInBucket(table[Bucket(mac)], mac, now, other, Bucket(mac));
  }

  // Inserting learns an unknown address and renews a known one without changing its interface.
  lemma InsertAsMap(table: seq<Bucketful>, mac: Mac, iface: nat, now: int, other: Mac)
    requires ProperTable(table)
    ensures var b := Bucket(mac);
            var after := table[b := Insert(table[b], mac, iface, now)];
            && ProperTable(after)
            && Known(after, other) ==
                 if other != mac then Known(table, other)
                 else if Known(table, mac).Some? then Some((Known(table, mac).value.0, now))
                 else Some((iface, now))
  {
    InsertInBucket(table[Bucket(mac)], mac, iface, now, other, Bucket(mac));
  }

  function SweepAll(table: seq<Bucketful>, time: Clock): (after: seq<Bucketful>)
    ensures |after| == |table|
  {
    seq(|table|, b requires 0 <= b < |table| => Sweep(table[b], time))
  }

  // Sweeping forgets exactly the addresses not visited within the timeout.
  lemma SweepAsMap(table: seq<Bucketful>, time: Clock, mac: Mac)
    requires ProperTable(table)
    ensures ProperTable(SweepAll(table, time))
    ensures Known(SweepAll(table, time), mac) ==
              match Known(table, mac)
              case None => None
              case Some(x) => if time(mac) - x.1 < MAC_PORT_TIMEOUT then Some(x) else None
  {
    var after := SweepAll(table, time);
    forall b | 0 <= b < |after|
      ensures Homed(after[b], b) && Distinct(after[b])
    {
      SweepMembers(table[b], time);
    }
    SweepKnown(table[Bucket(mac)], time, mac);
  }

  // ---------------------------------------------------------------- runs

  datatype Op = LookupAt(mac: Mac, now: int) | InsertAt(mac: Mac, iface: nat, now: int) | SweepAt(time: Clock)

  function TableStep(table: seq<Bucketful>, op: Op): seq<Bucketful>
    requires |table| == HASH_8BITS
    ensures |TableStep(table, op)| == HASH_8BITS
  {
    match op
    case LookupAt(mac, now) => table[Bucket(mac) := Touch(table[Bucket(mac)], mac, now)]
    case InsertAt(mac, iface, now) => table[Bucket(mac) := Insert(table[Bucket(mac)], mac, iface, now)]
    case SweepAt(time) => SweepAll(table, time)
  }

  // The interface and the last visit of every address known.
  type Learned = map<Mac, (nat, int)>

  function MapStep(m: Learned, op: Op): Learned {
    match op
    case LookupAt(mac, now) => if mac in m then m[mac := (m[mac].0, now)] else m
    case InsertAt(mac, iface, now) => if mac in m then m[mac := (m[mac].0, now)] else m[mac := (iface, now)]
    case SweepAt(time) => map mac | mac in m && time(mac) - m[mac].1 < MAC_PORT_TIMEOUT :: m[mac]
  }

  function TableRun(ops: seq<Op>): seq<Bucketful>
    ensures |TableRun(ops)| == HASH_8BITS
  {
    if ops == [] then seq(HASH_8BITS, _ => []) else TableStep(TableRun(ops[..|ops| - 1]), ops[|ops| - 1])
  }

  function MapRun(ops: seq<Op>): Learned {
    if ops == [] then map[] else MapStep(MapRun(ops[..|ops| - 1]), ops[|ops| - 1])
  }

  function Get(m: Learned, mac: Mac): Option<(nat, int)> {
    if mac in m then Some(m[mac]) else None
  }

  ghost predicate Refines(table: seq<Bucketful>, m: Learned) {
    ProperTable(table) && forall mac: Mac {:trigger Known(table, mac)} {:trigger Get(m, mac)} :: Known(table, mac) == Get(m, mac)
  }

  lemma StepRefines(table: seq<Bucketful>, m: Learned, op: Op)
    requires Refines(table, m)
    ensures Refines(TableStep(table, op), MapStep(m, op))
  {
    var after, n := TableStep(table, op), MapStep(m, op);
    StepProper(table, op);
    forall other: Mac
      ensures Known(after, other) == Get(n, other)
    {
      assert Known(table, other) == Get(m, other);
      match op
      case LookupAt(mac, now) =>
        assert Known(table, mac) == Get(m, mac);
        LookUpAsMap(table, mac, now, other);
      case InsertAt(mac, iface, now) =>
        assert Known(table, mac) == Get(m, mac);
        InsertAsMap(table, mac, iface, now, other);
      case SweepAt(time) => SweepAsMap(table, time, other);
    }
  }

  lemma StepProper(table: seq<Bucketful>, op: Op)
    requires ProperTable(table)
    ensures ProperTable(TableStep(table, op))
  {
    match op
    case LookupAt(mac, now) => LookUpAsMap(table, mac, now, mac);
    case InsertAt(mac, iface, now) => InsertAsMap(table, mac, iface, now, mac);
    case SweepAt(time) => SweepAsMap(table, time, [0, 0, 0, 0, 0, 0]);
  }

  // After any lookups, insertions and sweeps the chains are proper and stand for the map that
  // the same operations give; the next lookup answers from that map.
  lemma {:induction false} RunRefinesMap(ops: seq<Op>, mac: Mac)
    ensures Refines(TableRun(ops), MapRun(ops))
    ensures LookUp(TableRun(ops)[Bucket(mac)], mac) ==
              match Get(MapRun(ops), mac) case None => None case Some(x) => Some(x.0)
    decreases |ops|
  {
    if ops != [] {
      RunRefinesMap(ops[..|ops| - 1], mac);
      StepRefines(TableRun(ops[..|ops| - 1]), MapRun(ops[..|ops| - 1]), ops[|ops| - 1]);
    }
    assert Known(TableRun(ops), mac) == Get(MapRun(ops), mac);
  }
}
