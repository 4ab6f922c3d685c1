/** A second run of router_update on the list the first one left. */
module MospfRerun {
  import opened Wrappers
  import opened MospfGraph
  import opened MospfPaths
  import opened MospfTable

  // Entries added one after the other, each only if its network number is new.
  function AddEach(t: Table, es: seq<RtEntry>): Table {
    if es == [] then t else AddIfNew(AddEach(t, es[..|es| - 1]), es[|es| - 1])
  }

  function RouterAdverts(db: Db, ns: seq<Node>, u: nat, n: nat): (es: seq<RtEntry>)
    requires |ns| == |db| && u < |ns| && n <= |db[u].lsas| && ns[u].iface.Some?
    ensures |es| == n
  {
    seq(n, j requires 0 <= j < n => EntryFor(db[u].lsas[j], ns[u]))
  }

  // The advertisements of the first n settled routers, in order.
  function AllAdverts(db: Db, ns: seq<Node>, order: seq<nat>, n: nat): seq<RtEntry>
    requires Routable(db, ns, order) && n <= |order|
  {
    if n == 0 then []
    else AllAdverts(db, ns, order, n - 1) + RouterAdverts(db, ns, order[n - 1], |db[order[n - 1]].lsas|)
  }

  lemma {:induction false} AddEachAppend(t: Table, es: seq<RtEntry>, more: seq<RtEntry>)
    ensures AddEach(t, es + more) == AddEach(AddEach(t, es), more)
    decreases |more|
  {
    if more == [] {
      assert es + more == es;
    } else {
      var n := |more| - 1;
      assert (es + more)[..|es| + n] == es + more[..n];
      AddEachAppend(t, es, more[..n]);
    }
  }

  lemma {:induction false} AddAdvertsEach(db: Db, ns: seq<Node>, t: Table, u: nat, n: nat)
    requires |ns| == |db| && u < |ns| && n <= |db[u].lsas| && ns[u].iface.Some?
    ensures AddAdverts(db, ns, t, u, n) == AddEach(t, RouterAdverts(db, ns, u, n))
    decreases n
  {
    if n > 0 {
      AddAdvertsEach(db, ns, t, u, n - 1);
      assert RouterAdverts(db, ns, u, n)[..n - 1] == RouterAdverts(db, ns, u, n - 1);
    }
  }

  lemma {:induction false} AddAllEach(db: Db, ns: seq<Node>, order: seq<nat>, t: Table, n: nat)
    requires Routable(db, ns, order) && n <= |order|
    ensures AddAll(db, ns, order, t, n) == AddEach(t, AllAdverts(db, ns, order, n))
    decreases n
  {
    if n > 0 {
      var u := order[n - 1];
      AddAllEach(db, ns, order, t, n - 1);
      AddAdvertsEach(db, ns, AddAll(db, ns, order, t, n - 1), u, |db[u].lsas|);
      AddEachAppend(t, AllAdverts(db, ns, order, n - 1), RouterAdverts(db, ns, u, |db[u].lsas|));
    }
  }

  // The entries with a gateway, in order.
  function Dynamics(t: Table): (s: Table)
    ensures forall k :: 0 <= k < |s| ==> s[k].gw != 0 && s[k] in t
    ensures forall e :: e in t && e.gw != 0 ==> e in s
  {
    if t == [] then []
    else if t[|t| - 1].gw != 0 then Dynamics(t[..|t| - 1]) + [t[|t| - 1]]
    else Dynamics(t[..|t| - 1])
  }

  lemma DynamicsNext(done: Table, e: RtEntry)
    ensures Dynamics(done + [e]) == if e.gw != 0 then Dynamics(done) + [e] else Dynamics(done)
  {
    assert (done + [e])[..|done|] == done;
  }

  // The added entries a have network numbers all their own.
  ghost predicate NewNets(s: Table, a: Table) {
    && (forall i, j :: 0 <= i < |s| && 0 <= j < |a| ==> Net(s[i]) != Net(a[j]))
    && (forall i, j :: 0 <= i < j < |a| ==> Net(a[i]) != Net(a[j]))
  }

  lemma HasNetJoin(s: Table, a: Table, net: bv32)
    ensures HasNet(s + a, net) <==> HasNet(s, net) || HasNet(a, net)
  {
    if HasNet(s, net) {
      var k :| 0 <= k < |s| && Net(s[k]) == net;
      assert Net((s + a)[k]) == net;
    }
    if HasNet(a, net) {
      var k :| 0 <= k < |a| && Net(a[k]) == net;
      assert Net((s + a)[|s| + k]) == net;
    }
  }

  // What has its network number among the first added entries is found among the kept ones or those
  // with a gateway.
  lemma FoundAgain(s: Table, a: Table, j: nat, net: bv32)
    requires j <= |a| && HasNet(s + a[..j], net)
    ensures HasNet(s + Statics(a) + Dynamics(a[..j]), net)
  {
    HasNetJoin(s, a[..j], net);
    HasNetJoin(s + Statics(a), Dynamics(a[..j]), net);
    HasNetJoin(s, Statics(a), net);
    if HasNet(a[..j], net) {
      var k :| 0 <= k < j && Net(a[..j][k]) == net;
      KeptOrDynamic(a, j, k);
    }
  }

  // The next added entry is found there exactly if it has no gateway itself.
  lemma FoundNext(s: Table, a: Table, j: nat)
    requires NewNets(s, a) && j < |a|
    ensures HasNet(s + Statics(a) + Dynamics(a[..j]), Net(a[j])) <==> a[j].gw == 0
  {
    HasNetJoin(s + Statics(a), Dynamics(a[..j]), Net(a[j]));
    HasNetJoin(s, Statics(a), Net(a[j]));
    NextIsFound(s, a, j);
  }

  lemma KeptOrDynamic(a: Table, j: nat, k: nat)
    requires k < j <= |a|
    ensures HasNet(Statics(a), Net(a[k])) || HasNet(Dynamics(a[..j]), Net(a[k]))
  {
    if a[k].gw == 0 {
      assert a[k] in Statics(a);
    } else {
      assert a[..j][k] in Dynamics(a[..j]);
    }
  }

  lemma NextIsFound(s: Table, a: Table, j: nat)
    requires NewNets(s, a) && j < |a|
    ensures !HasNet(s, Net(a[j])) && !HasNet(Dynamics(a[..j]), Net(a[j]))
    ensures HasNet(Statics(a), Net(a[j])) <==> a[j].gw == 0
  {
    forall k | 0 <= k < |Dynamics(a[..j])|
      ensures Net(Dynamics(a[..j])[k]) != Net(a[j])
    {
      var i :| 0 <= i < j && a[..j][i] == Dynamics(a[..j])[k];
    }
    if a[j].gw == 0 {
      assert a[j] in Statics(a);
    } else {
      forall k | 0 <= k < |Statics(a)|
        ensures Net(Statics(a)[k]) != Net(a[j])
      {
        var i :| 0 <= i < |a| && a[i] == Statics(a)[k];
      }
    }
  }

  lemma {:induction false} AddEachGrows(t: Table, es: seq<RtEntry>, k: nat)
    requires k <= |es|
    ensures AddEach(t, es[..k]) <= AddEach(t, es)
    decreases |es|
  {
    if k < |es| {
      AddEachGrows(t, es[..|es| - 1], k);
      assert es[..|es| - 1][..k] == es[..k];
    } else {
      assert es[..k] == es;
    }
  }

  // An entry the first pass appends is the next added one.
  lemma NextIsAdded(s: Table, a: Table, e: RtEntry, j: nat)
    requires j <= |a| && s + a[..j] + [e] <= s + a
    ensures j < |a| && a[j] == e && s + a[..j] + [e] == s + a[..j + 1]
  {
    var t := s + a[..j] + [e];
    assert |t| == |s| + j + 1 && t[|s| + j] == e && (s + a)[|s| + j] == a[j];
    assert a[..j + 1] == a[..j] + [a[j]];
  }

  // One entry of the second pass that the first pass does not append.
  lemma StepFound(s: Table, a: Table, e: RtEntry, j: nat)
    requires NewNets(s, a) && j <= |a| && HasNet(s + a[..j], Net(e))
    ensures AddIfNew(s + a[..j], e) == s + a[..j]
    ensures AddIfNew(s + Statics(a) + Dynamics(a[..j]), e) == s + Statics(a) + Dynamics(a[..j])
  {
    FoundAgain(s, a, j, Net(e));
  }

  lemma AddsUnlessStatic(x: Table, d: Table, e: RtEntry, next: Table)
    requires HasNet(x + d, Net(e)) <==> e.gw == 0
    requires next == if e.gw != 0 then d + [e] else d
    ensures AddIfNew(x + d, e) == x + next
  {
    RegroupTail(x, d, e);
  }

  lemma DynamicsAt(a: Table, j: nat)
    requires j < |a|
    ensures Dynamics(a[..j + 1]) == if a[j].gw != 0 then Dynamics(a[..j]) + [a[j]] else Dynamics(a[..j])
  {
    assert a[..j + 1] == a[..j] + [a[j]];
    DynamicsNext(a[..j], a[j]);
  }

  // One that it appends.
  lemma StepAdded(s: Table, a: Table, j: nat)
    requires NewNets(s, a) && j < |a|
    ensures AddIfNew(s + Statics(a) + Dynamics(a[..j]), a[j]) == s + Statics(a) + Dynamics(a[..j + 1])
  {
    FoundNext(s, a, j);
    DynamicsAt(a, j);
    AddsUnlessStatic(s + Statics(a), Dynamics(a[..j]), a[j], Dynamics(a[..j + 1]));
  }

  lemma RegroupTail(x: Table, y: Table, e: RtEntry)
    ensures x + (y + [e]) == x + y + [e]
  {
  }

  // Starting from the kept entries and the added ones without gateway, the same advertisements add
  // just the ones with gateway, in order.
  lemma {:induction false} SecondPass(s: Table, es: seq<RtEntry>, a: Table, k: nat) returns (j: nat)
    requires k <= |es| && AddEach(s, es) == s + a && NewNets(s, a)
    ensures j <= |a| && AddEach(s, es[..k]) == s + a[..j]
    ensures AddEach(s + Statics(a), es[..k]) == s + Statics(a) + Dynamics(a[..j])
    decreases k
  {
    if k == 0 {
      j := 0;
      assert s + Statics(a) + [] == s + Statics(a) && s + a[..0] == s;
    } else {
      var before := SecondPass(s, es, a, k - 1);
      AddEachGrows(s, es, k);
      assert es[..k][..k - 1] == es[..k - 1];
      var e := es[k - 1];
      if HasNet(s + a[..before], Net(e)) {
        StepFound(s, a, e, before);
        j := before;
      } else {
        NextIsAdded(s, a, e, before);
        StepAdded(s, a, before);
        j := before + 1;
      }
    }
  }

  lemma {:induction false} StaticsKept(s: Table, a: Table)
    requires forall k :: 0 <= k < |s| ==> s[k].gw == 0
    ensures Statics(s + a) == s + Statics(a)
    decreases |a|
  {
    if a == [] {
      assert s + a == s + [] == s;
      StaticsOfConcat(s, []);
    } else {
      var n := |a| - 1;
      assert s + a == (s + a[..n]) + [a[n]] && a == a[..n] + [a[n]];
      StaticsKept(s, a[..n]);
      StaticsNext(s + a[..n], a[n]);
      StaticsNext(a[..n], a[n]);
    }
  }

  // The entries an update adds.
  function Added(db: Db, ifaces: seq<seq<Nbr>>, t: Table): Table
    requires |db| < 0x8000_0000
  {
    var r := Updated(db, ifaces, t);
    if |Statics(t)| <= |r| then r[|Statics(t)|..] else []
  }

  lemma NewNetsBehind(s: Table, r: Table)
    requires s <= r && forall k, l :: 0 <= k < l < |r| && |s| <= l ==> Net(r[k]) != Net(r[l])
    ensures r == s + r[|s|..] && NewNets(s, r[|s|..])
  {
    var a := r[|s|..];
    forall i, j | 0 <= i < |s| && 0 <= j < |a|
      ensures Net(s[i]) != Net(a[j])
    {
      assert s[i] == r[i] && a[j] == r[|s| + j];
    }
    forall i, j | 0 <= i < j < |a|
      ensures Net(a[i]) != Net(a[j])
    {
      assert a[i] == r[|s| + i] && a[j] == r[|s| + j];
    }
  }

  lemma UpdateAdds(db: Db, ifaces: seq<seq<Nbr>>, t: Table)
    requires |db| < 0x8000_0000
    ensures Updated(db, ifaces, t) == Statics(t) + Added(db, ifaces, t) && NewNets(Statics(t), Added(db, ifaces, t))
  {
    UpdateCorrect(db, ifaces, t);
    NewNetsBehind(Statics(t), Updated(db, ifaces, t));
  }

  // A second run keeps the entries without gateway, the added ones among them, and puts the other
  // added entries behind them in the same order.
  lemma UpdateTwice(db: Db, ifaces: seq<seq<Nbr>>, t: Table)
    requires |db| < 0x8000_0000
    ensures var a := Added(db, ifaces, t);
            Updated(db, ifaces, Updated(db, ifaces, t)) == Statics(t) + Statics(a) + Dynamics(a)
  {
    SettledRoutable(db, ifaces);
    UpdateAdds(db, ifaces, t);
    var (ns, order) := ShortestPaths(db, ifaces);
    var s, a, es := Statics(t), Added(db, ifaces, t), AllAdverts(db, ns, order, |order|);
    AddAllEach(db, ns, order, s, |order|);
    StaticsKept(s, a);
    AddAllEach(db, ns, order, s + Statics(a), |order|);
    var j := SecondPass(s, es, a, |es|);
    assert es[..|es|] == es && a[..|a|] == a;
    SameBehind(s, a[..j], a);
  }

  // No entry with a gateway stands before one without.
  ghost predicate StaticsFirst(t: Table) {
    forall i, j :: 0 <= i < j < |t| && t[j].gw == 0 ==> t[i].gw == 0
  }

  lemma StaticsFirstNext(before: Table, e: RtEntry)
    ensures StaticsFirst(before + [e]) <==> StaticsFirst(before) && (e.gw == 0 ==> Dynamics(before) == [])
  {
    var t := before + [e];
    assert forall i :: 0 <= i < |before| ==> t[i] == before[i];
    if e.gw == 0 && Dynamics(before) != [] {
      var i :| 0 <= i < |before| && before[i] == Dynamics(before)[0];
      assert t[i].gw != 0 && t[|before|] == e;
    }
    if StaticsFirst(t) {
      assert forall i, j :: 0 <= i < j < |before| && before[j].gw == 0 ==> t[i].gw == 0;
    }
  }

  // An entry without gateway behind x and y comes between them, which is its place only if y is empty.
  lemma PutBetween(x: Table, y: Table, t: Table, e: RtEntry)
    requires e.gw == 0 && forall k :: 0 <= k < |y| ==> y[k].gw != 0
    ensures x + [e] + y == t + [e] <==> y == [] && x + y == t
  {
    if y != [] {
      assert (x + [e] + y)[|x| + |y|] == y[|y| - 1] && (t + [e])[|t|] == e;
    } else {
      SameFront(x, t, e);
      assert x + [e] + y == x + [e] && x + y == x;
    }
  }

  lemma PutBehind(x: Table, y: Table, t: Table, e: RtEntry)
    ensures x + (y + [e]) == t + [e] <==> x + y == t
  {
    assert x + (y + [e]) == (x + y) + [e];
    SameFront(x + y, t, e);
  }

  lemma SameFront(x: Table, y: Table, e: RtEntry)
    ensures x + [e] == y + [e] <==> x == y
  {
    if x + [e] == y + [e] {
      assert x == (x + [e])[..|x|] && y == (y + [e])[..|y|];
    }
  }

  // One more entry.
  lemma SplitNext(before: Table, e: RtEntry)
    requires Statics(before) + Dynamics(before) == before <==> StaticsFirst(before)
    ensures Statics(before + [e]) + Dynamics(before + [e]) == before + [e] <==> StaticsFirst(before + [e])
  {
    StaticsNext(before, e);
    DynamicsNext(before, e);
    StaticsFirstNext(before, e);
    if e.gw == 0 {
      PutBetween(Statics(before), Dynamics(before), before, e);
    } else {
      PutBehind(Statics(before), Dynamics(before), before, e);
    }
  }

  // Moving the entries without gateway to the front changes nothing exactly when they are there.
  lemma {:induction false} StaticsFirstSplit(t: Table)
    ensures Statics(t) + Dynamics(t) == t <==> StaticsFirst(t)
    decreases |t|
  {
    if t != [] {
      var before, e := t[..|t| - 1], t[|t| - 1];
      assert t == before + [e];
      StaticsFirstSplit(before);
      SplitNext(before, e);
    }
  }

  // It never gains or loses an entry.
  lemma {:induction false} SplitKeepsEntries(t: Table)
    ensures multiset(Statics(t)) + multiset(Dynamics(t)) == multiset(t)
    decreases |t|
  {
    if t != [] {
      var before, e := t[..|t| - 1], t[|t| - 1];
      assert t == before + [e];
      SplitKeepsEntries(before);
      StaticsNext(before, e);
      DynamicsNext(before, e);
    }
  }

  // The list r of a first run and the list again of a second one.
  lemma RerunSame(s: Table, a: Table, r: Table, again: Table)
    requires r == s + a && again == s + Statics(a) + Dynamics(a) && forall k :: 0 <= k < |s| ==> s[k].gw == 0
    ensures again == r <==> StaticsFirst(r)
  {
    StaticsFirstSplit(a);
    assert again == s + (Statics(a) + Dynamics(a));
    SameBehind(s, Statics(a) + Dynamics(a), a);
    StaticsInFront(s, a);
  }

  lemma RerunKeeps(s: Table, a: Table, r: Table, again: Table)
    requires r == s + a && again == s + Statics(a) + Dynamics(a)
    ensures multiset(again) == multiset(r)
  {
    SplitKeepsEntries(a);
  }

  // For any neighbour addresses: a second run changes nothing exactly when the first one left no
  // entry with a gateway before one without, and it never gains or loses an entry.
  lemma UpdateIdempotentIff(db: Db, ifaces: seq<seq<Nbr>>, t: Table)
    requires |db| < 0x8000_0000
    ensures var r := Updated(db, ifaces, t);
            && (Updated(db, ifaces, r) == r <==> StaticsFirst(r))
            && multiset(Updated(db, ifaces, r)) == multiset(r)
  {
    UpdateAdds(db, ifaces, t);
    UpdateTwice(db, ifaces, t);
    var r := Updated(db, ifaces, t);
    RerunSame(Statics(t), Added(db, ifaces, t), r, Updated(db, ifaces, r));
    RerunKeeps(Statics(t), Added(db, ifaces, t), r, Updated(db, ifaces, r));
  }

  lemma SameBehind(s: Table, x: Table, y: Table)
    ensures s + x == s + y <==> x == y
  {
    if s + x == s + y {
      assert x == (s + x)[|s|..] && y == (s + y)[|s|..];
    }
  }

  lemma StaticsInFront(s: Table, a: Table)
    requires forall k :: 0 <= k < |s| ==> s[k].gw == 0
    ensures StaticsFirst(s + a) <==> StaticsFirst(a)
  {
    var r := s + a;
    if StaticsFirst(r) {
      forall i, j | 0 <= i < j < |a| && a[j].gw == 0
        ensures a[i].gw == 0
      {
        assert r[|s| + i] == a[i] && r[|s| + j] == a[j];
      }
    }
  }
}
