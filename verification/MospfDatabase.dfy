/** What link-state updates do to the database. */
module MospfDatabase {
  import opened Wrappers
  import opened MospfGraph

  // The part of a received LSU that handle_mospf_lsu copies.
  datatype Lsu = Lsu(rid: nat, seqNo: nat, lsas: seq<Lsa>)

  // The database part of handle_mospf_lsu. A new entry starts with sequence number 0, and nothing
  // ever raises it.
  function Receive(db: Db, me: nat, m: Lsu): Db {
    if m.rid == me then db
    else
      match Find(db, m.rid)
      case None => db + [DbEntry(m.rid, 0, m.lsas)]
      case Some(i) => if m.seqNo > db[i].seqNo then db[i := db[i].(lsas := m.lsas)] else db
  }

  function ReceiveAll(me: nat, ms: seq<Lsu>): Db {
    if ms == [] then [] else Receive(ReceiveAll(me, ms[..|ms| - 1]), me, ms[|ms| - 1])
  }

  // At most one entry per router, none for this router, and all sequence numbers 0.
  ghost predicate WellKept(db: Db, me: nat) {
    && (forall i, j :: 0 <= i < j < |db| ==> db[i].rid != db[j].rid)
    && (forall i :: 0 <= i < |db| ==> db[i].rid != me && db[i].seqNo == 0)
  }

  lemma ReceiveKeeps(db: Db, me: nat, m: Lsu)
    requires WellKept(db, me)
    ensures WellKept(Receive(db, me, m), me)
  {
  }

  lemma {:induction false} DatabaseWellKept(me: nat, ms: seq<Lsu>)
    ensures WellKept(ReceiveAll(me, ms), me)
    decreases |ms|
  {
    if ms != [] {
      DatabaseWellKept(me, ms[..|ms| - 1]);
      ReceiveKeeps(ReceiveAll(me, ms[..|ms| - 1]), me, ms[|ms| - 1]);
    }
  }

  // With one entry per router, looking a router up finds its entry wherever it is.
  lemma FindUnique(db: Db, me: nat, i: nat)
    requires WellKept(db, me) && i < |db|
    ensures Find(db, db[i].rid) == Some(i)
  {
    assert Find(db, db[i].rid).Some?;
  }

  // The links a run of updates leaves for router r: those of its first update, replaced by every
  // later one whose sequence number is not 0 - newer or not.
  function Announced(ms: seq<Lsu>, r: nat): Option<seq<Lsa>> {
    if ms == [] then None
    else
      var before := Announced(ms[..|ms| - 1], r);
      var m := ms[|ms| - 1];
      if m.rid == r && (before.None? || m.seqNo > 0) then Some(m.lsas) else before
  }

  function Stored(db: Db, r: nat): Option<seq<Lsa>> {
    match Find(db, r)
    case None => None
    case Some(i) => Some(db[i].lsas)
  }

  lemma ReceiveStores(db: Db, me: nat, m: Lsu, r: nat)
    requires WellKept(db, me) && r != me
    ensures Stored(Receive(db, me, m), r) ==
              if m.rid == r && (Stored(db, r).None? || m.seqNo > 0) then Some(m.lsas) else Stored(db, r)
  {
    var after := Receive(db, me, m);
    ReceiveKeeps(db, me, m);
    var f, g := Find(db, r), Find(after, r);
    if f.Some? {
      assert after[f.value].rid == r;
      FindUnique(after, me, f.value);
    } else if m.rid == r {
      assert after[|db|].rid == r;
      FindUnique(after, me, |db|);
    }
  }

  lemma {:induction false} DatabaseContents(me: nat, ms: seq<Lsu>, r: nat)
    requires r != me
    ensures Stored(ReceiveAll(me, ms), r) == Announced(ms, r)
    decreases |ms|
  {
    if ms != [] {
      var before := ms[..|ms| - 1];
      DatabaseContents(me, before, r);
      DatabaseWellKept(me, before);
      ReceiveStores(ReceiveAll(me, before), me, ms[|ms| - 1], r);
    }
  }

  // ---------------------------------------------------------------- freshness

  // The greatest sequence number received from r.
  function Highest(ms: seq<Lsu>, r: nat): Option<nat> {
    if ms == [] then None
    else
      var before := Highest(ms[..|ms| - 1], r);
      var m := ms[|ms| - 1];
      if m.rid == r && (before.None? || m.seqNo > before.value) then Some(m.seqNo) else before
  }

  // What a database that keeps the newest links would store for r.
  function Newest(ms: seq<Lsu>, r: nat): Option<seq<Lsa>> {
    if ms == [] then None
    else
      var m := ms[|ms| - 1];
      if m.rid == r && Newer(ms[..|ms| - 1], m) then Some(m.lsas) else Newest(ms[..|ms| - 1], r)
  }

  // m is the first update of its router or has a greater number than all before.
  predicate Newer(before: seq<Lsu>, m: Lsu) {
    Highest(before, m.rid).None? || m.seqNo > Highest(before, m.rid).value
  }

  // m does not replace newer links by other ones: it is newer itself, or has the number 0, which
  // the code never takes for newer, or says what is stored already.
  predicate Harmless(me: nat, before: seq<Lsu>, m: Lsu) {
    Newer(before, m) || m.seqNo == 0 || Stored(ReceiveAll(me, before), m.rid) == Some(m.lsas)
  }

  lemma {:induction false} NewestUnheard(ms: seq<Lsu>, r: nat)
    ensures Highest(ms, r).None? <==> Newest(ms, r).None?
    ensures Highest(ms, r).None? <==> Announced(ms, r).None?
    decreases |ms|
  {
    if ms != [] {
      NewestUnheard(ms[..|ms| - 1], r);
    }
  }

  // The greatest number of the updates from r, and an update that has it.
  lemma {:induction false} HighestIsGreatest(ms: seq<Lsu>, r: nat)
    ensures forall k :: 0 <= k < |ms| && ms[k].rid == r ==> Highest(ms, r).Some? && ms[k].seqNo <= Highest(ms, r).value
    ensures Highest(ms, r).Some? ==> exists k :: 0 <= k < |ms| && ms[k].rid == r && ms[k].seqNo == Highest(ms, r).value
    decreases |ms|
  {
    if ms != [] {
      HighestIsGreatest(ms[..|ms| - 1], r);
    }
  }

  // The newest links are those of the first update with the greatest number.
  lemma {:induction false} NewestIsGreatest(ms: seq<Lsu>, r: nat)
    requires Newest(ms, r).Some?
    ensures exists k :: 0 <= k < |ms| && FirstGreatest(ms, r, k) && Newest(ms, r) == Some(ms[k].lsas)
    decreases |ms|
  {
    var n := |ms| - 1;
    var before, m := ms[..n], ms[n];
    assert ms == before + [m];
    HighestIsGreatest(before, r);
    NewestUnheard(before, r);
    if m.rid == r && Newer(before, m) {
      assert FirstGreatest(ms, r, n);
    } else {
      NewestIsGreatest(before, r);
      var k :| 0 <= k < |before| && FirstGreatest(before, r, k) && Newest(before, r) == Some(before[k].lsas);
      assert ms[k] == before[k];
      HighestReached(before, r, k);
      assert FirstGreatest(ms, r, k);
    }
  }

  ghost predicate FirstGreatest(ms: seq<Lsu>, r: nat, k: nat) {
    && k < |ms| && ms[k].rid == r
    && (forall j :: 0 <= j < |ms| && ms[j].rid == r ==> ms[j].seqNo <= ms[k].seqNo)
    && (forall j :: 0 <= j < k && ms[j].rid == r ==> ms[j].seqNo < ms[k].seqNo)
  }

  lemma HighestReached(ms: seq<Lsu>, r: nat, k: nat)
    requires FirstGreatest(ms, r, k)
    ensures Highest(ms, r) == Some(ms[k].seqNo)
  {
    HighestIsGreatest(ms, r);
  }

  // What is stored for r is the newest links received.
  predicate UpToDate(me: nat, ms: seq<Lsu>, r: nat) {
    Stored(ReceiveAll(me, ms), r) == Newest(ms, r)
  }

  // One update to a database that is up to date leaves it so exactly when the update is harmless.
  lemma StaysNewestIffHarmless(me: nat, before: seq<Lsu>, m: Lsu)
    requires m.rid != me && UpToDate(me, before, m.rid)
    ensures UpToDate(me, before + [m], m.rid) <==> Harmless(me, before, m)
  {
    assert (before + [m])[..|before|] == before;
    DatabaseWellKept(me, before);
    ReceiveStores(ReceiveAll(me, before), me, m, m.rid);
    NewestUnheard(before, m.rid);
  }

  // An update from another router does not matter.
  lemma OthersDoNotMatter(me: nat, before: seq<Lsu>, m: Lsu, r: nat)
    requires r != me && m.rid != r
    ensures UpToDate(me, before + [m], r) <==> UpToDate(me, before, r)
  {
    assert (before + [m])[..|before|] == before;
    DatabaseWellKept(me, before);
    ReceiveStores(ReceiveAll(me, before), me, m, r);
  }

  ghost predicate AlwaysUpToDate(me: nat, ms: seq<Lsu>, r: nat) {
    forall n :: 0 <= n <= |ms| ==> UpToDate(me, ms[..n], r)
  }

  ghost predicate AllHarmless(me: nat, ms: seq<Lsu>, r: nat) {
    forall n :: 0 <= n < |ms| && ms[n].rid == r ==> Harmless(me, ms[..n], ms[n])
  }

  lemma AlwaysNext(me: nat, before: seq<Lsu>, m: Lsu, r: nat)
    ensures AlwaysUpToDate(me, before + [m], r) <==> AlwaysUpToDate(me, before, r) && UpToDate(me, before + [m], r)
    ensures AlwaysUpToDate(me, before, r) ==> UpToDate(me, before, r)
  {
    var ms := before + [m];
    assert ms[..|ms|] == ms && before[..|before|] == before;
    assert forall n :: 0 <= n <= |before| ==> ms[..n] == before[..n];
  }

  lemma HarmlessNext(me: nat, before: seq<Lsu>, m: Lsu, r: nat)
    ensures AllHarmless(me, before + [m], r) <==> AllHarmless(me, before, r) && (m.rid == r ==> Harmless(me, before, m))
  {
    var ms := before + [m];
    assert ms[..|before|] == before && ms[|before|] == m;
    assert forall n :: 0 <= n < |before| ==> ms[..n] == before[..n] && ms[n] == before[n];
  }

  // The database always stores the newest links of r exactly when every update from r was harmless.
  lemma {:induction false} AlwaysNewestIffHarmless(me: nat, ms: seq<Lsu>, r: nat)
    requires r != me
    ensures AlwaysUpToDate(me, ms, r) <==> AllHarmless(me, ms, r)
    decreases |ms|
  {
    if ms != [] {
      var before, m := ms[..|ms| - 1], ms[|ms| - 1];
      assert ms == before + [m];
      AlwaysNewestIffHarmless(me, before, r);
      AlwaysNext(me, before, m, r);
      HarmlessNext(me, before, m, r);
      if AlwaysUpToDate(me, before, r) {
        if m.rid == r {
          StaysNewestIffHarmless(me, before, m);
        } else {
          OthersDoNotMatter(me, before, m, r);
        }
      }
    }
  }

  // An update with a smaller number replaces the links of one with a greater number.
  lemma OlderReplaces(me: nat, r: nat, newer: nat, older: nat, a: seq<Lsa>, b: seq<Lsa>)
    requires r != me && 0 < older < newer && a != b
    ensures var ms := [Lsu(r, newer, a), Lsu(r, older, b)];
            Stored(ReceiveAll(me, ms), r) == Some(b) && Newest(ms, r) == Some(a)
  {
    var first := Lsu(r, newer, a);
    var ms := [first, Lsu(r, older, b)];
    DatabaseContents(me, ms, r);
    assert ms[..1] == [first] && [first][..0] == [];
    assert Announced([first], r) == Some(a) && Highest([first], r) == Some(newer) && Newest([first], r) == Some(a);
  }
}
