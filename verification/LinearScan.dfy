/** The linear longest-prefix match: what it returns, and when the order of the list matters. */
module LinearScan {
  import opened Wrappers
  import opened Routes
  import opened Keys

  // Entry i matches a, no match has a longer mask and no earlier match one as long.
  ghost predicate FirstLongestAt(rs: seq<Route>, a: nat, i: nat)
    requires AnyRoutes(rs)
  {
    && i < |rs| && Matches(rs[i], a)
    && (forall k :: 0 <= k < |rs| && Matches(rs[k], a) ==> rs[k].maskLen <= rs[i].maskLen)
    && (forall k :: 0 <= k < i && Matches(rs[k], a) ==> rs[k].maskLen < rs[i].maskLen)
  }

  // best is the first route of the list that matches a with a longest mask.
  ghost predicate FirstLongest(rs: seq<Route>, a: nat, best: Option<Route>)
    requires AnyRoutes(rs)
  {
    match best
    case None => forall k :: 0 <= k < |rs| ==> !Matches(rs[k], a)
    case Some(r) => exists i :: 0 <= i < |rs| && FirstLongestAt(rs, a, i) && rs[i] == r
  }

  // The first longest match stays so unless the next entry is a longer match.
  lemma FirstLongestStays(before: seq<Route>, r: Route, a: nat, i: nat)
    requires AnyRoutes(before) && AnyRoute(r) && FirstLongestAt(before, a, i)
    requires Matches(r, a) ==> r.maskLen <= before[i].maskLen
    ensures AnyRoutes(before + [r]) && FirstLongestAt(before + [r], a, i)
  {
  }

  // A longer match than all before becomes the first longest one.
  lemma FirstLongestMoves(before: seq<Route>, r: Route, a: nat)
    requires AnyRoutes(before) && AnyRoute(r) && Matches(r, a)
    requires forall k :: 0 <= k < |before| && Matches(before[k], a) ==> before[k].maskLen < r.maskLen
    ensures AnyRoutes(before + [r]) && FirstLongestAt(before + [r], a, |before|)
  {
  }

  lemma LongestStep(before: seq<Route>, r: Route, a: nat, best: Option<Route>)
    requires AnyRoutes(before) && AnyRoute(r) && FirstLongest(before, a, best)
    ensures AnyRoutes(before + [r])
    ensures FirstLongest(before + [r], a,
              if Matches(r, a) && (best.None? || best.value.maskLen < r.maskLen) then Some(r) else best)
  {
    if Matches(r, a) && (best.None? || best.value.maskLen < r.maskLen) {
      FirstLongestMoves(before, r, a);
    } else if best.Some? {
      var i :| 0 <= i < |before| && FirstLongestAt(before, a, i) && before[i] == best.value;
      FirstLongestStays(before, r, a, i);
    }
  }

  lemma {:induction false} ScanIsFirstLongest(rs: seq<Route>, a: nat)
    requires AnyRoutes(rs)
    ensures FirstLongest(rs, a, Scan(rs, a))
  {
    if rs != [] {
      var n := |rs| - 1;
      assert rs == rs[..n] + [rs[n]];
      ScanIsFirstLongest(rs[..n], a);
      var best := Scan(rs[..n], a);
      LongestStep(rs[..n], rs[n], a, best);
      if best.Some? {
        MaskOrder(best.value.maskLen, rs[n].maskLen);
      }
    }
  }

  // No two different routes of the list have the same prefix and mask.
  ghost predicate DistinctPrefixes(rs: seq<Route>)
    requires AnyRoutes(rs)
  {
    forall i, j ::
      (0 <= i < |rs| && 0 <= j < |rs| && Prefix(rs[i]) == Prefix(rs[j]) && rs[i].maskLen == rs[j].maskLen) ==>
        rs[i] == rs[j]
  }

  lemma BothLongest(rs1: seq<Route>, rs2: seq<Route>, a: nat, i: nat, j: nat)
    requires AnyRoutes(rs1) && AnyRoutes(rs2) && DistinctPrefixes(rs1)
    requires forall r :: r in rs1 <==> r in rs2
    requires FirstLongestAt(rs1, a, i) && FirstLongestAt(rs2, a, j)
    ensures rs1[i] == rs2[j]
  {
    assert rs1[i] in rs2 && rs2[j] in rs1;
    var i2 :| 0 <= i2 < |rs2| && rs2[i2] == rs1[i];
    var j1 :| 0 <= j1 < |rs1| && rs1[j1] == rs2[j];
    assert rs1[i].maskLen == rs1[j1].maskLen;
  }

  // A list with a match has an answer.
  lemma MatchFound(rs: seq<Route>, r: Route, a: nat)
    requires AnyRoutes(rs) && r in rs && Matches(r, a)
    ensures Scan(rs, a).Some?
  {
    ScanIsFirstLongest(rs, a);
  }

  // With distinct prefixes the answer depends only on which routes are in the list.
  lemma OrderIrrelevant(rs1: seq<Route>, rs2: seq<Route>, a: nat)
    requires AnyRoutes(rs1) && AnyRoutes(rs2) && DistinctPrefixes(rs1)
    requires forall r :: r in rs1 <==> r in rs2
    ensures Scan(rs1, a) == Scan(rs2, a)
  {
    ScanIsFirstLongest(rs1, a);
    ScanIsFirstLongest(rs2, a);
    if Scan(rs1, a).Some? { MatchFound(rs2, Scan(rs1, a).value, a); }
    if Scan(rs2, a).Some? { MatchFound(rs1, Scan(rs2, a).value, a); }
    if Scan(rs1, a).Some? {
      var i :| 0 <= i < |rs1| && FirstLongestAt(rs1, a, i) && rs1[i] == Scan(rs1, a).value;
      var j :| 0 <= j < |rs2| && FirstLongestAt(rs2, a, j) && rs2[j] == Scan(rs2, a).value;
      BothLongest(rs1, rs2, a, i, j);
    }
  }
}
