/** The lookup in the forwarding list (ip.c), for any mask words. */
module MospfForwarding {
  import opened Wrappers
  import opened MospfGraph
  import opened MospfTable
  import opened MospfHops

  predicate MatchesDst(e: RtEntry, dst: bv32) {
    (dst & e.mask) == (e.dest & e.mask)
  }

  // The comparison of two mask words as unsigned numbers.
  predicate ShorterMask(a: RtEntry, b: RtEntry) {
    (a.mask as nat) < (b.mask as nat)
  }

  // The scan of longest_prefix_match over the list.
  function Selected(t: Table, dst: bv32): (s: Option<RtEntry>)
    ensures s.Some? ==> s.value in t && MatchesDst(s.value, dst)
  {
    if t == [] then None
    else
      var s, e := Selected(t[..|t| - 1], dst), t[|t| - 1];
      if MatchesDst(e, dst) && (s.None? || ShorterMask(s.value, e)) then Some(e) else s
  }

  // Entry i matches, no match has a greater mask word and no earlier match one as great.
  ghost predicate FirstGreatestMask(t: Table, dst: bv32, i: nat) {
    && i < |t| && MatchesDst(t[i], dst)
    && (forall k :: 0 <= k < |t| && MatchesDst(t[k], dst) ==> t[k].mask as nat <= t[i].mask as nat)
    && (forall k :: 0 <= k < i && MatchesDst(t[k], dst) ==> (t[k].mask as nat) < (t[i].mask as nat))
  }

  lemma ShorterTransitive(a: RtEntry, b: RtEntry, c: RtEntry)
    ensures !ShorterMask(b, a) && ShorterMask(b, c) ==> ShorterMask(a, c) && !ShorterMask(c, a)
  {
  }

  lemma GreatestStays(before: Table, e: RtEntry, dst: bv32, i: nat)
    requires FirstGreatestMask(before, dst, i) && (MatchesDst(e, dst) ==> !ShorterMask(before[i], e))
    ensures FirstGreatestMask(before + [e], dst, i)
  {
  }

  lemma GreatestMoves(before: Table, e: RtEntry, dst: bv32, i: nat)
    requires FirstGreatestMask(before, dst, i) && MatchesDst(e, dst) && ShorterMask(before[i], e)
    ensures FirstGreatestMask(before + [e], dst, |before|)
  {
    forall k | 0 <= k < |before| && MatchesDst(before[k], dst)
      ensures ShorterMask(before[k], e) && !ShorterMask(e, before[k])
    {
      ShorterTransitive(before[k], before[i], e);
    }
  }

  // The scan's answer is the first match of greatest mask, or there is no match.
  ghost predicate IsAnswer(t: Table, dst: bv32, s: Option<RtEntry>) {
    match s
    case None => forall k :: 0 <= k < |t| ==> !MatchesDst(t[k], dst)
    case Some(e) => exists i: nat :: FirstGreatestMask(t, dst, i) && t[i] == e
  }

  lemma {:induction false} SelectedIsFirstGreatest(t: Table, dst: bv32)
    ensures IsAnswer(t, dst, Selected(t, dst))
    decreases |t|
  {
    if t != [] {
      var n := |t| - 1;
      var before, e := t[..n], t[n];
      assert t == before + [e];
      SelectedIsFirstGreatest(before, dst);
      AnswerNext(before, e, dst, Selected(before, dst));
    }
  }

  lemma AnswerNext(before: Table, e: RtEntry, dst: bv32, s: Option<RtEntry>)
    requires IsAnswer(before, dst, s)
    ensures IsAnswer(before + [e], dst, if MatchesDst(e, dst) && (s.None? || ShorterMask(s.value, e)) then Some(e) else s)
  {
    if s.Some? {
      var i: nat :| FirstGreatestMask(before, dst, i) && before[i] == s.value;
      if MatchesDst(e, dst) && ShorterMask(s.value, e) {
        GreatestMoves(before, e, dst, i);
      } else {
        GreatestStays(before, e, dst, i);
      }
    } else if MatchesDst(e, dst) {
      assert FirstGreatestMask(before + [e], dst, |before|);
    }
  }

  // longest_prefix_match
  method LongestPrefixMatch(rtable: Table, dst: bv32) returns (selected: Option<RtEntry>)
    ensures selected == Selected(rtable, dst)
  {
    selected := None;
    for k := 0 to |rtable|
      invariant selected == Selected(rtable[..k], dst)
    {
      assert rtable[..k + 1][..k] == rtable[..k];
      var entry := rtable[k];
      if MatchesDst(entry, dst) {
        if selected.None? || ShorterMask(selected.value, entry) {
          selected := Some(entry);
        }
      }
    }
    assert rtable[..|rtable|] == rtable;
  }

  // After router_update a packet leaves by a kept entry or by one for a network that a nearest
  // advertiser has, towards the neighbour where a shortest way there starts.
  lemma ForwardsByBestRoute(db: Db, ifaces: seq<seq<Nbr>>, t: Table, dst: bv32)
    requires |db| < 0x8000_0000 && Selected(Updated(db, ifaces, t), dst).Some?
    ensures var e := Selected(Updated(db, ifaces, t), dst).value;
            e in Statics(t) || Routed(db, ifaces, e)
  {
    UpdatedByHops(db, ifaces, t);
    var r, s := Updated(db, ifaces, t), Statics(t);
    var e := Selected(r, dst).value;
    var k :| 0 <= k < |r| && r[k] == e;
    if k < |s| { assert s[k] == r[k]; }
  }
}
