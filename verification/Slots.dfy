/** What each slot of a trie holds after a list of insertions, and why the deepest filled slot
    on an address's path is the route the linear scan picks. */
module Slots {
  import opened Wrappers
  import opened Routes
  import opened Keys

  // The route kept in slot p: of the routes expanded into p, the first that route_cmp puts on top.
  function Slot(bits: nat, rs: seq<Route>, p: Path): (s: Option<Route>)
    requires Width(bits) && ValidRoutes(rs)
    ensures s.Some? ==> s.value in rs && ValidRoute(s.value) && Covers(bits, s.value, p)
    ensures s.None? ==> forall k :: 0 <= k < |rs| ==> !Covers(bits, rs[k], p)
  {
    if rs == [] then None
    else
      var s := Slot(bits, rs[..|rs| - 1], p);
      var r := rs[|rs| - 1];
      if Covers(bits, r, p) && (s.None? || RouteCmp(s.value, r) < 0) then Some(r) else s
  }

  // The route of the deepest filled slot among p and its prefixes.
  function LastSlot(bits: nat, rs: seq<Route>, p: Path): (s: Option<Route>)
    requires Width(bits) && ValidRoutes(rs)
    ensures s.Some? ==> s.value in rs && ValidRoute(s.value)
  {
    if Slot(bits, rs, p).Some? then Slot(bits, rs, p)
    else if p == [] then None
    else LastSlot(bits, rs, p[..|p| - 1])
  }

  lemma {:induction false} LastSlotIsDeepest(bits: nat, rs: seq<Route>, p: Path)
    requires Width(bits) && ValidRoutes(rs)
    ensures var s := LastSlot(bits, rs, p);
            if s.None? then forall d :: 0 <= d <= |p| ==> Slot(bits, rs, p[..d]).None?
            else
              var depth := Depth(bits, s.value);
              && depth <= |p| && Slot(bits, rs, p[..depth]) == s
              && forall d :: depth < d <= |p| ==> Slot(bits, rs, p[..d]).None?
    decreases |p|
  {
    assert p[..|p|] == p;
    if Slot(bits, rs, p).None? && p != [] {
      var q := p[..|p| - 1];
      LastSlotIsDeepest(bits, rs, q);
      assert forall d :: 0 <= d <= |q| ==> q[..d] == p[..d];
    }
  }

  lemma {:induction false} DeepestIsLastSlot(bits: nat, rs: seq<Route>, p: Path, d: nat)
    requires Width(bits) && ValidRoutes(rs) && d <= |p|
    requires forall k :: d < k <= |p| ==> Slot(bits, rs, p[..k]).None?
    ensures LastSlot(bits, rs, p) == LastSlot(bits, rs, p[..d])
    decreases |p|
  {
    assert p[..|p|] == p;
    if d < |p| {
      var q := p[..|p| - 1];
      assert forall k :: 0 <= k <= |q| ==> q[..k] == p[..k];
      DeepestIsLastSlot(bits, rs, q, d);
    }
  }

  lemma {:induction false} NothingInSlots(bits: nat, rs: seq<Route>, p: Path)
    requires Width(bits) && ValidRoutes(rs) && forall d :: 0 <= d <= |p| ==> Slot(bits, rs, p[..d]).None?
    ensures LastSlot(bits, rs, p).None?
  {
    LastSlotIsDeepest(bits, rs, p);
  }

  // One more route changes, of the slots on an address's path, at most the one at its own depth.
  lemma SlotAfterInsert(bits: nat, rs: seq<Route>, r: Route, a: nat, d: nat)
    requires Width(bits) && ValidRoutes(rs) && ValidRoute(r) && a < WORD && d <= 32 / bits
    ensures var p := Digits(bits, a)[..d];
            var s := Slot(bits, rs, p);
            Slot(bits, rs + [r], p) ==
              if d == Depth(bits, r) && Matches(r, a) && (s.None? || s.value.maskLen < r.maskLen) then Some(r) else s
  {
    var p := Digits(bits, a)[..d];
    var s := Slot(bits, rs, p);
    assert (rs + [r])[..|rs|] == rs;
    MatchesIffCovers(bits, r, a);
    if s.Some? {
      MatchesIffCovers(bits, s.value, a);
      if Matches(r, a) {
        NestedOrder(s.value, r, a);
      }
    }
  }

  // The trie's answer: the deepest filled slot on the path holds the route of the linear scan.
  lemma {:induction false} LastSlotIsScan(bits: nat, rs: seq<Route>, a: nat)
    requires Width(bits) && ValidRoutes(rs) && a < WORD
    ensures LastSlot(bits, rs, Digits(bits, a)) == Scan(rs, a)
    decreases |rs|
  {
    var p := Digits(bits, a);
    if rs == [] {
      NothingInSlots(bits, rs, p);
    } else {
      var n := |rs| - 1;
      var before, r := rs[..n], rs[n];
      assert rs == before + [r];
      LastSlotIsScan(bits, before, a);
      LastSlotIsDeepest(bits, before, p);
      forall d | 0 <= d <= |p|
        ensures var s := Slot(bits, before, p[..d]);
                Slot(bits, rs, p[..d]) ==
                  if d == Depth(bits, r) && Matches(r, a) && (s.None? || s.value.maskLen < r.maskLen) then Some(r) else s
      {
        SlotAfterInsert(bits, before, r, a, d);
      }
      OneMoreRoute(bits, before, r, rs, p, a);
    }
  }

  // The inductive step of LastSlotIsScan.
  lemma OneMoreRoute(bits: nat, before: seq<Route>, r: Route, rs: seq<Route>, p: Path, a: nat)
    requires Width(bits) && ValidRoutes(rs) && ValidRoutes(before) && ValidRoute(r) && rs == before + [r]
    requires Depth(bits, r) <= |p|
    requires LastSlot(bits, before, p) == Scan(before, a)
    requires forall d :: 0 <= d <= |p| ==>
               var s := Slot(bits, before, p[..d]);
               Slot(bits, rs, p[..d]) ==
                 if d == Depth(bits, r) && Matches(r, a) && (s.None? || s.value.maskLen < r.maskLen) then Some(r) else s
    ensures LastSlot(bits, rs, p) == Scan(rs, a)
  {
    var q := Scan(before, a);
    var depth := Depth(bits, r);
    assert rs[..|rs| - 1] == before;
    LastSlotIsDeepest(bits, before, p);
    if q.None? {
      if Matches(r, a) {
        DeepestIsLastSlot(bits, rs, p, depth);
      } else {
        NothingInSlots(bits, rs, p);
      }
    } else {
      var kept := Depth(bits, q.value);
      MaskOrder(q.value.maskLen, r.maskLen);
      if Matches(r, a) && q.value.maskLen < r.maskLen {
        DeepestIsLastSlot(bits, rs, p, depth);
      } else {
        DeepestIsLastSlot(bits, rs, p, kept);
      }
    }
  }
}
