/** Routes, the comparison that orders them inside a trie slot, and the linear scan that says
    what a lookup must return. */
module Routes {
  import opened Wrappers
  import opened Powers

  // route_item_t; ip is a 32-bit word.
  datatype Route = Route(ip: nat, maskLen: nat, port: nat)

  // The digits of an address from the top, as a trie follows them.
  type Path = seq<nat>

  // The filled slots of a trie.
  type Content = map<Path, Route>

  function At(content: Content, p: Path): Option<Route> {
    if p in content then Some(content[p]) else None
  }

  const WORD: nat := 0x1_0000_0000

  // What the linear scan handles.
  predicate AnyRoute(r: Route) {
    r.ip < WORD && r.maskLen <= 32
  }

  predicate AnyRoutes(rs: seq<Route>) {
    forall k :: 0 <= k < |rs| ==> AnyRoute(rs[k])
  }

  // What the tries handle: mask(0) would shift a 32-bit word by 32.
  predicate ValidRoute(r: Route) {
    r.ip < WORD && 1 <= r.maskLen <= 32
  }

  predicate ValidRoutes(rs: seq<Route>) {
    forall k :: 0 <= k < |rs| ==> ValidRoute(rs[k])
  }

  // mask(len): ones in the top len bits.
  function Mask(len: nat): int
    requires len <= 32
  {
    Pow2(32) - Pow2(32 - len)
  }

  // x & mask(len): the low 32 - len bits cleared.
  function Masked(x: nat, len: nat): nat
    requires len <= 32
  {
    x - Remainder(x, Pow2(32 - len))
  }

  // get_prefix
  function Prefix(r: Route): nat
    requires AnyRoute(r)
  {
    Masked(r.ip, r.maskLen)
  }

  predicate Matches(r: Route, a: nat)
    requires AnyRoute(r)
  {
    Masked(a, r.maskLen) == Prefix(r)
  }

  // route_cmp
  function RouteCmp(r1: Route, r2: Route): int
    requires AnyRoute(r1) && AnyRoute(r2)
  {
    if Prefix(r1) > Prefix(r2) then 1
    else if Prefix(r1) < Prefix(r2) then -1
    else r1.maskLen - r2.maskLen
  }

  // The scan of longest_prefix_match over a list: the first match with the greatest mask.
  function Scan(rs: seq<Route>, a: nat): (best: Option<Route>)
    requires AnyRoutes(rs)
    ensures best.Some? ==> best.value in rs && AnyRoute(best.value)
  {
    if rs == [] then None
    else
      var best := Scan(rs[..|rs| - 1], a);
      var r := rs[|rs| - 1];
      if Matches(r, a) && (best.None? || Mask(best.value.maskLen) < Mask(r.maskLen)) then Some(r) else best
  }
}
