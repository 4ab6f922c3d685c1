/** The 4-bit trie with controlled prefix expansion (multi.h). */
module NibbleTrie {
  import opened Wrappers
  import opened Powers
  import opened Routes
  import opened Keys
  import opened Contents
  import opened TrieHeap

  const BITS: nat := 4
  const FANOUT: nat := 16
  const LEVELS: nat := 8

  ghost predicate IsNibbleTree(tree: Tree) {
    tree.fanout == FANOUT && tree.levels == LEVELS
  }

  // The keys array both insert_route and longest_prefix_match fill first.
  method InitKeys(x: nat) returns (keys: Path)
    ensures keys == Digits(BITS, x)
    ensures forall k :: 0 <= k < |keys| ==> keys[k] < FANOUT
  {
    keys := [];
    for i := 0 to LEVELS
      invariant |keys| == i
      invariant forall k :: 0 <= k < i ==> keys[k] == Key(BITS, x, k) < FANOUT
    {
      KeyIsDigit(BITS, x, i);
      Pow2Values();
      keys := keys + [GetBits(x, 31 - BITS * i, 31 - BITS * i - BITS + 1)];
    }
  }

  // The body of the second loop of insert_route: slot i of the node for base.
  method ImproveSlot(tree: Tree, ghost base: Path, lastSecond: Node, i: nat, r: Route)
    requires tree.Valid() && ValidContent(tree.content) && ValidRoute(r)
    requires base in tree.nodes && tree.nodes[base] == lastSecond && |base| < tree.levels && i < tree.fanout
    modifies tree, tree.repr
    ensures tree.Valid() && tree.content == Improve(old(tree.content), base + [i], r)
    ensures base in tree.nodes && tree.nodes[base] == lastSecond
    ensures fresh(tree.repr - old(tree.repr))
  {
    var child := tree.Descend(base, lastSecond, i);
    assert child.router == At(tree.content, base + [i]);
    if child.router.None? || RouteCmp(child.router.value, r) < 0 {
      tree.Put(base + [i], child, r);
    }
  }

  method FillRange(tree: Tree, ghost base: Path, lastSecond: Node, startLeaf: nat, leafNum: nat, r: Route)
    requires tree.Valid() && ValidContent(tree.content) && ValidRoute(r)
    requires base in tree.nodes && tree.nodes[base] == lastSecond && |base| < tree.levels
    requires startLeaf + leafNum <= tree.fanout
    modifies tree, tree.repr
    ensures tree.Valid() && tree.content == FillSlots(old(tree.content), base, startLeaf, leafNum, r)
    ensures fresh(tree.repr - old(tree.repr))
  {
    ghost var before := tree.content;
    for i := startLeaf to startLeaf + leafNum
      invariant tree.Valid() && fresh(tree.repr - old(tree.repr))
      invariant base in tree.nodes && tree.nodes[base] == lastSecond
      invariant tree.content == FillSlots(before, base, startLeaf, i - startLeaf, r)
    {
      ImproveSlot(tree, base, lastSecond, i, r);
    }
  }

  // insert_deep, start_leaf and leaf_num as the C code computes them; the slots stay in one node.
  lemma NibbleSlots(r: Route)
    requires ValidRoute(r)
    ensures var d := CeilDiv(r.maskLen, BITS);
            && 1 <= d <= LEVELS && r.maskLen <= BITS * d && d == Depth(BITS, r)
            && FirstSlot(BITS, r) == Digits(BITS, Prefix(r))[d - 1]
            && SlotCount(BITS, r) == Pow2(BITS * d - r.maskLen)
            && FirstSlot(BITS, r) + SlotCount(BITS, r) <= FANOUT
  {
    SlotsInsideNode(BITS, r);
    Pow2Values();
  }

  // insert_route
  method InsertRoute(tree: Tree, r: Route)
    requires tree.Valid() && IsNibbleTree(tree) && ValidContent(tree.content) && ValidRoute(r)
    modifies tree, tree.repr
    ensures tree.Valid() && tree.content == Expanded(BITS, old(tree.content), r)
    ensures fresh(tree.repr - old(tree.repr))
  {
    NibbleSlots(r);
    var insertDeep := CeilDiv(r.maskLen, BITS);
    var keys := InitKeys(Prefix(r));
    var lastSecond := tree.WalkTo(keys, insertDeep - 1);
    var startLeaf := keys[insertDeep - 1];
    var t := tree.Descend(keys[..insertDeep - 1], lastSecond, startLeaf);
    var leafNum := Pow2(BITS * insertDeep - r.maskLen);
    FillRange(tree, keys[..insertDeep - 1], lastSecond, startLeaf, leafNum, r);
  }

  // longest_prefix_match: remember the last route seen on the way down.
  method LongestPrefixMatch(tree: Tree, ip: nat) returns (router: Option<Route>)
    requires tree.Valid() && IsNibbleTree(tree)
    ensures router == Deepest(tree.content, Digits(BITS, ip))
  {
    var keys := InitKeys(ip);
    router := None;
    var t: Node? := tree.root;
    var i := 0;
    assert keys[..0] == [];
    while i <= LEVELS && t != null
      invariant 0 <= i <= LEVELS + 1
      invariant i <= LEVELS ==> t == if keys[..i] in tree.nodes then tree.nodes[keys[..i]] else null
      invariant router == if i == 0 then None else Deepest(tree.content, keys[..i - 1])
      decreases LEVELS + 1 - i
    {
      ghost var p := keys[..i];
      assert t.router == At(tree.content, p);
      assert i > 0 ==> p[..i - 1] == keys[..i - 1];
      router := if t.router.Some? then t.router else router;
      assert router == Deepest(tree.content, p);
      if i == LEVELS {
        i := i + 1;
        break;
      }
      assert p + [keys[i]] == keys[..i + 1];
      assert tree.Hung(p);
      t := t.subt[keys[i]];
      i := i + 1;
    }
    if i <= LEVELS {
      tree.NothingDeeper(keys, i);
    }
    assert keys[..LEVELS] == keys;
  }

  // create_tree_by_file, the file read into a list.
  method CreateTree(rs: seq<Route>) returns (tree: Tree)
    requires ValidRoutes(rs)
    ensures tree.Valid() && IsNibbleTree(tree) && tree.content == AllExpanded(BITS, rs)
    ensures fresh(tree) && fresh(tree.repr)
  {
    tree := new Tree(FANOUT, LEVELS);
    for k := 0 to |rs|
      invariant tree.Valid() && IsNibbleTree(tree) && fresh(tree) && fresh(tree.repr)
      invariant tree.content == AllExpanded(BITS, rs[..k])
    {
      assert rs[..k + 1][..k] == rs[..k];
      InsertRoute(tree, rs[k]);
    }
    assert rs[..|rs|] == rs;
  }

  // tree_test: build the tree and look every address up.
  method TreeTest(rs: seq<Route>, ips: seq<nat>) returns (routers: seq<Option<Route>>)
    requires ValidRoutes(rs) && forall k :: 0 <= k < |ips| ==> ips[k] < WORD
    ensures |routers| == |ips| && forall k :: 0 <= k < |ips| ==> routers[k] == Scan(rs, ips[k])
  {
    var tree := CreateTree(rs);
    AllExpandedRepresents(BITS, rs);
    routers := [];
    for k := 0 to |ips|
      invariant tree.Valid() && IsNibbleTree(tree) && tree.content == AllExpanded(BITS, rs)
      invariant |routers| == k && forall j :: 0 <= j < k ==> routers[j] == Scan(rs, ips[j])
    {
      var router := LongestPrefixMatch(tree, ips[k]);
      DeepestIsScan(BITS, tree.content, rs, ips[k]);
      routers := routers + [router];
    }
  }
}
