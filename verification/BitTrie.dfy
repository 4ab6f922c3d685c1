/** The bitwise trie (naive.h). */
module BitTrie {
  import opened Wrappers
  import opened Powers
  import opened Routes
  import opened Keys
  import opened Contents
  import opened TrieHeap

  const LEVELS: nat := 32

  // The root keeps no route: a route is inserted at the level of its mask length.
  ghost predicate IsBitTree(tree: Tree)
    reads tree
  {
    tree.fanout == 2 && tree.levels == LEVELS && [] !in tree.content
  }

  // The bits get_bit(x, 31), get_bit(x, 30), ... the loops take one by one.
  method Bits(x: nat) returns (bits: Path)
    ensures bits == Digits(1, x)
    ensures forall k :: 0 <= k < |bits| ==> bits[k] < 2
  {
    bits := [];
    for i := 0 to LEVELS
      invariant |bits| == i
      invariant forall k :: 0 <= k < i ==> bits[k] == Key(1, x, k) < 2
    {
      KeyIsDigit(1, x, i);
      Pow2Values();
      bits := bits + [GetBits(x, 31 - i, 31 - i)];
    }
  }

  // insert_route
  method InsertRoute(tree: Tree, r: Route)
    requires tree.Valid() && IsBitTree(tree) && ValidContent(tree.content) && ValidRoute(r)
    modifies tree, tree.repr
    ensures tree.Valid() && tree.content == KeptFirst(old(tree.content), r) && IsBitTree(tree)
    ensures fresh(tree.repr - old(tree.repr))
  {
    var bits := Bits(Prefix(r));
    var t := tree.WalkTo(bits, r.maskLen);
    assert t.router == At(tree.content, bits[..r.maskLen]);
    if t.router.None? {
      tree.Put(bits[..r.maskLen], t, r);
    }
  }

  // longest_prefix_match: the last route met below the root.
  method LongestPrefixMatch(tree: Tree, ip: nat) returns (router: Option<Route>)
    requires tree.Valid() && IsBitTree(tree)
    ensures router == Deepest(tree.content, Digits(1, ip))
  {
    var bits := Bits(ip);
    router := None;
    var t: Node? := tree.root;
    assert bits[..0] == [];
    for i := 0 to LEVELS
      invariant bits[..i] in tree.nodes && t == tree.nodes[bits[..i]]
      invariant router == Deepest(tree.content, bits[..i])
    {
      ghost var p := bits[..i];
      ghost var next := bits[..i + 1];
      assert p + [bits[i]] == next && next[..i] == p;
      assert tree.Hung(p);
      t := t.subt[bits[i]];
      if t == null {
        tree.NothingDeeper(bits, i + 1);
        return;
      }
      assert t.router == At(tree.content, next);
      router := if t.router.Some? then t.router else router;
    }
    assert bits[..LEVELS] == bits;
  }

  // create_tree_by_file, the file read into a list.
  method CreateTree(rs: seq<Route>) returns (tree: Tree)
    requires ValidRoutes(rs)
    ensures tree.Valid() && IsBitTree(tree) && tree.content == AllKeptFirst(rs)
    ensures fresh(tree) && fresh(tree.repr)
  {
    tree := new Tree(2, LEVELS);
    for k := 0 to |rs|
      invariant tree.Valid() && IsBitTree(tree) && fresh(tree) && fresh(tree.repr)
      invariant tree.content == AllKeptFirst(rs[..k])
    {
      assert rs[..k + 1][..k] == rs[..k];
      InsertRoute(tree, rs[k]);
    }
    assert rs[..|rs|] == rs;
  }

  // tree_test: build the tree and look every address up.
  method TreeTest(rs: seq<Route>, ips: seq<nat>) returns (routers: seq<Option<Route>>)
    requires ValidRoutes(rs) && forall k :: 0 <= k < |ips| ==> ips[k] < WORD
    ensures |routers| == |ips| && forall k :: 0 <= k < |ips| ==> routers[k] == Scan(rs, ips[k])
  {
    var tree := CreateTree(rs);
    AllKeptFirstRepresents(rs);
    routers := [];
    for k := 0 to |ips|
      invariant tree.Valid() && IsBitTree(tree) && tree.content == AllKeptFirst(rs)
      invariant |routers| == k && forall j :: 0 <= j < k ==> routers[j] == Scan(rs, ips[j])
    {
      var router := LongestPrefixMatch(tree, ips[k]);
      DeepestIsScan(1, tree.content, rs, ips[k]);
      routers := routers + [router];
    }
  }
}
