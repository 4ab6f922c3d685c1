/** Leaf pushing (advance.h): every route is moved down to the leaves, and a lookup just reads the
    deepest node it reaches. */
module LeafPushTrie {
  import opened Wrappers
  import opened Routes
  import opened Keys
  import opened Contents
  import opened TrieHeap
  import opened NibbleTrie
  import opened LeafFree

  // The node for q still keeps what the insertions left there.
  predicate Untouched(v: View, c: Content, q: Path)
    requires q in v
  {
    v[q] == At(c, q)
  }

  // The node for q has no or all children; without children it keeps the deepest route above.
  predicate Pushed(v: View, c: Content, q: Path)
    requires q in v
  {
    && (Childless(v, q) || AllChildren(v, q))
    && (Childless(v, q) ==> v[q] == Deepest(c, q))
  }

  ghost predicate UntouchedBelow(v: View, c: Content, p: Path) {
    forall q {:trigger Untouched(v, c, q)} :: q in v && p <= q ==> Untouched(v, c, q)
  }

  ghost predicate PushedBelow(v: View, c: Content, p: Path) {
    forall q {:trigger Pushed(v, c, q)} :: q in v && p <= q ==> Pushed(v, c, q)
  }

  // The part of the tree outside the subtree at p is as before, with nothing new.
  ghost predicate SameOutside(before: View, after: View, p: Path) {
    && (forall q :: q in before ==> q in after)
    && (forall q :: q in after && !(p <= q) ==> q in before && after[q] == before[q])
  }

  lemma BuiltTriesHandDown(c: Content, rs: seq<Route>)
    requires Represents(BITS, c, rs)
    ensures HandsDown(c)
  {
    forall q | q in c
      ensures HandsLower(c, q)
    {
      if q != [] && Deepest(c, q[..|q| - 1]).Some? { HandedDownLoses(BITS, c, rs, q); }
    }
  }

  lemma PrefixOfChild(r: Path, q: Path, k: nat)
    requires r <= q + [k]
    ensures r <= q || r == q + [k]
  {
  }

  // A pushed node outside the part of the tree that changed, and not its parent, is still pushed.
  lemma PushedElsewhere(before: View, after: View, c: Content, r: Path, q: Path)
    requires SameOutside(before, after, r) && q in before && Pushed(before, c, q) && !(r <= q)
    requires forall k: nat :: q + [k] != r
    ensures q in after && Pushed(after, c, q)
  {
    forall k: nat
      ensures q + [k] in after <==> q + [k] in before
    {
      if r <= q + [k] { PrefixOfChild(r, q, k); }
    }
  }

  // How far the loop over the children of p has come: the first n subtrees are pushed.
  ghost predicate PushedUpTo(v: View, c: Content, p: Path, n: nat) {
    && (forall k: nat :: k < n ==> p + [k] in v)
    && (forall q {:trigger Pushed(v, c, q)} :: q in v && p <= q && p != q && q[|p|] < n ==> Pushed(v, c, q))
    && (forall q {:trigger Untouched(v, c, q)} :: q in v && p <= q && p != q && n <= q[|p|] ==> Untouched(v, c, q))
  }

  // Pushing the next child's subtree leaves those before it and those after it alone.
  lemma NextChildPushed(before: View, after: View, c: Content, p: Path, i: nat)
    requires PushedUpTo(before, c, p, i) && SameOutside(before, after, p + [i])
    requires p + [i] in after && PushedBelow(after, c, p + [i])
    ensures PushedUpTo(after, c, p, i + 1)
  {
    var r := p + [i];
    forall q | q in after && p <= q && p != q
      ensures q[|p|] <= i ==> Pushed(after, c, q)
      ensures i < q[|p|] ==> Untouched(after, c, q)
    {
      if q[|p|] == i {
        assert q[..|r|] == r;
      } else {
        assert r[|p|] == i;
        assert !(r <= q);
        if q[|p|] < i {
          assert Pushed(before, c, q);
          forall k: nat
            ensures q + [k] != r
          {
            assert |q + [k]| != |r|;
          }
          PushedElsewhere(before, after, c, r, q);
        } else {
          assert Untouched(before, c, q);
        }
      }
    }
  }

  lemma ChildUntouched(v: View, c: Content, p: Path, i: nat)
    requires PushedUpTo(v, c, p, i)
    ensures UntouchedBelow(v, c, p + [i])
  {
    var r := p + [i];
    forall q | q in v && r <= q
      ensures Untouched(v, c, q)
    {
      assert q[|p|] == r[|p|];
      assert p <= q;
    }
  }

  lemma NewChildUntouched(before: View, c: Content, r: Path)
    requires UntouchedBelow(before, c, r) && r !in before && r !in c
    ensures UntouchedBelow(before[r := None], c, r) && SameOutside(before, before[r := None], r)
  {
    var after := before[r := None];
    forall q | q in after && r <= q
      ensures Untouched(after, c, q)
    {
      if q != r { assert Untouched(before, c, q); }
    }
  }

  lemma SameOutsideComposes(first: View, second: View, third: View, r: Path)
    requires SameOutside(first, second, r) && SameOutside(second, third, r)
    ensures SameOutside(first, third, r)
  {
  }

  lemma SameOutsideGrows(first: View, second: View, third: View, p: Path, i: nat)
    requires SameOutside(first, second, p) && SameOutside(second, third, p + [i])
    ensures SameOutside(first, third, p)
  {
    forall q | q in third && !(p <= q)
      ensures q in first && third[q] == first[q]
    {
      assert !(p + [i] <= q);
    }
  }

  // All children pushed means the subtree is pushed.
  lemma AllChildrenPushed(v: View, c: Content, p: Path)
    requires Closed(v) && PushedUpTo(v, c, p, FANOUT)
    ensures PushedBelow(v, c, p)
  {
    forall q | q in v && p <= q
      ensures Pushed(v, c, q)
    {
      if q != p {
        BelowIsChild(v, p, q);
      } else {
        assert p + [0] in v;
      }
    }
  }

  // After pushing a leaf the subtree is pushed.
  lemma LeafPushed(before: View, v: View, c: Content, p: Path)
    requires Closed(before) && p in before && Childless(before, p) && v == before[p := Deepest(c, p)]
    ensures PushedBelow(v, c, p) && SameOutside(before, v, p)
  {
    forall q | q in v && p <= q
      ensures Pushed(v, c, q)
    {
      if q != p { BelowIsChild(before, p, q); }
    }
  }

  // ---------------------------------------------------------------- on the heap

  // The shape is right and no filled slot lacks its node.
  ghost predicate Standing(tree: Tree)
    reads tree, tree.repr
  {
    tree.Shaped() && IsNibbleTree(tree) && forall q :: q in tree.content ==> q in tree.nodes
  }

  // Nodes are added, never replaced.
  ghost predicate NodesKept(before: map<Path, Node>, after: map<Path, Node>) {
    forall q :: q in before ==> q in after && after[q] == before[q]
  }

  lemma ViewClosed(tree: Tree)
    requires tree.Shaped() && IsNibbleTree(tree)
    ensures Closed(tree.View())
  {
    forall q | q in tree.View()
      ensures PrefixesIn(tree.View(), q)
    {
      forall d: nat | d < |q|
        ensures q[..d] in tree.nodes && q[d] < FANOUT
      {
        tree.PathsClosed(q, d);
      }
    }
  }

  lemma ViewLevelled(tree: Tree)
    requires tree.Shaped() && IsNibbleTree(tree)
    ensures Levelled(tree.View())
  {
    ViewClosed(tree);
    forall q | q in tree.View()
      ensures NoDeeper(tree.View(), q)
    {
      tree.LevelsBound(q);
      if |q| == LEVELS {
        forall k: nat | k < FANOUT
          ensures q + [k] !in tree.View()
        {
          tree.LevelsBound(q + [k]);
        }
      }
    }
  }

  // Pushing the subtree at p + [i] does not change what was reported for the children before.
  lemma EarlierChildren(before: View, after: View, c: Content, p: Path, handed: Option<Route>, i: nat)
    requires Levelled(before) && Levelled(after) && p in before && p in after && SameOutside(before, after, p + [i])
    requires HandsDown(c) && |p| < LEVELS && handed == Deepest(c, p) && i <= FANOUT
    ensures PushingChildren(before, c, p, handed, i) == PushingChildren(after, c, p, handed, i)
  {
    forall k: nat | k < i
      ensures SamePlaces(before, after, p + [k])
    {
      forall q | p + [k] <= q
        ensures q in before <==> q in after
      {
        assert q[|p|] == (p + [k])[|p|] == k && (p + [i])[|p|] == i;
        assert !(p + [i] <= q);
      }
    }
    ChildrenFrame(before, after, c, p, handed, i);
  }

  // What leaf_push on the subtree at p has returned and freed.
  ghost predicate Reported(tree: Tree, p: Path, router: Option<Route>, replaced: bool, freed: set<Path>)
    requires Standing(tree) && HandsDown(tree.content)
    reads tree, tree.repr
  {
    && Levelled(tree.View()) && p in tree.View() && router == Inherited(tree.content, p)
    && Report(replaced, freed) == Pushing(tree.View(), tree.content, p, router)
  }

  // What its loop has gathered from the first n children.
  ghost predicate ChildrenReported(tree: Tree, p: Path, handed: Option<Route>, n: nat, replaced: bool, freed: set<Path>)
    requires Standing(tree) && HandsDown(tree.content)
    reads tree, tree.repr
  {
    && Levelled(tree.View()) && p in tree.View() && |p| < LEVELS && handed == Deepest(tree.content, p) && n <= FANOUT
    && Report(replaced, freed) == PushingChildren(tree.View(), tree.content, p, handed, n)
  }

  // The leaf case of leaf_push.
  method PushIntoLeaf(tree: Tree, ghost p: Path, node: Node, router: Option<Route>) returns (replaced: bool)
    requires Standing(tree) && HandsDown(tree.content) && p in tree.nodes && tree.nodes[p] == node
    requires UntouchedBelow(tree.View(), tree.content, p) && router == Inherited(tree.content, p)
    requires Childless(tree.View(), p)
    modifies node`router
    ensures Standing(tree) && PushedBelow(tree.View(), tree.content, p)
    ensures SameOutside(old(tree.View()), tree.View(), p)
    ensures router.Some? && At(tree.content, p).Some? ==> ValidRoute(router.value) && ValidRoute(At(tree.content, p).value)
    ensures replaced == !KeepsOwn(router, At(tree.content, p)) && tree.nodes == old(tree.nodes)
  {
    ghost var before := tree.View();
    assert Untouched(before, tree.content, p);
    KeepsDeepest(tree.content, p);
    ViewClosed(tree);
    replaced := !KeepsOwn(router, node.router);
    if replaced {
      tree.Replace(p, node, router);
    }
    assert tree.View() == before[p := Deepest(tree.content, p)];
    LeafPushed(before, tree.View(), tree.content, p);
  }

  // Where a child is missing one without a route is created.
  method MissingChild(tree: Tree, ghost p: Path, node: Node, i: nat) returns (child: Node)
    requires Standing(tree) && p in tree.nodes && tree.nodes[p] == node && |p| < LEVELS && i < FANOUT
    requires UntouchedBelow(tree.View(), tree.content, p + [i])
    modifies tree`nodes, tree`repr, node`subt
    ensures Standing(tree) && p + [i] in tree.nodes && tree.nodes[p + [i]] == child
    ensures UntouchedBelow(tree.View(), tree.content, p + [i])
    ensures SameOutside(old(tree.View()), tree.View(), p + [i])
    ensures NodesKept(old(tree.nodes), tree.nodes) && fresh(tree.repr - old(tree.repr))
  {
    assert tree.Hung(p);
    if node.subt[i] == null {
      ghost var before := tree.View();
      child := tree.AddChild(p, node, i);
      assert tree.View() == before[p + [i] := None];
      NewChildUntouched(before, tree.content, p + [i]);
    } else {
      child := node.subt[i];
    }
  }

  // One turn of the loop over the children of an inner node.
  method PushChild(tree: Tree, ghost p: Path, node: Node, i: nat, handed: Option<Route>)
    returns (replaced: bool, ghost freed: set<Path>)
    requires Standing(tree) && HandsDown(tree.content) && p in tree.nodes && tree.nodes[p] == node
    requires |p| < LEVELS && i < FANOUT && handed == Deepest(tree.content, p)
    requires UntouchedBelow(tree.View(), tree.content, p + [i])
    modifies tree`nodes, tree`repr, tree.repr
    ensures Standing(tree) && p + [i] in tree.nodes && PushedBelow(tree.View(), tree.content, p + [i])
    ensures Reported(tree, p + [i], handed, replaced, freed)
    ensures SameOutside(old(tree.View()), tree.View(), p + [i])
    ensures NodesKept(old(tree.nodes), tree.nodes) && fresh(tree.repr - old(tree.repr))
    decreases LEVELS - |p|, 0
  {
    ghost var before := tree.View();
    var child := MissingChild(tree, p, node, i);
    ghost var between := tree.View();
    assert (p + [i])[..|p|] == p;
    replaced, freed := LeafPush(tree, p + [i], child, handed);
    SameOutsideComposes(before, between, tree.View(), p + [i]);
  }

  // The loop over the children before turn n: what it has pushed, gathered and left alone. start is
  // the tree before the loop.
  ghost predicate Underway(tree: Tree, p: Path, handed: Option<Route>, n: nat, replaced: bool, freed: set<Path>, start: View)
    reads tree, tree.repr
  {
    && Standing(tree) && HandsDown(tree.content) && p in tree.nodes
    && PushedUpTo(tree.View(), tree.content, p, n)
    && ChildrenReported(tree, p, handed, n, replaced, freed)
    && SameOutside(start, tree.View(), p)
  }

  // One turn of the loop, with what the earlier turns have gathered.
  method PushTurn(tree: Tree, ghost p: Path, node: Node, i: nat, handed: Option<Route>, before: bool, ghost freedBefore: set<Path>, ghost start: View)
    returns (replaced: bool, ghost freed: set<Path>)
    requires Underway(tree, p, handed, i, before, freedBefore, start)
    requires p in tree.nodes && tree.nodes[p] == node && i < FANOUT
    modifies tree`nodes, tree`repr, tree.repr
    ensures Underway(tree, p, handed, i + 1, replaced, freed, start)
    ensures NodesKept(old(tree.nodes), tree.nodes) && fresh(tree.repr - old(tree.repr))
    decreases LEVELS - |p|, 1
  {
    ghost var was := tree.View();
    ChildUntouched(was, tree.content, p, i);
    replaced, freed := PushChild(tree, p, node, i, handed);
    ghost var now := tree.View();
    NextChildPushed(was, now, tree.content, p, i);
    assert p in now;
    EarlierChildren(was, now, tree.content, p, handed, i);
    ChildrenNext(now, tree.content, p, handed, i);
    SameOutsideGrows(start, was, now, p, i);
    replaced, freed := before || replaced, freedBefore + freed;
  }

  // Before the first turn.
  lemma NothingReported(tree: Tree, p: Path, handed: Option<Route>)
    requires Standing(tree) && HandsDown(tree.content) && p in tree.nodes && |p| < LEVELS
    requires UntouchedBelow(tree.View(), tree.content, p) && handed == Deepest(tree.content, p)
    ensures Underway(tree, p, handed, 0, false, {}, tree.View())
  {
    ViewLevelled(tree);
  }

  // After the last turn.
  lemma EverythingReported(tree: Tree, p: Path, handed: Option<Route>, replaced: bool, freed: set<Path>, start: View)
    requires Underway(tree, p, handed, FANOUT, replaced, freed, start)
    ensures PushedBelow(tree.View(), tree.content, p) && !Childless(tree.View(), p)
  {
    ViewClosed(tree);
    AllChildrenPushed(tree.View(), tree.content, p);
    assert p + [0] in tree.View();
  }

  // The loop over the children of an inner node.
  method PushChildren(tree: Tree, ghost p: Path, node: Node, handed: Option<Route>)
    returns (replaced: bool, ghost freed: set<Path>)
    requires Standing(tree) && HandsDown(tree.content) && p in tree.nodes && tree.nodes[p] == node
    requires UntouchedBelow(tree.View(), tree.content, p) && handed == Deepest(tree.content, p)
    requires |p| < LEVELS
    modifies tree`nodes, tree`repr, tree.repr
    ensures Underway(tree, p, handed, FANOUT, replaced, freed, old(tree.View()))
    ensures NodesKept(old(tree.nodes), tree.nodes) && fresh(tree.repr - old(tree.repr))
    decreases LEVELS - |p|, 2
  {
    ghost var start := tree.View();
    replaced, freed := false, {};
    NothingReported(tree, p, handed);
    for i := 0 to FANOUT
      invariant Underway(tree, p, handed, i, replaced, freed, start)
      invariant NodesKept(old(tree.nodes), tree.nodes) && fresh(tree.repr - old(tree.repr))
    {
      ghost var repr := tree.repr;
      replaced, freed := PushTurn(tree, p, node, i, handed, replaced, freed, start);
      assert fresh(tree.repr - repr);
    }
  }

  // The loop of leaf_push that looks for a child.
  method IsLeaf(tree: Tree, ghost p: Path, node: Node) returns (isLeaf: bool)
    requires Standing(tree) && p in tree.nodes && tree.nodes[p] == node
    ensures isLeaf <==> Childless(tree.View(), p)
    ensures !isLeaf ==> |p| < LEVELS
  {
    assert tree.Hung(p);
    isLeaf := true;
    for i := 0 to FANOUT
      invariant isLeaf && forall k: nat :: k < i ==> p + [k] !in tree.nodes
    {
      if node.subt[i] != null {
        assert tree.Hung(p + [i]) && p + [i] in tree.View();
        return false;
      }
    }
  }

  // leaf_push on the subtree at p, with the route handed down to it.
  method LeafPush(tree: Tree, ghost p: Path, node: Node, router: Option<Route>)
    returns (replaced: bool, ghost freed: set<Path>)
    requires Standing(tree) && HandsDown(tree.content) && p in tree.nodes && tree.nodes[p] == node
    requires UntouchedBelow(tree.View(), tree.content, p) && router == Inherited(tree.content, p)
    modifies tree`nodes, tree`repr, tree.repr
    ensures Standing(tree) && PushedBelow(tree.View(), tree.content, p)
    ensures Reported(tree, p, router, replaced, freed)
    ensures SameOutside(old(tree.View()), tree.View(), p)
    ensures NodesKept(old(tree.nodes), tree.nodes) && fresh(tree.repr - old(tree.repr))
    decreases LEVELS - |p|, 3
  {
    ghost var start := tree.View();
    assert tree.Hung(p) && Untouched(start, tree.content, p);
    KeepsDeepest(tree.content, p);
    var isLeaf := IsLeaf(tree, p, node);
    if isLeaf {
      replaced := PushIntoLeaf(tree, p, node, router);
      freed := {};
      ViewLevelled(tree);
    } else {
      var keepsOwn := KeepsOwn(router, node.router);
      var own := node.router;
      var isReplaced: bool;
      isReplaced, freed := PushChildren(tree, p, node, if keepsOwn then own else router);
      EverythingReported(tree, p, if keepsOwn then own else router, isReplaced, freed, start);
      replaced := !keepsOwn && isReplaced;
      if (!keepsOwn || !isReplaced) && own.Some? {
        freed := freed + {p};
      }
    }
  }

  // Every inner node has all children and every leaf keeps the deepest route on its path.
  ghost predicate FullyPushed(tree: Tree)
    reads tree, tree.repr
  {
    Standing(tree) && PushedBelow(tree.View(), tree.content, [])
  }

  // longest_prefix_match: the route of the deepest node on the way.
  method LongestPrefixMatch(tree: Tree, ip: nat) returns (router: Option<Route>)
    requires FullyPushed(tree)
    ensures router == Deepest(tree.content, Digits(BITS, ip))
  {
    var keys := InitKeys(ip);
    var matchT := tree.root;
    var t: Node? := tree.root;
    var i := 0;
    ghost var q: Path := [];
    while i <= LEVELS && t != null
      invariant 0 <= i <= LEVELS
      invariant t == if keys[..i] in tree.nodes then tree.nodes[keys[..i]] else null
      invariant q in tree.nodes && matchT == tree.nodes[q] && |q| <= LEVELS
      invariant q == keys[..|q|] && i == (if t == null then |q| + 1 else if i == 0 then 0 else |q| + 1)
      decreases LEVELS - i, t != null
    {
      matchT := t;
      q := keys[..i];
      if i == LEVELS {
        break;
      }
      assert q + [keys[i]] == keys[..i + 1];
      assert tree.Hung(q);
      t := t.subt[keys[i]];
      i := i + 1;
    }
    router := matchT.router;
    DeepestNodeAnswers(tree, keys, |q|);
  }

  // Where the walk stops, at a missing child or at the last level, the node has no children.
  lemma DeepestNodeAnswers(tree: Tree, keys: Path, d: nat)
    requires FullyPushed(tree) && d <= |keys| == LEVELS && keys[..d] in tree.nodes
    requires d < LEVELS ==> keys[d] < FANOUT && keys[..d + 1] !in tree.nodes
    ensures tree.nodes[keys[..d]].router == Deepest(tree.content, keys)
  {
    var q := keys[..d];
    assert Pushed(tree.View(), tree.content, q);
    if d < LEVELS {
      assert q + [keys[d]] == keys[..d + 1];
      tree.NothingDeeper(keys, d + 1);
    } else {
      assert keys == q;
      tree.LevelsBound(q + [0]);
      assert q + [0] !in tree.View();
    }
  }

  // create_tree_by_file, the file read into a list: insert everything, then push. freed are the slots
  // whose routes leaf_push frees.
  method CreatePushedTree(rs: seq<Route>) returns (tree: Tree, ghost freed: set<Path>)
    requires ValidRoutes(rs)
    ensures FullyPushed(tree) && tree.content == AllExpanded(BITS, rs)
    ensures Levelled(tree.View()) && [] in tree.View() && HandsDown(tree.content) && freed == Freed(tree.View(), tree.content)
    ensures fresh(tree) && fresh(tree.repr)
  {
    tree := NibbleTrie.CreateTree(rs);
    AllExpandedRepresents(BITS, rs);
    BuiltTriesHandDown(tree.content, rs);
    assert [] in tree.nodes && tree.nodes[[]] == tree.root;
    var replaced;
    replaced, freed := LeafPush(tree, [], tree.root, None);
  }

  // The lookups of tree_test.
  method LookUpAll(tree: Tree, rs: seq<Route>, ips: seq<nat>) returns (routers: seq<Option<Route>>)
    requires FullyPushed(tree) && Represents(BITS, tree.content, rs) && forall k :: 0 <= k < |ips| ==> ips[k] < WORD
    ensures |routers| == |ips| && forall k :: 0 <= k < |ips| ==> routers[k] == Scan(rs, ips[k])
  {
    routers := [];
    for k := 0 to |ips|
      invariant |routers| == k && forall j :: 0 <= j < k ==> routers[j] == Scan(rs, ips[j])
    {
      var router := LongestPrefixMatch(tree, ips[k]);
      DeepestIsScan(BITS, tree.content, rs, ips[k]);
      routers := routers + [router];
    }
  }

  // tree_test: build the tree and look every address up.
  method TreeTest(rs: seq<Route>, ips: seq<nat>) returns (routers: seq<Option<Route>>)
    requires ValidRoutes(rs) && forall k :: 0 <= k < |ips| ==> ips[k] < WORD
    ensures |routers| == |ips| && forall k :: 0 <= k < |ips| ==> routers[k] == Scan(rs, ips[k])
  {
    var tree, freed := CreatePushedTree(rs);
    AllExpandedRepresents(BITS, rs);
    routers := LookUpAll(tree, rs, ips);
  }
}
