/** Tries as linked nodes on the heap. A ghost map from paths to nodes gives each node its place,
    so the shape of the whole tree is stated without recursion. */
module TrieHeap {
  import opened Wrappers
  import opened Routes
  import opened Contents

  // naive_ip_tree_t and advance_ip_tree_t: a fixed-size array of child pointers inside the node
  // and the route kept there, if any. place records the node's path from the root.
  class Node {
    ghost const place: Path
    var subt: seq<Node?>
    var router: Option<Route>

    // A node without children or route.
    constructor (fanout: nat, ghost place: Path)
      ensures subt == seq(fanout, i => null) && router == None && this.place == place
    {
      this.place := place;
      subt := seq(fanout, i => null);
      router := None;
    }
  }

  type View = map<Path, Option<Route>>

  lemma SameParent(q: Path, p: Path, k: nat)
    ensures forall j: nat :: q + [j] == p + [k] ==> q == p && j == k
  {
    forall j: nat | q + [j] == p + [k]
      ensures q == p && j == k
    {
      assert (q + [j])[..|q|] == q && (p + [k])[..|p|] == p;
      assert (q + [j])[|q|] == j;
    }
  }

  class Tree {
    const fanout: nat
    const levels: nat
    const root: Node
    ghost var nodes: map<Path, Node>
    ghost var repr: set<Node>
    ghost var content: Content

    ghost function ChildAt(p: Path, k: nat): Node?
      reads this`nodes
    {
      if p + [k] in nodes then nodes[p + [k]] else null
    }

    // The node for p knows its place, its parent is there, and its children are those of the map.
    ghost predicate Hung(p: Path)
      requires p in nodes
      reads this`nodes, this`repr, {nodes[p]}`subt
    {
      && nodes[p].place == p && |p| <= levels
      && (p != [] ==> p[..|p| - 1] in nodes && p[|p| - 1] < fanout)
      && |nodes[p].subt| == fanout
      && (forall k: nat :: k < fanout ==> nodes[p].subt[k] == ChildAt(p, k))
    }

    // The route kept at each node's place.
    ghost function View(): View
      requires forall p :: p in nodes ==> nodes[p] in repr
      reads this`nodes, this`repr, repr`router
    {
      map p | p in nodes :: nodes[p].router
    }

    ghost predicate Shaped()
      reads this`nodes, this`repr, repr`subt
    {
      && [] in nodes && nodes[[]] == root
      && (forall p :: p in nodes ==> nodes[p] in repr)
      && (forall p {:trigger Hung(p)} :: p in nodes ==> Hung(p))
    }

    // Each node keeps the route of its slot, and no filled slot lacks its node.
    ghost predicate Filled()
      requires Shaped()
      reads this, repr
    {
      && (forall p :: p in nodes ==> nodes[p].router == At(content, p))
      && (forall p :: p in content ==> p in nodes)
    }

    ghost predicate Valid()
      reads this, repr
    {
      Shaped() && Filled()
    }

    constructor (fanout: nat, levels: nat)
      ensures Valid() && this.fanout == fanout && this.levels == levels && content == map[]
      ensures fresh(repr)
    {
      this.fanout := fanout;
      this.levels := levels;
      var node := new Node(fanout, []);
      root := node;
      nodes := map[[] := node];
      repr := {node};
      content := map[];
    }

    lemma ParentPresent(p: Path)
      requires Shaped()
      ensures p in nodes && p != [] ==> p[..|p| - 1] in nodes
    {
      if p in nodes { assert Hung(p); }
    }

    lemma PathsClosed(q: Path, d: nat)
      requires Shaped() && q in nodes && d < |q|
      ensures q[..d] in nodes && q[d] < fanout
      decreases |q|
    {
      assert Hung(q);
      if d < |q| - 1 {
        assert q[..|q| - 1][..d] == q[..d];
        PathsClosed(q[..|q| - 1], d);
      }
    }

    lemma LevelsBound(p: Path)
      requires Shaped()
      ensures p in nodes ==> |p| <= levels
    {
      if p in nodes { assert Hung(p); }
    }

    // A slot that no node stands for has no node below it.
    lemma NothingBelow(p: Path, d: nat)
      requires Shaped() && d <= |p| && p[..d] !in nodes
      ensures p !in nodes
      decreases |p|
    {
      if d < |p| {
        assert p[..|p| - 1][..d] == p[..d];
        NothingBelow(p[..|p| - 1], d);
        ParentPresent(p);
      } else {
        assert p[..d] == p;
      }
    }

    // Below a missing node the deepest filled slot stays the same.
    lemma NothingDeeper(p: Path, d: nat)
      requires Shaped() && (forall q :: q in content ==> q in nodes) && 0 < d <= |p| && p[..d] !in nodes
      ensures Deepest(content, p) == Deepest(content, p[..d - 1])
      decreases |p|
    {
      NothingBelow(p, d);
      var q := p[..|p| - 1];
      if d < |p| {
        assert q[..d] == p[..d] && q[..d - 1] == p[..d - 1];
        NothingDeeper(q, d);
      } else {
        assert p[..d] == p;
      }
    }

    lemma NoGrandchildren(p: Path, k: nat)
      requires Shaped() && p + [k] !in nodes
      ensures forall j: nat :: p + [k] + [j] !in nodes
    {
      forall j: nat
        ensures p + [k] + [j] !in nodes
      {
        assert (p + [k] + [j])[..|p| + 1] == p + [k];
        NothingBelow(p + [k] + [j], |p| + 1);
      }
    }

    // Links a fresh node as child k.
    method AddChild(ghost p: Path, node: Node, k: nat) returns (child: Node)
      requires Shaped() && p in nodes && nodes[p] == node && |p| < levels && k < fanout
      requires p + [k] !in nodes
      modifies this`nodes, this`repr, node`subt
      ensures Shaped() && nodes == old(nodes)[p + [k] := child] && repr == old(repr) + {child}
      ensures fresh(child) && child.router == None
    {
      assert Hung(p);
      NoGrandchildren(p, k);
      child := new Node(fanout, p + [k]);
      node.subt := node.subt[k := child];
      nodes := nodes[p + [k] := child];
      repr := repr + {child};
      assert (p + [k])[..|p|] == p;
      forall q | q in nodes
        ensures Hung(q)
      {
        SameParent(q, p, k);
        if q in old(nodes) {
          assert old(Hung(q));
          assert forall j: nat :: (q != p || j != k) ==> ChildAt(q, j) == old(ChildAt(q, j));
        } else {
          assert forall j: nat :: ChildAt(q, j) == null;
        }
      }
    }

    // One step of a walk that creates missing nodes.
    method Descend(ghost p: Path, node: Node, k: nat) returns (child: Node)
      requires Valid() && p in nodes && nodes[p] == node && |p| < levels && k < fanout
      modifies this`nodes, this`repr, node`subt
      ensures Valid() && p + [k] in nodes && nodes[p + [k]] == child && child in repr
      ensures fresh(repr - old(repr))
      ensures forall q :: q in old(nodes) ==> q in nodes && nodes[q] == old(nodes[q])
    {
      assert Hung(p);
      if node.subt[k] == null {
        child := AddChild(p, node, k);
      } else {
        child := node.subt[k];
      }
    }

    // The walk along keys[..depth], creating the nodes that are missing on the way.
    method WalkTo(keys: Path, depth: nat) returns (node: Node)
      requires Valid() && depth <= |keys| && depth <= levels
      requires forall k :: 0 <= k < |keys| ==> keys[k] < fanout
      modifies this`nodes, this`repr, repr
      ensures Valid()
      ensures keys[..depth] in nodes && node == nodes[keys[..depth]]
      ensures fresh(repr - old(repr))
    {
      node := root;
      ghost var p: Path := [];
      for i := 0 to depth
        invariant Valid() && p == keys[..i]
        invariant p in nodes && node == nodes[p] && node in repr
        invariant fresh(repr - old(repr))
      {
        assert keys[..i + 1] == p + [keys[i]];
        node := Descend(p, node, keys[i]);
        p := p + [keys[i]];
      }
    }

    // Overwriting the route of one node.
    method Replace(ghost p: Path, node: Node, router: Option<Route>)
      requires Shaped() && p in nodes && nodes[p] == node
      modifies node`router
      ensures View() == old(View())[p := router]
    {
      node.router := router;
      assert Hung(p);
      assert forall q :: q in nodes ==> Hung(q);
    }

    // Filling the slot p.
    method Put(ghost p: Path, node: Node, r: Route)
      requires Valid() && p in nodes && nodes[p] == node
      modifies this`content, node`router
      ensures Valid() && content == old(content)[p := r]
    {
      Replace(p, node, Some(r));
      content := content[p := r];
      assert forall q :: q in nodes ==> View()[q] == nodes[q].router;
    }
  }
}
