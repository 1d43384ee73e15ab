/**
 * `sim_uniform_phylo`: a tree grown by attaching leaf 1, 2, ... in turn
 * above a node picked at random from the tree built so far.
 *
 * The draws of `std::rand()` are the input `rand`: the draw made for leaf
 * `i` is `rand(i)`, and the node it picks is the one `rand(i) % nnodes`
 * steps from the root in pre-order.
 */
module UniformSim {
  import opened PhyloTree

  /**
   * One step (insert a sibling `z` after `p`, graft `p` under `z`, insert a
   * sibling after `p` and label it): a new internal node takes the place of
   * `p`, with `p`'s subtree unchanged as its first child and leaf `i` as its
   * second.
   */
  method AttachLeaf(t: Node, p: Path, i: int) returns (r: Node)
    requires ValidPath(t, p) && p != []
    ensures r == Replace(t, p, Node(Unset, 0.0, [At(t, p), Leaf(i)]))
  {
    ParentValid(t, p);
    var q, k := Parent(p), Last(p);
    assert p == q + [k] && q + [k, 0] == p + [0];
    SpliceAbove(t, q, k);
    var above := Node(Unset, 0.0, [At(t, p)]);
    // lines 32-33: a new node after p, and p moved under it
    var t1, z := InsertSibling(t, p).0, InsertSibling(t, p).1;
    var t2, p2 := GraftChild(t1, z, p).0, GraftChild(t1, z, p).1;
    assert t2 == Replace(t, p, above) && p2 == p + [0];
    // lines 35-36: a new node after p, under the new parent, labelled i
    HangLeaf(t2, p, i);
    var t3, l := InsertSibling(t2, p2).0, InsertSibling(t2, p2).1;
    r := SetId(t3, l, i);
    ReplaceTwice(t, p, above, Node(Unset, 0.0, [At(t, p), Leaf(i)]));
  }

  /** Inserting a sibling after the only child of `p` and labelling it hangs leaf `i` beside that child. */
  lemma {:induction false} HangLeaf(t: Node, p: Path, i: int)
    requires ValidPath(t, p) && |At(t, p).children| == 1
    ensures ValidPath(t, p + [0])
    ensures var (t3, l) := InsertSibling(t, p + [0]);
      ValidPath(t3, l) &&
      SetId(t3, l, i) == Replace(t, p, At(t, p).(children := [At(t, p).children[0], Leaf(i)]))
  {
    var x := At(t, p);
    var x3 := x.(children := [x.children[0], Fresh()]);
    AtConcat(t, p, [0]);
    assert InsertSibling(t, p + [0]) == (Replace(t, p, x3), p + [1]) by {
      assert Parent(p + [0]) == p && Last(p + [0]) == 0;
      assert x.children[..1] + [Fresh()] + x.children[1..] == [x.children[0], Fresh()];
    }
    ReplaceUnder(t, p, x3, [1], Leaf(i));
    assert SetId(Replace(t, p, x3), p + [1], i) == Replace(t, p, x.(children := [x.children[0], Leaf(i)])) by {
      assert [1][0] == 1 && [1][1..] == [];
      assert Replace(x3, [1], Leaf(i)) == x.(children := [x.children[0], Leaf(i)]);
      ReplaceTwice(t, p, x3, x.(children := [x.children[0], Leaf(i)]));
    }
  }

  /**
   * What one step does to the whole tree: the header keeps its one root, the
   * tree gains two nodes and the label `i`, and stays bifurcating.
   */
  lemma {:induction false} AttachLeafShape(t: Node, x: Path, i: int)
    requires |t.children| == 1 && ValidPath(Root(t), x) && Bifurcating(Root(t))
    ensures ValidPath(t, [0] + x)
    ensures var r := Replace(t, [0] + x, Node(Unset, 0.0, [At(t, [0] + x), Leaf(i)]));
      |r.children| == 1 && r.id == t.id && r.length == t.length &&
      Size(Root(r)) == Size(Root(t)) + 2 && Bifurcating(Root(r)) &&
      multiset(LeafIds(Root(r))) == multiset(LeafIds(Root(t))) + multiset{i}
  {
    var a := At(Root(t), x);
    var fork := Node(Unset, 0.0, [a, Leaf(i)]);
    UnderRoot(t, x, fork);
    var root' := Replace(Root(t), x, fork);
    assert Root(Replace(t, [0] + x, fork)) == root';
    assert Size(root') == Size(Root(t)) + 2 by {
      ReplaceSize(Root(t), x, fork);
      ForestPair(a, Leaf(i));
    }
    assert Bifurcating(root') by {
      AtBifurcating(Root(t), x);
      Fork(a, Leaf(i), 0.0);
      ReplaceBifurcating(Root(t), x, fork);
    }
    assert multiset(LeafIds(root')) == multiset(LeafIds(Root(t))) + multiset{i} by {
      ForestPair(a, Leaf(i));
      ReplaceLeafIds(Root(t), x, fork, multiset{i});
    }
  }

  /**
   * `sim_uniform_phylo(tree, ntax)`: throws for `ntax <= 0`; otherwise a
   * tree with one root, `2*ntax - 1` nodes, every internal node unlabelled
   * with two children, and the leaves labelled 0 .. ntax-1, once each.
   */
  method SimUniformPhylo(ntax: int, rand: nat -> nat) returns (r: Result)
    ensures r.Error? <==> ntax <= 0
    ensures r.Ok? ==> |r.tree.children| == 1 && Size(Root(r.tree)) == 2 * ntax - 1
    ensures r.Ok? ==> Bifurcating(Root(r.tree)) && multiset(LeafIds(Root(r.tree))) == multiset(Range(0, ntax))
  {
    if ntax <= 0 {
      return Error("Simulating tree with 0 or negative taxa!");
    }
    var t := SingleLeaf(0);
    var nnodes := 1;
    for i := 1 to ntax
      invariant |t.children| == 1 && nnodes == Size(Root(t)) == 2 * i - 1
      invariant Bifurcating(Root(t)) && multiset(LeafIds(Root(t))) == multiset(Range(0, i))
    {
      var pos := rand(i) % nnodes;
      var p := WalkPre(t, pos);
      AttachLeafShape(t, Pre(Root(t))[pos], i);
      RangeSnoc(0, i);
      t := AttachLeaf(t, p, i);
      nnodes := nnodes + 2;
    }
    return Ok(t);
  }

  /** `pos` steps of `next_pre()` from the root. */
  method WalkPre(t: Node, pos: nat) returns (p: Path)
    requires |t.children| == 1 && pos < Size(Root(t))
    ensures |Pre(Root(t))| == Size(Root(t)) && ValidPath(Root(t), Pre(Root(t))[pos])
    ensures p == [0] + Pre(Root(t))[pos]
  {
    PreSize(Root(t));
    PreWalk(Root(t), pos);
    p := [0];
    assert p == [0] + Pre(Root(t))[0];
    for j := 0 to pos
      invariant p == [0] + Pre(Root(t))[j]
    {
      PreWalkUnderRoot(t, j);
      p := NextPre(t, p).value;
    }
  }
}
