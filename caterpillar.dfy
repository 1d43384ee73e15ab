/**
 * `sim_caterpillar_phylo`: the ladder-shaped tree on the labels 0 .. ntax-1,
 * grown by splitting the bottom leaf again and again.
 */
module CaterpillarSim {
  import opened PhyloTree

  /**
   * The caterpillar on the labels lo .. hi-1: a single leaf, or an unlabelled
   * node whose first child is the leaf `lo` and whose second child is the
   * caterpillar on the rest.
   */
  function Ladder(lo: int, hi: int): Node
    requires lo < hi
    decreases hi - lo
  {
    if hi - lo == 1 then Leaf(lo) else Node(Unset, 0.0, [Leaf(lo), Ladder(lo + 1, hi)])
  }

  /** The path 1, 1, ..., 1 of length `n`: always the second child. */
  function Ones(n: nat): (p: Path)
    ensures |p| == n && forall k :: 0 <= k < n ==> p[k] == 1
  {
    if n == 0 then [] else [1] + Ones(n - 1)
  }

  /** Every internal node is unlabelled and has two children, the first of them a leaf. */
  predicate Caterpillar(n: Node)
  {
    n.children == [] ||
    (n.id == Unset && |n.children| == 2 && IsLeaf(n.children[0]) && Caterpillar(n.children[1]))
  }

  /**
   * One round of the loop (lines 60-65): the bottom leaf gets two new
   * children, the first taking over its label and the second the label `v`;
   * the bottom itself becomes unlabelled, and the second child is the new
   * bottom.
   */
  method SplitLeaf(t: Node, bottom: Path, v: int) returns (r: Node, next: Path)
    requires ValidPath(t, bottom) && IsLeaf(At(t, bottom))
    ensures next == bottom + [1]
    ensures r == Replace(t, bottom, Node(Unset, At(t, bottom).length, [Leaf(At(t, bottom).id), Leaf(v)]))
  {
    var x := At(t, bottom);
    // line 60: a first new child under the bottom leaf
    var t1, n1 := InsertChild(t, bottom).0, InsertChild(t, bottom).1;
    var x1 := x.(children := [Fresh()]);
    assert x.children + [Fresh()] == [Fresh()];
    assert t1 == Replace(t, bottom, x1) && n1 == bottom + [0];
    // line 61: a second new child right after the first
    var t2, n2 := InsertSibling(t1, n1).0, InsertSibling(t1, n1).1;
    var x2 := x.(children := [Fresh(), Fresh()]);
    assert t2 == Replace(t, bottom, x2) && n2 == bottom + [1] by {
      assert Parent(n1) == bottom && Last(n1) == 0;
      assert [Fresh()][..1] + [Fresh()] + [Fresh()][1..] == [Fresh(), Fresh()];
      ReplaceTwice(t, bottom, x1, x2);
    }
    // line 62: the first new child takes over the bottom's label
    assert [0][0] == 0 && [0][1..] == [] && ValidPath(x2, [0]);
    SetIdUnder(t, bottom, x2, [0], x.id);
    var t3 := SetId(t2, n1, At(t2, bottom).id);
    var x3 := x.(children := [Leaf(x.id), Fresh()]);
    assert SetId(x2, [0], x.id) == x3 by {
      assert At(x2, [0]) == Fresh();
      assert [Fresh(), Fresh()][0 := Leaf(x.id)] == [Leaf(x.id), Fresh()];
    }
    // line 63: the bottom becomes unlabelled
    var t4 := SetId(t3, bottom, Unset);
    var x4 := x3.(id := Unset);
    assert t4 == Replace(t, bottom, x4) by {
      SetIdUnder(t, bottom, x3, [], Unset);
      assert bottom + [] == bottom;
    }
    // line 64: the second new child gets the next label
    assert [1][0] == 1 && [1][1..] == [] && ValidPath(x4, [1]);
    SetIdUnder(t, bottom, x4, [1], v);
    r := SetId(t4, n2, v);
    assert SetId(x4, [1], v) == x4.(children := [Leaf(x.id), Leaf(v)]) by {
      assert At(x4, [1]) == Fresh();
      assert [Leaf(x.id), Fresh()][1 := Leaf(v)] == [Leaf(x.id), Leaf(v)];
    }
    next := n2;
  }

  /** The bottom of the ladder is the leaf hi-1, and splitting it gives the ladder one label longer. */
  lemma {:induction false} LadderStep(lo: int, hi: int)
    requires lo < hi
    ensures ValidPath(Ladder(lo, hi), Ones(hi - lo - 1))
    ensures At(Ladder(lo, hi), Ones(hi - lo - 1)) == Leaf(hi - 1)
    ensures Replace(Ladder(lo, hi), Ones(hi - lo - 1), Node(Unset, 0.0, [Leaf(hi - 1), Leaf(hi)])) == Ladder(lo, hi + 1)
    decreases hi - lo
  {
    if hi - lo > 1 {
      LadderStep(lo + 1, hi);
      assert Ones(hi - lo - 1) == [1] + Ones(hi - lo - 2);
      assert Ones(hi - lo - 1)[0] == 1 && Ones(hi - lo - 1)[1..] == Ones(hi - lo - 2);
    }
  }

  /**
   * `sim_caterpillar_phylo(ntax)`: throws for `ntax <= 0` before building
   * anything; otherwise the ladder on 0 .. ntax-1 under the header.
   */
  method SimCaterpillarPhylo(ntax: int) returns (r: Result)
    ensures r.Error? <==> ntax <= 0
    ensures r.Ok? ==> r.tree == Header(Ladder(0, ntax))
  {
    if ntax <= 0 {
      return Error("Simulating tree with 0 or negative taxa!");
    }
    var leaves := Range(0, ntax);
    var t := SingleLeaf(leaves[0]);
    var bottom: Path := [0];
    for i := 1 to ntax
      invariant t == Header(Ladder(0, i)) && bottom == [0] + Ones(i - 1)
    {
      LadderStep(0, i);
      UnderRoot(t, Ones(i - 1), Node(Unset, 0.0, [Leaf(i - 1), Leaf(i)]));
      t, bottom := SplitLeaf(t, bottom, leaves[i]);
      assert Ones(i) == [1] + Ones(i - 1);
      assert bottom == [0] + Ones(i) by {
        OnesSnoc(i - 1);
      }
    }
    return Ok(t);
  }

  lemma {:induction false} OnesSnoc(n: nat)
    ensures Ones(n) + [1] == Ones(n + 1)
  {
  }

  // ---------------------------------------------------------------------------
  // What the ladder is

  /** The ladder on `k` labels has `2k - 1` nodes. */
  lemma {:induction false} LadderSize(lo: int, hi: int)
    requires lo < hi
    ensures Size(Ladder(lo, hi)) == 2 * (hi - lo) - 1
    decreases hi - lo
  {
    if hi - lo > 1 {
      LadderSize(lo + 1, hi);
      ForestPair(Leaf(lo), Ladder(lo + 1, hi));
    }
  }

  /** Read in pre-order, the leaves of the ladder are lo, lo+1, ..., hi-1. */
  lemma {:induction false} LadderLeafIds(lo: int, hi: int)
    requires lo < hi
    ensures LeafIds(Ladder(lo, hi)) == Range(lo, hi)
    decreases hi - lo
  {
    if hi - lo > 1 {
      LadderLeafIds(lo + 1, hi);
      ForestPair(Leaf(lo), Ladder(lo + 1, hi));
    }
  }

  /** The ladder is a bifurcating tree whose internal nodes each have a leaf as first child. */
  lemma {:induction false} LadderShape(lo: int, hi: int)
    requires lo < hi
    ensures Bifurcating(Ladder(lo, hi)) && Caterpillar(Ladder(lo, hi))
    decreases hi - lo
  {
    if hi - lo > 1 {
      LadderShape(lo + 1, hi);
      Fork(Leaf(lo), Ladder(lo + 1, hi), 0.0);
    }
  }

  /**
   * No position in the ladder on `k` labels is deeper than `k - 1`, and the
   * two positions that deep hold the leaves hi-2 and hi-1.
   */
  lemma {:induction false} LadderDepth(lo: int, hi: int, p: Path)
    requires lo < hi && ValidPath(Ladder(lo, hi), p)
    ensures |p| <= hi - lo - 1
    ensures |p| == hi - lo - 1 && hi - lo >= 2 ==> At(Ladder(lo, hi), p) in {Leaf(hi - 2), Leaf(hi - 1)}
    decreases hi - lo
  {
    if p != [] {
      var l := Ladder(lo, hi);
      assert hi - lo > 1;
      if p[0] == 0 {
        assert l.children[0] == Leaf(lo) && p[1..] == [];
      } else {
        assert l.children[1] == Ladder(lo + 1, hi);
        LadderDepth(lo + 1, hi, p[1..]);
        if |p| == hi - lo - 1 && hi - lo == 2 {
          assert p[1..] == [];
        }
      }
    }
  }

  /** The deepest internal node of the ladder on 0 .. ntax-1 joins the leaves ntax-2 and ntax-1. */
  lemma {:induction false} LadderCherry(lo: int, hi: int)
    requires hi - lo >= 2
    ensures ValidPath(Ladder(lo, hi), Ones(hi - lo - 2))
    ensures At(Ladder(lo, hi), Ones(hi - lo - 2)) == Node(Unset, 0.0, [Leaf(hi - 2), Leaf(hi - 1)])
    decreases hi - lo
  {
    if hi - lo > 2 {
      LadderCherry(lo + 1, hi);
      assert Ones(hi - lo - 2) == [1] + Ones(hi - lo - 3);
      assert Ones(hi - lo - 2)[0] == 1 && Ones(hi - lo - 2)[1..] == Ones(hi - lo - 3);
    }
  }
}
