/**
 * The balanced generators: `_sim_balanced_phylo_recurse` builds a balanced
 * binary shape whose leaves all carry the label 1, and `sim_rooted_balanced`
 * and `sim_unrooted_balanced` relabel its leaves, in pre-order, from a
 * shuffled list of the labels 0 .. ntax-1.
 *
 * The outcome of `std::random_shuffle` is the input `shuffled`: any
 * rearrangement of 0 .. ntax-1.
 */
module BalancedSim {
  import opened PhyloTree

  /**
   * The balanced shape on `n` leaves: a leaf labelled 1, or an unlabelled
   * node whose first subtree has `n - n/2` leaves and whose second has `n/2`.
   */
  function Balanced(n: int): Node
    requires n >= 1
    decreases n
  {
    if n == 1 then Leaf(1) else Node(Unset, 0.0, [Balanced(n - n / 2), Balanced(n / 2)])
  }

  /**
   * `_sim_balanced_phylo_recurse(n)`, built with the container operations:
   * a single leaf labelled 1, or a new root under which the tree for the
   * right part is grafted first and the tree for the left part second.
   * `std::ceil` is applied after the integer division, so `left` is `n/2`
   * rounded down.
   */
  function BalancedRecurse(n: int): (r: Node)
    requires n >= 1
    ensures r == Header(Balanced(n))
    decreases n
  {
    var (t0, _) := InsertChild(Empty(), []);
    assert t0 == Header(Fresh());
    if n == 1 then
      SetId(t0, [0], 1)
    else
      var left := n / 2;
      var right := n - left;
      var treeL := BalancedRecurse(left);
      var treeR := BalancedRecurse(right);
      GraftUnderRoot([], treeR);
      var (t1, _) := GraftTree(t0, [0], treeR);
      GraftUnderRoot([Balanced(right)], treeL);
      var (t2, _) := GraftTree(t1, [0], treeL);
      assert [] + [Balanced(right)] + [Balanced(left)] == [Balanced(right), Balanced(left)];
      t2
  }

  /** The balanced shape on `n` leaves has `n` leaves, all labelled 1. */
  lemma {:induction false} BalancedLeaves(n: int)
    requires n >= 1
    ensures |LeafIds(Balanced(n))| == n
    ensures forall k :: 0 <= k < n ==> LeafIds(Balanced(n))[k] == 1
    decreases n
  {
    if n > 1 {
      BalancedLeaves(n - n / 2);
      BalancedLeaves(n / 2);
      ForestPair(Balanced(n - n / 2), Balanced(n / 2));
    }
  }

  /** The balanced shape on `n` leaves has `2n - 1` nodes, and every internal node has exactly two children. */
  lemma {:induction false} BalancedShape(n: int)
    requires n >= 1
    ensures Size(Balanced(n)) == 2 * n - 1 && Bifurcating(Balanced(n))
    decreases n
  {
    if n > 1 {
      BalancedShape(n - n / 2);
      BalancedShape(n / 2);
      ForestPair(Balanced(n - n / 2), Balanced(n / 2));
      Fork(Balanced(n - n / 2), Balanced(n / 2), 0.0);
    }
  }

  /** For `n >= 2` the first subtree of the root has `n - n/2` leaves and the second `n/2`: they differ by at most one. */
  lemma {:induction false} BalancedSplit(n: int)
    requires n >= 2
    ensures |Balanced(n).children| == 2
    ensures |LeafIds(Balanced(n).children[0])| == n - n / 2 && |LeafIds(Balanced(n).children[1])| == n / 2
    ensures 0 <= |LeafIds(Balanced(n).children[0])| - |LeafIds(Balanced(n).children[1])| <= 1
  {
    BalancedLeaves(n - n / 2);
    BalancedLeaves(n / 2);
  }

  // ---------------------------------------------------------------------------
  // Relabelling the leaves in pre-order

  /**
   * The state of the relabelling loop after it has visited the first `j`
   * positions of `t` in pre-order: `r` differs from `t` only in leaf labels,
   * and the leaves among those positions carry the first labels of `ids`,
   * one each, in order.
   */
  ghost predicate LabelledUpTo(r: Node, t: Node, ids: seq<int>, j: nat)
  {
    |t.children| == 1 && |r.children| == 1 && r.id == t.id && r.length == t.length &&
    SameExceptLeafIds(Root(r), Root(t)) && j <= |Pre(Root(t))| &&
    |LeafIdsAlong(Root(t), Pre(Root(t))[..j])| <= |ids| &&
    LeafIdsAlong(Root(r), Pre(Root(t))[..j]) == ids[..|LeafIdsAlong(Root(t), Pre(Root(t))[..j])|]
  }

  /** What both kinds of step rely on: the `j`-th position, and whether it holds a leaf. */
  lemma {:induction false} RelabelVisit(r: Node, t: Node, ids: seq<int>, j: nat)
    requires LabelledUpTo(r, t, ids, j) && j < |Pre(Root(t))| && |LeafIds(Root(t))| == |ids|
    ensures Pre(Root(r)) == Pre(Root(t))
    ensures ValidPath(Root(t), Pre(Root(t))[j]) && ValidPath(Root(r), Pre(Root(t))[j])
    ensures ValidPath(r, [0] + Pre(Root(t))[j]) && At(r, [0] + Pre(Root(t))[j]) == At(Root(r), Pre(Root(t))[j])
    ensures IsLeaf(At(Root(r), Pre(Root(t))[j])) == IsLeaf(At(Root(t), Pre(Root(t))[j]))
    ensures Pre(Root(t))[..j + 1] == Pre(Root(t))[..j] + [Pre(Root(t))[j]]
    ensures |LeafIdsAlong(Root(t), Pre(Root(t))[..j + 1])| <= |ids|
  {
    var ps := Pre(Root(t));
    var y := ps[j];
    SameShape(Root(r), Root(t));
    PreWalk(Root(t), j);
    PreWalk(Root(r), j);
    SameAt(Root(r), Root(t), y);
    UnderRoot(r, y, At(Root(r), y));
    assert ps[..j + 1] == ps[..j] + [y];
    assert |LeafIdsAlong(Root(t), ps[..j + 1])| <= |LeafIdsAlong(Root(t), ps)| by {
      assert ps == ps[..j + 1] + ps[j + 1..];
      LeafIdsAlongAppend(Root(t), ps[..j + 1], ps[j + 1..]);
    }
    LeafIdsAlongPre(Root(t));
  }

  /** A step at a leaf: writing the next label there extends the labelled prefix by one position. */
  lemma {:induction false} RelabelLeafStep(r: Node, t: Node, ids: seq<int>, j: nat, i: nat)
    requires LabelledUpTo(r, t, ids, j) && j < |Pre(Root(t))| && |LeafIds(Root(t))| == |ids|
    requires i == |LeafIdsAlong(Root(t), Pre(Root(t))[..j])|
    requires ValidPath(r, [0] + Pre(Root(t))[j]) && IsLeaf(At(r, [0] + Pre(Root(t))[j]))
    ensures i < |ids|
    ensures var r' := SetId(r, [0] + Pre(Root(t))[j], ids[i]);
      LabelledUpTo(r', t, ids, j + 1) && i + 1 == |LeafIdsAlong(Root(t), Pre(Root(t))[..j + 1])| &&
      NextPre(r', [0] + Pre(Root(t))[j]) ==
        if j + 1 < |Pre(Root(t))| then Some([0] + Pre(Root(t))[j + 1]) else None
  {
    var ps := Pre(Root(t));
    var y := ps[j];
    RelabelVisit(r, t, ids, j);
    assert LeafIdsAlong(Root(t), ps[..j + 1]) == LeafIdsAlong(Root(t), ps[..j]) + [At(Root(t), y).id] by {
      assert ps[..j + 1][..j] == ps[..j];
    }
    var v := ids[i];
    var r' := SetId(r, [0] + y, v);
    var s := At(Root(r), y).(id := v);
    assert Root(r') == SetId(Root(r), y, v) && |r'.children| == 1 && r'.id == r.id && r'.length == r.length by {
      UnderRoot(r, y, s);
    }
    assert SameExceptLeafIds(Root(r'), Root(t)) by {
      SetIdLeaf(Root(r), y, v);
      SameTransitive(Root(r'), Root(r), Root(t));
    }
    assert LeafIdsAlong(Root(r'), ps[..j]) == ids[..i] by {
      forall k | 0 <= k < j ensures ps[k] != y {
        PreDistinct(Root(t), k, j);
      }
      assert y !in ps[..j];
      SetIdAlong(Root(r), y, v, ps[..j]);
    }
    assert LeafIdsAlong(Root(r'), ps[..j + 1]) == ids[..i + 1] by {
      assert ps[..j + 1][..j] == ps[..j];
      assert At(Root(r'), y) == s;
      assert ids[..i + 1] == ids[..i] + [v];
    }
    assert NextPre(r', [0] + y) == if j + 1 < |ps| then Some([0] + ps[j + 1]) else None by {
      SameShape(Root(r'), Root(t));
      PreWalkUnderRoot(r', j);
    }
  }

  /** A step at an internal node changes nothing. */
  lemma {:induction false} RelabelSkipStep(r: Node, t: Node, ids: seq<int>, j: nat, i: nat)
    requires LabelledUpTo(r, t, ids, j) && j < |Pre(Root(t))| && |LeafIds(Root(t))| == |ids|
    requires i == |LeafIdsAlong(Root(t), Pre(Root(t))[..j])|
    requires ValidPath(r, [0] + Pre(Root(t))[j]) && !IsLeaf(At(r, [0] + Pre(Root(t))[j]))
    ensures LabelledUpTo(r, t, ids, j + 1) && i == |LeafIdsAlong(Root(t), Pre(Root(t))[..j + 1])|
    ensures NextPre(r, [0] + Pre(Root(t))[j]) ==
      if j + 1 < |Pre(Root(t))| then Some([0] + Pre(Root(t))[j + 1]) else None
  {
    var ps := Pre(Root(t));
    RelabelVisit(r, t, ids, j);
    assert ps[..j + 1][..j] == ps[..j];
    PreWalkUnderRoot(r, j);
  }

  /** Once every position is visited, the leaves read in pre-order are exactly `ids`. */
  lemma {:induction false} RelabelDone(r: Node, t: Node, ids: seq<int>)
    requires |t.children| == 1 && LabelledUpTo(r, t, ids, |Pre(Root(t))|) && |LeafIds(Root(t))| == |ids|
    ensures LeafIds(Root(r)) == ids
  {
    var ps := Pre(Root(t));
    assert ps[..|ps|] == ps;
    LeafIdsAlongPre(Root(t));
    SameShape(Root(r), Root(t));
    LeafIdsAlongPre(Root(r));
  }

  /**
   * The loop of lines 98-102 and 130-134: walk the whole tree from the
   * root with `next_pre()` and write the next label of `ids` into every leaf
   * met. Nothing but leaf labels changes, and the labels read in pre-order
   * afterwards are `ids`.
   */
  method RelabelLeaves(t: Node, ids: seq<int>) returns (r: Node)
    requires |t.children| == 1 && |LeafIds(Root(t))| == |ids|
    ensures |r.children| == 1 && r.id == t.id && r.length == t.length
    ensures SameExceptLeafIds(Root(r), Root(t)) && LeafIds(Root(r)) == ids
  {
    PreSize(Root(t));
    SameReflexive(Root(t));
    assert Pre(Root(t))[..0] == [] && [0] + Pre(Root(t))[0] == [0];
    r := t;
    var i := 0;
    var p: Option<Path> := Some([0]);
    ghost var j: nat := 0;
    while p.Some?
      invariant LabelledUpTo(r, t, ids, j)
      invariant i == |LeafIdsAlong(Root(t), Pre(Root(t))[..j])|
      invariant p == if j < |Pre(Root(t))| then Some([0] + Pre(Root(t))[j]) else None
      decreases |Pre(Root(t))| - j
    {
      RelabelVisit(r, t, ids, j);
      if IsLeaf(At(r, p.value)) {
        RelabelLeafStep(r, t, ids, j, i);
        r := SetId(r, p.value, ids[i]);
        i := i + 1;
      } else {
        RelabelSkipStep(r, t, ids, j, i);
      }
      p := NextPre(r, p.value);
      j := j + 1;
    }
    RelabelDone(r, t, ids);
  }

  // ---------------------------------------------------------------------------
  // The generators

  /**
   * `sim_rooted_balanced(ntax)`: the balanced shape on `ntax` leaves with
   * its leaves, read in pre-order, labelled by `shuffled`. The source has
   * no guard for `ntax <= 0`, where the recursion never ends.
   */
  method SimRootedBalanced(ntax: int, shuffled: seq<int>) returns (r: Node)
    requires ntax >= 1 && multiset(shuffled) == multiset(Range(0, ntax))
    ensures |r.children| == 1 && SameExceptLeafIds(Root(r), Balanced(ntax))
    ensures LeafIds(Root(r)) == shuffled && |shuffled| == ntax
    ensures Size(Root(r)) == 2 * ntax - 1 && Bifurcating(Root(r))
    ensures forall a, b :: 0 <= a < b < ntax ==> LeafIds(Root(r))[a] != LeafIds(Root(r))[b]
  {
    var tree := BalancedRecurse(ntax);
    BalancedLeaves(ntax);
    assert |shuffled| == ntax by {
      assert |multiset(shuffled)| == |multiset(Range(0, ntax))|;
    }
    r := RelabelLeaves(tree, shuffled);
    BalancedShape(ntax);
    SameShape(Root(r), Balanced(ntax));
    PermutationDistinct(shuffled, 0, ntax);
  }

  /**
   * The sizes of the three subtrees of `sim_unrooted_balanced` (lines
   * 119-121): they add up to `ntax`, come in decreasing order, and for
   * `ntax >= 3` are all at least 1 and differ by at most one.
   */
  function Split3(ntax: int): (r: (int, int, int))
    requires ntax >= 0
    ensures r.0 + r.1 + r.2 == ntax
    ensures ntax >= 3 ==> r.0 >= r.1 >= r.2 >= 1 && r.0 - r.2 <= 1
  {
    var n3 := ntax / 3;
    var n2 := (ntax - n3) / 2;
    (ntax - n2 - n3, n2, n3)
  }

  /** The unlabelled three-way shape of `sim_unrooted_balanced`: subtrees for `n3`, `n2`, `n1`, in that order. */
  function Unrooted(ntax: int): Node
    requires ntax >= 3
  {
    var (n1, n2, n3) := Split3(ntax);
    Node(Unset, 0.0, [Balanced(n3), Balanced(n2), Balanced(n1)])
  }

  /**
   * Lines 116-128: a new root, then the three trees grafted under it in the
   * order given.
   */
  method GraftThree(x: Node, y: Node, z: Node) returns (t: Node)
    requires x.children != [] && y.children != [] && z.children != []
    ensures t == Header(Node(Unset, 0.0, [Root(x), Root(y), Root(z)]))
  {
    var a, b, c := Root(x), Root(y), Root(z);
    var (t0, _) := InsertChild(Empty(), []);
    assert t0 == Header(Fresh());
    GraftUnderRoot([], x);
    t := GraftTree(t0, [0], x).0;
    GraftUnderRoot([a], y);
    t := GraftTree(t, [0], y).0;
    GraftUnderRoot([a, b], z);
    t := GraftTree(t, [0], z).0;
    assert [] + [a] + [b] + [c] == [a, b, c];
  }

  /** The three-way shape has `ntax` leaves, and its subtrees `n3`, `n2` and `n1` of them. */
  lemma {:induction false} UnrootedLeaves(ntax: int)
    requires ntax >= 3
    ensures |LeafIds(Unrooted(ntax))| == ntax
    ensures |Unrooted(ntax).children| == 3
    ensures |LeafIds(Unrooted(ntax).children[0])| == Split3(ntax).2
    ensures |LeafIds(Unrooted(ntax).children[1])| == Split3(ntax).1
    ensures |LeafIds(Unrooted(ntax).children[2])| == Split3(ntax).0
  {
    var (n1, n2, n3) := Split3(ntax);
    BalancedLeaves(n1);
    BalancedLeaves(n2);
    BalancedLeaves(n3);
    ForestTriple(Balanced(n3), Balanced(n2), Balanced(n1));
  }

  /** Three subtrees shaped like those of `Unrooted(ntax)`, under one node, make a tree shaped like it with `ntax` leaves. */
  lemma {:induction false} ThreeWay(a: Node, b: Node, c: Node, ntax: int)
    requires ntax >= 3
    requires SameExceptLeafIds(a, Balanced(Split3(ntax).2))
    requires SameExceptLeafIds(b, Balanced(Split3(ntax).1))
    requires SameExceptLeafIds(c, Balanced(Split3(ntax).0))
    ensures SameExceptLeafIds(Node(Unset, 0.0, [a, b, c]), Unrooted(ntax))
    ensures |LeafIds(Node(Unset, 0.0, [a, b, c]))| == ntax
  {
    var u := Unrooted(ntax);
    assert u.children == [Balanced(Split3(ntax).2), Balanced(Split3(ntax).1), Balanced(Split3(ntax).0)];
    UnrootedLeaves(ntax);
    SameShape(Node(Unset, 0.0, [a, b, c]), u);
  }

  /**
   * A tree shaped like `Unrooted(ntax)` has three subtrees under its root,
   * with `n3`, `n2` and `n1` leaves in that order.
   */
  lemma {:induction false} UnrootedChildLeaves(t: Node, ntax: int)
    requires ntax >= 3 && SameExceptLeafIds(t, Unrooted(ntax))
    ensures |t.children| == 3
    ensures |LeafIds(t.children[0])| == Split3(ntax).2
    ensures |LeafIds(t.children[1])| == Split3(ntax).1
    ensures |LeafIds(t.children[2])| == Split3(ntax).0
  {
    var u := Unrooted(ntax);
    UnrootedLeaves(ntax);
    forall k | 0 <= k < 3 ensures |LeafIds(t.children[k])| == |LeafIds(u.children[k])| {
      SameShape(t.children[k], u.children[k]);
    }
  }

  /**
   * `sim_unrooted_balanced(ntax)`: for `ntax < 3`, the rooted version;
   * otherwise a root with three balanced subtrees of `n3`, `n2` and `n1`
   * leaves, in that order, and the leaves of the whole tree, read in
   * pre-order, labelled by `shuffled`.
   */
  method SimUnrootedBalanced(ntax: int, shuffled: seq<int>) returns (r: Node)
    requires ntax >= 1 && multiset(shuffled) == multiset(Range(0, ntax))
    ensures |r.children| == 1 && LeafIds(Root(r)) == shuffled && |shuffled| == ntax
    ensures forall a, b :: 0 <= a < b < ntax ==> LeafIds(Root(r))[a] != LeafIds(Root(r))[b]
    ensures ntax < 3 ==> SameExceptLeafIds(Root(r), Balanced(ntax))
    ensures ntax >= 3 ==> SameExceptLeafIds(Root(r), Unrooted(ntax))
  {
    if ntax < 3 {
      r := SimRootedBalanced(ntax, shuffled);
      return;
    }
    var t := ThreeBalanced(ntax);
    assert |shuffled| == ntax by {
      assert |multiset(shuffled)| == |multiset(Range(0, ntax))|;
    }
    r := RelabelLeaves(t, shuffled);
    SameTransitive(Root(r), Root(t), Unrooted(ntax));
    PermutationDistinct(shuffled, 0, ntax);
  }

  /**
   * Lines 116-128 before the relabelling: three rooted balanced trees of
   * `n1`, `n2` and `n3` leaves, grafted under a new root in the order
   * `n3`, `n2`, `n1`.
   */
  method ThreeBalanced(ntax: int) returns (t: Node)
    requires ntax >= 3
    ensures |t.children| == 1 && SameExceptLeafIds(Root(t), Unrooted(ntax)) && |LeafIds(Root(t))| == ntax
  {
    var (n1, n2, n3) := Split3(ntax);
    var tree1 := SimRootedBalanced(n1, Range(0, n1));
    var tree2 := SimRootedBalanced(n2, Range(0, n2));
    var tree3 := SimRootedBalanced(n3, Range(0, n3));
    t := GraftThree(tree3, tree2, tree1);
    ThreeWay(Root(tree3), Root(tree2), Root(tree1), ntax);
  }
}
