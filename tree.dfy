/**
 * The part of Phylib's `phylo<T>` container that the random-tree generators use.
 *
 * A phylo is an ordered multi-way tree under a virtual header node.  Here the
 * whole tree is the header `Node`: path [] is `header()`, path [0] is `root()`,
 * and a position ("iterator") is the path of child indices that leads to it.
 * Sibling order is the order of `children`.
 */
module PhyloTree {

  datatype Option<T> = None | Some(value: T)

  /** A generator's outcome: the tree, or the `PhylibException` it throws. */
  datatype Result = Error(message: string) | Ok(tree: Node)

  /** The label of a node that stands for no taxon. */
  const Unset: int := -1

  /** A node with its payload: taxon label `id` and branch `length`. */
  datatype Node = Node(id: int, length: real, children: seq<Node>)

  /** A position: child indices from the node it is taken from. */
  type Path = seq<nat>

  /** The node that `insert_child` and `insert_sibling` create. */
  function Fresh(): Node { Node(Unset, 0.0, []) }

  function Leaf(id: int): Node { Node(id, 0.0, []) }

  /** A tree that has just been created: a header with no root. */
  function Empty(): Node { Fresh() }

  /** A tree whose header holds `root`. */
  function Header(root: Node): Node { Node(Unset, 0.0, [root]) }

  function Root(t: Node): Node
    requires t.children != []
  {
    t.children[0]
  }

  /** `leaf()`: a node without children, i.e. a subtree of one node. */
  function IsLeaf(n: Node): (b: bool)
    ensures b <==> Size(n) == 1
  {
    assert n.children != [] ==> ForestSize(n.children) >= Size(n.children[|n.children| - 1]) >= 1;
    n.children == []
  }

  function Parent(p: Path): Path requires p != [] { p[..|p| - 1] }

  function Last(p: Path): nat requires p != [] { p[|p| - 1] }

  predicate IsPrefix(a: Path, b: Path) { |a| <= |b| && b[..|a|] == a }

  // ---------------------------------------------------------------------------
  // Positions

  predicate ValidPath(n: Node, p: Path)
    decreases |p|
  {
    p == [] || (p[0] < |n.children| && ValidPath(n.children[p[0]], p[1..]))
  }

  /** The subtree at position `p`. */
  function At(n: Node, p: Path): Node
    requires ValidPath(n, p)
    decreases |p|
  {
    if p == [] then n else At(n.children[p[0]], p[1..])
  }

  /** `n` with the subtree at `p` replaced by `s`. */
  function Replace(n: Node, p: Path, s: Node): (r: Node)
    requires ValidPath(n, p)
    ensures ValidPath(r, p) && At(r, p) == s
    ensures p != [] ==> r.id == n.id && r.length == n.length && |r.children| == |n.children|
    decreases |p|
  {
    if p == [] then s
    else n.(children := n.children[p[0] := Replace(n.children[p[0]], p[1..], s)])
  }

  lemma {:induction false} AtConcat(n: Node, p: Path, q: Path)
    requires ValidPath(n, p)
    ensures ValidPath(n, p + q) <==> ValidPath(At(n, p), q)
    ensures ValidPath(n, p + q) ==> At(n, p + q) == At(At(n, p), q)
    decreases |p|
  {
    if p == [] {
      assert p + q == q;
    } else {
      assert (p + q)[0] == p[0] && (p + q)[1..] == p[1..] + q;
      AtConcat(n.children[p[0]], p[1..], q);
    }
  }

  lemma {:induction false} ReplaceConcat(n: Node, p: Path, q: Path, s: Node)
    requires ValidPath(n, p) && ValidPath(At(n, p), q)
    ensures ValidPath(n, p + q)
    ensures Replace(n, p + q, s) == Replace(n, p, Replace(At(n, p), q, s))
    decreases |p|
  {
    AtConcat(n, p, q);
    if p == [] {
      assert p + q == q;
    } else {
      assert (p + q)[0] == p[0] && (p + q)[1..] == p[1..] + q;
      ReplaceConcat(n.children[p[0]], p[1..], q, s);
    }
  }

  lemma {:induction false} ReplaceTwice(n: Node, p: Path, s: Node, s': Node)
    requires ValidPath(n, p)
    ensures Replace(Replace(n, p, s), p, s') == Replace(n, p, s')
    decreases |p|
  {
    if p != [] {
      ReplaceTwice(n.children[p[0]], p[1..], s, s');
    }
  }

  lemma {:induction false} PrefixValid(n: Node, p: Path, q: Path)
    requires ValidPath(n, p + q)
    ensures ValidPath(n, p)
    decreases |p|
  {
    if p != [] {
      assert (p + q)[0] == p[0] && (p + q)[1..] == p[1..] + q;
      PrefixValid(n.children[p[0]], p[1..], q);
    }
  }

  /** A position and its parent: the parent holds the node as child `Last(p)`. */
  lemma {:induction false} ParentValid(n: Node, p: Path)
    requires ValidPath(n, p) && p != []
    ensures ValidPath(n, Parent(p)) && Last(p) < |At(n, Parent(p)).children|
    ensures At(n, p) == At(n, Parent(p)).children[Last(p)]
  {
    assert p == Parent(p) + [Last(p)];
    PrefixValid(n, Parent(p), [Last(p)]);
    AtConcat(n, Parent(p), [Last(p)]);
  }

  /** Working below `q` after replacing the subtree at `q` by `x`. */
  lemma {:induction false} ReplaceUnder(t: Node, q: Path, x: Node, p: Path, s: Node)
    requires ValidPath(t, q) && ValidPath(x, p)
    ensures ValidPath(Replace(t, q, x), q + p) && At(Replace(t, q, x), q + p) == At(x, p)
    ensures Replace(Replace(t, q, x), q + p, s) == Replace(t, q, Replace(x, p, s))
  {
    var t' := Replace(t, q, x);
    AtConcat(t', q, p);
    ReplaceConcat(t', q, p, s);
    ReplaceTwice(t, q, x, Replace(x, p, s));
  }

  /** Replacing the `k`-th child of the node at `q`. */
  lemma {:induction false} ReplaceChild(t: Node, q: Path, k: nat, s: Node)
    requires ValidPath(t, q) && k < |At(t, q).children|
    ensures ValidPath(t, q + [k])
    ensures Replace(t, q + [k], s) == Replace(t, q, At(t, q).(children := At(t, q).children[k := s]))
  {
    ReplaceConcat(t, q, [k], s);
    assert [k][0] == k && [k][1..] == [];
  }

  /** Writing a label below `q` after replacing the subtree at `q` by `x`. */
  lemma {:induction false} SetIdUnder(t: Node, q: Path, x: Node, p: Path, v: int)
    requires ValidPath(t, q) && ValidPath(x, p)
    ensures ValidPath(Replace(t, q, x), q + p)
    ensures SetId(Replace(t, q, x), q + p, v) == Replace(t, q, SetId(x, p, v))
  {
    ReplaceUnder(t, q, x, p, At(x, p).(id := v));
  }

  /** Positions below the root of a tree, seen from the header. */
  lemma {:induction false} UnderRoot(t: Node, p: Path, s: Node)
    requires |t.children| == 1 && ValidPath(Root(t), p)
    ensures ValidPath(t, [0] + p) && At(t, [0] + p) == At(Root(t), p)
    ensures Replace(t, [0] + p, s) == Header(Replace(Root(t), p, s)).(id := t.id, length := t.length)
  {
    assert ([0] + p)[0] == 0 && ([0] + p)[1..] == p;
  }

  // ---------------------------------------------------------------------------
  // Size, leaves and shape

  /** Number of nodes in the subtree. */
  function Size(n: Node): nat { 1 + ForestSize(n.children) }

  function ForestSize(cs: seq<Node>): nat
  {
    if cs == [] then 0 else ForestSize(cs[..|cs| - 1]) + Size(cs[|cs| - 1])
  }

  /** The labels of the leaves, in pre-order. */
  function LeafIds(n: Node): seq<int>
  {
    if n.children == [] then [n.id] else ForestLeafIds(n.children)
  }

  function ForestLeafIds(cs: seq<Node>): seq<int>
  {
    if cs == [] then [] else ForestLeafIds(cs[..|cs| - 1]) + LeafIds(cs[|cs| - 1])
  }

  /** Every internal node carries no taxon and has exactly two children. */
  predicate Bifurcating(n: Node)
  {
    (n.children == [] || (|n.children| == 2 && n.id == Unset)) &&
    forall i :: 0 <= i < |n.children| ==> Bifurcating(n.children[i])
  }

  lemma {:induction false} Fork(a: Node, b: Node, len: real)
    requires Bifurcating(a) && Bifurcating(b)
    ensures Bifurcating(Node(Unset, len, [a, b]))
  {
    var n := Node(Unset, len, [a, b]);
    assert n.children[0] == a && n.children[1] == b;
  }

  /** `a` and `b` differ at most in the labels of their leaves. */
  predicate SameExceptLeafIds(a: Node, b: Node)
  {
    a.length == b.length && |a.children| == |b.children| &&
    (a.children != [] ==> a.id == b.id) &&
    forall i :: 0 <= i < |a.children| ==> SameExceptLeafIds(a.children[i], b.children[i])
  }

  /** The integers lo, lo+1, ..., hi-1 in increasing order. */
  function Range(lo: int, hi: int): (r: seq<int>)
    ensures |r| == if lo <= hi then hi - lo else 0
    ensures forall k :: 0 <= k < |r| ==> r[k] == lo + k
    decreases hi - lo
  {
    if lo >= hi then [] else [lo] + Range(lo + 1, hi)
  }

  lemma {:induction false} RangeSnoc(lo: int, hi: int)
    requires lo <= hi
    ensures Range(lo, hi + 1) == Range(lo, hi) + [hi]
  {
  }

  /** No label occurs twice in `Range(lo, hi)`, and none below `lo` occurs at all. */
  lemma {:induction false} RangeCount(lo: int, hi: int, x: int)
    ensures multiset(Range(lo, hi))[x] <= 1
    ensures x < lo ==> multiset(Range(lo, hi))[x] == 0
    decreases hi - lo
  {
    if lo < hi {
      RangeCount(lo + 1, hi, x);
      assert Range(lo, hi) == [lo] + Range(lo + 1, hi);
    }
  }

  /** A rearrangement of lo .. hi-1 has no repeated element. */
  lemma {:induction false} PermutationDistinct(s: seq<int>, lo: int, hi: int)
    requires multiset(s) == multiset(Range(lo, hi))
    ensures forall a, b :: 0 <= a < b < |s| ==> s[a] != s[b]
  {
    forall a, b | 0 <= a < b < |s| ensures s[a] != s[b] {
      var c := s[a];
      RangeCount(lo, hi, c);
      assert s == s[..b] + [s[b]] + s[b + 1..];
      assert s[..b][a] == c;
      assert multiset(s)[c] == multiset(s[..b])[c] + multiset([s[b]])[c] + multiset(s[b + 1..])[c];
    }
  }

  lemma {:induction false} ForestAppend(a: seq<Node>, b: seq<Node>)
    ensures ForestSize(a + b) == ForestSize(a) + ForestSize(b)
    ensures ForestLeafIds(a + b) == ForestLeafIds(a) + ForestLeafIds(b)
    decreases |b|
  {
    if b == [] {
      assert a + b == a;
    } else {
      ForestAppend(a, b[..|b| - 1]);
      assert (a + b)[..|a + b| - 1] == a + b[..|b| - 1];
    }
  }

  lemma {:induction false} ForestOne(c: Node)
    ensures ForestSize([c]) == Size(c) && ForestLeafIds([c]) == LeafIds(c)
  {
    assert [c][..0] == [];
  }

  lemma {:induction false} ForestPair(a: Node, b: Node)
    ensures ForestSize([a, b]) == Size(a) + Size(b)
    ensures ForestLeafIds([a, b]) == LeafIds(a) + LeafIds(b)
  {
    assert [a, b][..1] == [a];
    ForestOne(a);
  }

  lemma {:induction false} ForestTriple(a: Node, b: Node, c: Node)
    ensures ForestSize([a, b, c]) == Size(a) + Size(b) + Size(c)
    ensures ForestLeafIds([a, b, c]) == LeafIds(a) + LeafIds(b) + LeafIds(c)
  {
    assert [a, b, c][..2] == [a, b];
    ForestPair(a, b);
  }

  /** A forest seen around its `j`-th tree. */
  lemma {:induction false} ForestSplit(cs: seq<Node>, j: nat)
    requires j < |cs|
    ensures ForestSize(cs) == ForestSize(cs[..j]) + Size(cs[j]) + ForestSize(cs[j + 1..])
    ensures ForestLeafIds(cs) == ForestLeafIds(cs[..j]) + LeafIds(cs[j]) + ForestLeafIds(cs[j + 1..])
  {
    assert cs == cs[..j] + [cs[j]] + cs[j + 1..];
    ForestAppend(cs[..j] + [cs[j]], cs[j + 1..]);
    ForestAppend(cs[..j], [cs[j]]);
    ForestOne(cs[j]);
  }

  /** Inserting a tree into a forest. */
  lemma {:induction false} ForestInsert(cs: seq<Node>, j: nat, c: Node)
    requires j <= |cs|
    ensures ForestSize(cs[..j] + [c] + cs[j..]) == ForestSize(cs) + Size(c)
  {
    assert cs == cs[..j] + cs[j..];
    ForestAppend(cs[..j], cs[j..]);
    ForestAppend(cs[..j] + [c], cs[j..]);
    ForestAppend(cs[..j], [c]);
    ForestOne(c);
  }

  /** Replacing one tree of a forest. */
  lemma {:induction false} ForestUpdate(cs: seq<Node>, j: nat, c: Node)
    requires j < |cs|
    ensures ForestSize(cs[j := c]) + Size(cs[j]) == ForestSize(cs) + Size(c)
    ensures ForestLeafIds(cs[j := c]) == ForestLeafIds(cs[..j]) + LeafIds(c) + ForestLeafIds(cs[j + 1..])
  {
    ForestSplit(cs, j);
    ForestSplit(cs[j := c], j);
    assert cs[j := c][..j] == cs[..j] && cs[j := c][j + 1..] == cs[j + 1..];
  }

  /** What a replacement does to the node count. */
  lemma {:induction false} ReplaceSize(n: Node, p: Path, s: Node)
    requires ValidPath(n, p)
    ensures Size(Replace(n, p, s)) + Size(At(n, p)) == Size(n) + Size(s)
    decreases |p|
  {
    if p != [] {
      ReplaceSize(n.children[p[0]], p[1..], s);
      ForestUpdate(n.children, p[0], Replace(n.children[p[0]], p[1..], s));
    }
  }

  /** What a replacement does to the leaf labels: a subtree that gains the labels `m` gains them for the whole tree. */
  lemma {:induction false} ReplaceLeafIds(n: Node, p: Path, s: Node, m: multiset<int>)
    requires ValidPath(n, p)
    requires multiset(LeafIds(s)) == multiset(LeafIds(At(n, p))) + m
    ensures multiset(LeafIds(Replace(n, p, s))) == multiset(LeafIds(n)) + m
    decreases |p|
  {
    if p != [] {
      var cs, j := n.children, p[0];
      ReplaceLeafIds(cs[j], p[1..], s, m);
      var c := Replace(cs[j], p[1..], s);
      assert Replace(n, p, s).children == cs[j := c];
      ForestSplit(cs, j);
      ForestUpdate(cs, j, c);
      var before, after := ForestLeafIds(cs[..j]), ForestLeafIds(cs[j + 1..]);
      assert multiset(before + LeafIds(c) + after) == multiset(before) + multiset(LeafIds(c)) + multiset(after);
      assert multiset(before + LeafIds(cs[j]) + after) == multiset(before) + multiset(LeafIds(cs[j])) + multiset(after);
    }
  }

  lemma {:induction false} AtBifurcating(n: Node, p: Path)
    requires ValidPath(n, p) && Bifurcating(n)
    ensures Bifurcating(At(n, p))
    decreases |p|
  {
    if p != [] {
      AtBifurcating(n.children[p[0]], p[1..]);
    }
  }

  lemma {:induction false} ReplaceBifurcating(n: Node, p: Path, s: Node)
    requires ValidPath(n, p) && Bifurcating(n) && Bifurcating(s)
    ensures Bifurcating(Replace(n, p, s))
    decreases |p|
  {
    if p != [] {
      ReplaceBifurcating(n.children[p[0]], p[1..], s);
      var r := Replace(n, p, s);
      forall i | 0 <= i < |r.children| ensures Bifurcating(r.children[i]) {
        if i != p[0] { assert r.children[i] == n.children[i]; }
      }
    }
  }

  // ---------------------------------------------------------------------------
  // Pre-order

  /** `[j] + p` for every `p` of `ps`. */
  function Prefixed(j: nat, ps: seq<Path>): (r: seq<Path>)
    ensures |r| == |ps| && forall k :: 0 <= k < |ps| ==> r[k] == [j] + ps[k]
  {
    seq(|ps|, k requires 0 <= k < |ps| => [j] + ps[k])
  }

  /** Every position of the subtree, in pre-order: a node, then its children's subtrees in order. */
  function Pre(n: Node): seq<Path> { [[]] + ForestPre(n.children) }

  function ForestPre(cs: seq<Node>): seq<Path>
  {
    if cs == [] then [] else ForestPre(cs[..|cs| - 1]) + Prefixed(|cs| - 1, Pre(cs[|cs| - 1]))
  }

  /**
   * `next_pre()`: the first child if there is one, otherwise the next sibling
   * of the nearest ancestor-or-self that has one; None past the last node.
   */
  function NextPre(n: Node, p: Path): (r: Option<Path>)
    requires ValidPath(n, p)
    ensures r.Some? ==> ValidPath(n, r.value)
    ensures !IsLeaf(At(n, p)) ==> r == Some(p + [0])
    decreases |p|
  {
    if p == [] then (if n.children == [] then None else assert [0][1..] == [] && ValidPath(n.children[0], []) && p + [0] == [0]; Some([0]))
    else match NextPre(n.children[p[0]], p[1..])
      case Some(q) =>
        assert ([p[0]] + q)[0] == p[0] && ([p[0]] + q)[1..] == q;
        assert At(n, p) == At(n.children[p[0]], p[1..]);
        assert [p[0]] + (p[1..] + [0]) == p + [0];
        Some([p[0]] + q)
      case None => if p[0] + 1 < |n.children| then Some([p[0] + 1]) else None
  }

  lemma {:induction false} PreSize(n: Node)
    ensures |Pre(n)| == Size(n)
  {
    ForestPreSize(n.children);
  }

  lemma {:induction false} ForestPreSize(cs: seq<Node>)
    ensures |ForestPre(cs)| == ForestSize(cs)
  {
    if cs != [] {
      ForestPreSize(cs[..|cs| - 1]);
      PreSize(cs[|cs| - 1]);
    }
  }

  /**
   * Stepping `next_pre()` from the k-th position in pre-order reaches the
   * (k+1)-th, and steps off the tree (null) from the last one.
   */
  lemma {:induction false} PreWalk(n: Node, k: nat)
    requires k < |Pre(n)|
    ensures ValidPath(n, Pre(n)[k])
    ensures NextPre(n, Pre(n)[k]) == if k + 1 < |Pre(n)| then Some(Pre(n)[k + 1]) else None
    decreases n, 1, 0, 0
  {
    var cs := n.children;
    assert cs[..|cs|] == cs;
    if k == 0 {
      if cs != [] {
        ForestPreWalk(n, |cs|, 0);
      }
    } else {
      ForestPreWalk(n, |cs|, k - 1);
    }
  }

  /** The walk through the subtrees of the first `m` children. */
  lemma {:induction false} ForestPreWalk(n: Node, m: nat, k: nat)
    requires m <= |n.children| && k < |ForestPre(n.children[..m])|
    ensures var fp := ForestPre(n.children[..m]);
      fp[0] == [0] && ValidPath(n, fp[k]) &&
      NextPre(n, fp[k]) == if k + 1 < |fp| then Some(fp[k + 1]) else if m < |n.children| then Some([m]) else None
    decreases n, 0, m, 1
  {
    var cs := n.children;
    var fp' := ForestPre(cs[..m - 1]);
    assert cs[..m][..m - 1] == cs[..m - 1] && cs[..m][m - 1] == cs[m - 1];
    assert ForestPre(cs[..m]) == fp' + Prefixed(m - 1, Pre(cs[m - 1]));
    if m > 1 {
      assert cs[..m - 1] != [];
      ForestPreWalk(n, m - 1, 0);
    }
    if k < |fp'| {
      ForestPreWalkEarlier(n, m, k);
    } else {
      ForestPreWalkLast(n, m, k);
    }
  }

  /** A step from a position in one of the first `m - 1` subtrees. */
  lemma {:induction false} ForestPreWalkEarlier(n: Node, m: nat, k: nat)
    requires 0 < m <= |n.children| && k < |ForestPre(n.children[..m - 1])|
    requires ForestPre(n.children[..m]) == ForestPre(n.children[..m - 1]) + Prefixed(m - 1, Pre(n.children[m - 1]))
    ensures var fp := ForestPre(n.children[..m]);
      k < |fp| && ValidPath(n, fp[k]) &&
      NextPre(n, fp[k]) == if k + 1 < |fp| then Some(fp[k + 1]) else if m < |n.children| then Some([m]) else None
    decreases n, 0, m, 0
  {
    var cs := n.children;
    var fp, fp' := ForestPre(cs[..m]), ForestPre(cs[..m - 1]);
    var tail := Prefixed(m - 1, Pre(cs[m - 1]));
    ForestPreWalk(n, m - 1, k);
    assert fp[k] == fp'[k];
    if k + 1 == |fp'| {
      assert |tail| == |Pre(cs[m - 1])| >= 1;
      assert fp[k + 1] == tail[0] == [m - 1] + [];
      assert [m - 1] + [] == [m - 1];
    } else {
      assert fp[k + 1] == fp'[k + 1];
    }
  }

  /** A step from a position in the `m`-th subtree. */
  lemma {:induction false} ForestPreWalkLast(n: Node, m: nat, k: nat)
    requires 0 < m <= |n.children| && |ForestPre(n.children[..m - 1])| <= k < |ForestPre(n.children[..m])|
    requires ForestPre(n.children[..m]) == ForestPre(n.children[..m - 1]) + Prefixed(m - 1, Pre(n.children[m - 1]))
    ensures var fp := ForestPre(n.children[..m]);
      ValidPath(n, fp[k]) &&
      NextPre(n, fp[k]) == if k + 1 < |fp| then Some(fp[k + 1]) else if m < |n.children| then Some([m]) else None
    decreases n, 0, m, 0
  {
    var c := n.children[m - 1];
    var fp, fp' := ForestPre(n.children[..m]), ForestPre(n.children[..m - 1]);
    var k' := k - |fp'|;
    PreWalk(c, k');
    var q := Pre(c)[k'];
    assert fp[k] == [m - 1] + q;
    assert ([m - 1] + q)[0] == m - 1 && ([m - 1] + q)[1..] == q;
    if k' + 1 < |Pre(c)| {
      assert fp[k + 1] == [m - 1] + Pre(c)[k' + 1];
    }
  }

  /**
   * The pre-order walk from `root()` of a tree with one root: `next_pre()` on
   * the whole tree visits the root's positions in order, then is null.
   */
  lemma {:induction false} PreWalkUnderRoot(t: Node, k: nat)
    requires |t.children| == 1 && k < |Pre(Root(t))|
    ensures ValidPath(t, [0] + Pre(Root(t))[k]) && At(t, [0] + Pre(Root(t))[k]) == At(Root(t), Pre(Root(t))[k])
    ensures NextPre(t, [0] + Pre(Root(t))[k]) ==
      if k + 1 < |Pre(Root(t))| then Some([0] + Pre(Root(t))[k + 1]) else None
  {
    var x := Pre(Root(t))[k];
    PreWalk(Root(t), k);
    assert ([0] + x)[0] == 0 && ([0] + x)[1..] == x;
  }

  /** No position occurs twice in pre-order. */
  lemma {:induction false} PreDistinct(n: Node, i: nat, j: nat)
    requires i < j < |Pre(n)|
    ensures Pre(n)[i] != Pre(n)[j]
    decreases |Pre(n)| - j
  {
    PreWalk(n, i);
    PreWalk(n, j);
    if Pre(n)[i] == Pre(n)[j] && j + 1 < |Pre(n)| {
      PreDistinct(n, i + 1, j + 1);
    }
  }

  /** Labels of the leaves met along the positions `ps`, in that order. */
  function LeafIdsAlong(n: Node, ps: seq<Path>): seq<int>
  {
    if ps == [] then []
    else
      var p := ps[|ps| - 1];
      LeafIdsAlong(n, ps[..|ps| - 1]) + (if ValidPath(n, p) && IsLeaf(At(n, p)) then [At(n, p).id] else [])
  }

  lemma {:induction false} LeafIdsAlongAppend(n: Node, a: seq<Path>, b: seq<Path>)
    ensures LeafIdsAlong(n, a + b) == LeafIdsAlong(n, a) + LeafIdsAlong(n, b)
    decreases |b|
  {
    if b == [] {
      assert a + b == a;
    } else {
      LeafIdsAlongAppend(n, a, b[..|b| - 1]);
      assert (a + b)[..|a + b| - 1] == a + b[..|b| - 1];
    }
  }

  lemma {:induction false} LeafIdsAlongChild(n: Node, j: nat, ps: seq<Path>)
    requires j < |n.children|
    ensures LeafIdsAlong(n, Prefixed(j, ps)) == LeafIdsAlong(n.children[j], ps)
    decreases |ps|
  {
    if ps != [] {
      var p := ps[|ps| - 1];
      assert Prefixed(j, ps)[..|ps| - 1] == Prefixed(j, ps[..|ps| - 1]);
      LeafIdsAlongChild(n, j, ps[..|ps| - 1]);
      assert ([j] + p)[0] == j && ([j] + p)[1..] == p;
    }
  }

  /** Reading the leaves along the pre-order walk gives `LeafIds`. */
  lemma {:induction false} LeafIdsAlongPre(n: Node)
    ensures LeafIdsAlong(n, Pre(n)) == LeafIds(n)
    decreases n, 1, 0
  {
    var cs := n.children;
    LeafIdsAlongAppend(n, [[]], ForestPre(cs));
    var only: seq<Path> := [[]];
    assert only[..0] == [];
    if cs != [] {
      assert cs[..|cs|] == cs;
      ForestLeafIdsAlongPre(n, |cs|);
    }
  }

  lemma {:induction false} ForestLeafIdsAlongPre(n: Node, m: nat)
    requires m <= |n.children|
    ensures LeafIdsAlong(n, ForestPre(n.children[..m])) == ForestLeafIds(n.children[..m])
    decreases n, 0, m
  {
    var cs := n.children;
    if m > 0 {
      var c := cs[m - 1];
      assert cs[..m][..m - 1] == cs[..m - 1] && cs[..m][m - 1] == c;
      ForestLeafIdsAlongPre(n, m - 1);
      LeafIdsAlongAppend(n, ForestPre(cs[..m - 1]), Prefixed(m - 1, Pre(c)));
      assert LeafIdsAlong(n, Prefixed(m - 1, Pre(c))) == LeafIds(c) by {
        LeafIdsAlongChild(n, m - 1, Pre(c));
        LeafIdsAlongPre(c);
      }
    }
  }

  // ---------------------------------------------------------------------------
  // Trees that differ only in leaf labels

  lemma {:induction false} SameReflexive(a: Node)
    ensures SameExceptLeafIds(a, a)
    decreases a
  {
    forall i | 0 <= i < |a.children| ensures SameExceptLeafIds(a.children[i], a.children[i]) {
      SameReflexive(a.children[i]);
    }
  }

  lemma {:induction false} SameTransitive(a: Node, b: Node, c: Node)
    requires SameExceptLeafIds(a, b) && SameExceptLeafIds(b, c)
    ensures SameExceptLeafIds(a, c)
    decreases a
  {
    forall i | 0 <= i < |a.children| ensures SameExceptLeafIds(a.children[i], c.children[i]) {
      SameTransitive(a.children[i], b.children[i], c.children[i]);
    }
  }

  /** Relabelling leaves keeps the positions, the size, the number of leaves and the branching. */
  lemma {:induction false} SameShape(a: Node, b: Node)
    requires SameExceptLeafIds(a, b)
    ensures Pre(a) == Pre(b) && Size(a) == Size(b) && |LeafIds(a)| == |LeafIds(b)|
    ensures Bifurcating(a) <==> Bifurcating(b)
    decreases a, 1, 0
  {
    assert a.children[..|a.children|] == a.children && b.children[..|b.children|] == b.children;
    ForestSameShape(a, b, |a.children|);
    forall i | 0 <= i < |a.children| ensures Bifurcating(a.children[i]) <==> Bifurcating(b.children[i]) {
      SameShape(a.children[i], b.children[i]);
    }
  }

  lemma {:induction false} ForestSameShape(a: Node, b: Node, m: nat)
    requires SameExceptLeafIds(a, b) && m <= |a.children|
    ensures ForestPre(a.children[..m]) == ForestPre(b.children[..m])
    ensures ForestSize(a.children[..m]) == ForestSize(b.children[..m])
    ensures |ForestLeafIds(a.children[..m])| == |ForestLeafIds(b.children[..m])|
    decreases a, 0, m
  {
    if m > 0 {
      assert a.children[..m][..m - 1] == a.children[..m - 1];
      assert b.children[..m][..m - 1] == b.children[..m - 1];
      ForestSameShape(a, b, m - 1);
      SameShape(a.children[m - 1], b.children[m - 1]);
    }
  }

  /** Trees that differ only in leaf labels have the same positions, and their subtrees differ only in leaf labels. */
  lemma {:induction false} SameAt(a: Node, b: Node, p: Path)
    requires SameExceptLeafIds(a, b) && ValidPath(a, p)
    ensures ValidPath(b, p) && SameExceptLeafIds(At(a, p), At(b, p))
    decreases |p|
  {
    if p != [] {
      SameAt(a.children[p[0]], b.children[p[0]], p[1..]);
    }
  }

  /** A shape with its leaf labels read in pre-order determines the tree. */
  lemma {:induction false} RelabelUnique(a: Node, b: Node, shape: Node)
    requires SameExceptLeafIds(a, shape) && SameExceptLeafIds(b, shape)
    requires LeafIds(a) == LeafIds(b)
    ensures a == b
    decreases a, 1, 0
  {
    if a.children != [] {
      var n := |a.children|;
      assert a.children[..n] == a.children && b.children[..n] == b.children;
      ForestRelabelUnique(a, b, shape, n);
      assert a.children == b.children;
    }
  }

  lemma {:induction false} ForestRelabelUnique(a: Node, b: Node, shape: Node, m: nat)
    requires SameExceptLeafIds(a, shape) && SameExceptLeafIds(b, shape)
    requires m <= |a.children|
    requires ForestLeafIds(a.children[..m]) == ForestLeafIds(b.children[..m])
    ensures a.children[..m] == b.children[..m]
    decreases a, 0, m
  {
    if m > 0 {
      var x, y, z := a.children[m - 1], b.children[m - 1], shape.children[m - 1];
      assert a.children[..m][..m - 1] == a.children[..m - 1];
      assert b.children[..m][..m - 1] == b.children[..m - 1];
      assert |LeafIds(x)| == |LeafIds(y)| by {
        SameShape(x, z);
        SameShape(y, z);
      }
      var fa, fb := ForestLeafIds(a.children[..m - 1]), ForestLeafIds(b.children[..m - 1]);
      assert fa + LeafIds(x) == fb + LeafIds(y);
      assert |fa| == |fb|;
      assert fa == fb && LeafIds(x) == LeafIds(y) by {
        assert (fa + LeafIds(x))[..|fa|] == fa && (fb + LeafIds(y))[..|fb|] == fb;
        assert (fa + LeafIds(x))[|fa|..] == LeafIds(x) && (fb + LeafIds(y))[|fb|..] == LeafIds(y);
      }
      ForestRelabelUnique(a, b, shape, m - 1);
      RelabelUnique(x, y, z);
      assert a.children[..m] == a.children[..m - 1] + [x];
      assert b.children[..m] == b.children[..m - 1] + [y];
    }
  }

  // ---------------------------------------------------------------------------
  // The container operations

  /** Writes the taxon label of the node at `p`. */
  function SetId(t: Node, p: Path, v: int): (r: Node)
    requires ValidPath(t, p)
    ensures ValidPath(r, p) && At(r, p).id == v
  {
    Replace(t, p, At(t, p).(id := v))
  }

  /** Writes the branch length of the node at `p`. */
  function SetLength(t: Node, p: Path, v: real): (r: Node)
    requires ValidPath(t, p)
    ensures ValidPath(r, p) && At(r, p).length == v
  {
    Replace(t, p, At(t, p).(length := v))
  }

  /** Writing the label of a leaf changes nothing but that label. */
  lemma {:induction false} SetIdLeaf(t: Node, q: Path, v: int)
    requires ValidPath(t, q) && IsLeaf(At(t, q))
    ensures SameExceptLeafIds(SetId(t, q, v), t)
    decreases |q|
  {
    if q == [] {
      SameReflexive(t);
    } else {
      var cs, j := t.children, q[0];
      SetIdLeaf(cs[j], q[1..], v);
      var r := SetId(t, q, v);
      assert r.children == cs[j := SetId(cs[j], q[1..], v)];
      forall i | 0 <= i < |cs| ensures SameExceptLeafIds(r.children[i], cs[i]) {
        if i != j { SameReflexive(cs[i]); }
      }
    }
  }

  /** Writing the label at `q` leaves every other position as it was. */
  lemma {:induction false} SetIdElsewhere(t: Node, q: Path, v: int, p: Path)
    requires ValidPath(t, q) && ValidPath(t, p) && p != q
    ensures ValidPath(SetId(t, q, v), p)
    ensures At(SetId(t, q, v), p).id == At(t, p).id
    ensures IsLeaf(At(SetId(t, q, v), p)) == IsLeaf(At(t, p))
    decreases |p|
  {
    var r := SetId(t, q, v);
    if q != [] {
      var cs, j := t.children, q[0];
      assert r.children == cs[j := SetId(cs[j], q[1..], v)];
      if p != [] {
        if p[0] == j {
          assert p[1..] != q[1..] by { assert p == [p[0]] + p[1..] && q == [q[0]] + q[1..]; }
          SetIdElsewhere(cs[j], q[1..], v, p[1..]);
        }
      }
    }
  }

  /** Labelling the leaf at `q` leaves the labels read along positions other than `q` as they were. */
  lemma {:induction false} SetIdAlong(t: Node, q: Path, v: int, ps: seq<Path>)
    requires ValidPath(t, q) && q !in ps
    ensures LeafIdsAlong(SetId(t, q, v), ps) == LeafIdsAlong(t, ps)
    decreases |ps|
  {
    if ps != [] {
      var p := ps[|ps| - 1];
      SetIdAlong(t, q, v, ps[..|ps| - 1]);
      if ValidPath(t, p) {
        SetIdElsewhere(t, q, v, p);
      } else {
        assert !ValidPath(SetId(t, q, v), p) by {
          if ValidPath(SetId(t, q, v), p) {
            SameShapeValid(SetId(t, q, v), t, q, v, p);
          }
        }
      }
    }
  }

  lemma {:induction false} SameShapeValid(r: Node, t: Node, q: Path, v: int, p: Path)
    requires ValidPath(t, q) && r == SetId(t, q, v) && ValidPath(r, p)
    ensures ValidPath(t, p)
    decreases |p|
  {
    if p != [] && q != [] {
      var cs, j := t.children, q[0];
      assert r.children == cs[j := SetId(cs[j], q[1..], v)];
      if p[0] == j {
        SameShapeValid(r.children[j], cs[j], q[1..], v, p[1..]);
      }
    }
  }

  /** Appends `c` as the last child of the node at `p`. */
  function AppendChild(t: Node, p: Path, c: Node): (r: (Node, Path))
    requires ValidPath(t, p)
    ensures ValidPath(r.0, r.1) && r.1 == p + [|At(t, p).children|] && At(r.0, r.1) == c
    ensures ValidPath(r.0, p) && At(r.0, p) == At(t, p).(children := At(t, p).children + [c])
    ensures r.0 == Replace(t, p, At(r.0, p))
    ensures Size(r.0) == Size(t) + Size(c)
  {
    var n := At(t, p);
    var m := n.(children := n.children + [c]);
    var t' := Replace(t, p, m);
    AtConcat(t', p, [|n.children|]);
    ReplaceSize(t, p, m);
    ForestAppend(n.children, [c]);
    ForestOne(c);
    (t', p + [|n.children|])
  }

  /** `insert_child(p)`: a new node as the last child of `p`, and its position. */
  function InsertChild(t: Node, p: Path): (r: (Node, Path))
    requires ValidPath(t, p)
    ensures ValidPath(r.0, r.1) && r.1 == p + [|At(t, p).children|] && At(r.0, r.1) == Fresh()
    ensures ValidPath(r.0, p) && At(r.0, p) == At(t, p).(children := At(t, p).children + [Fresh()])
    ensures r.0 == Replace(t, p, At(r.0, p))
    ensures Size(r.0) == Size(t) + 1
  {
    AppendChild(t, p, Fresh())
  }

  /** `graft_child(p, other)`: the root of `other`, with its subtree, becomes the last child of `p`. */
  function GraftTree(t: Node, p: Path, other: Node): (r: (Node, Path))
    requires ValidPath(t, p) && other.children != []
    ensures ValidPath(r.0, r.1) && r.1 == p + [|At(t, p).children|] && At(r.0, r.1) == Root(other)
    ensures ValidPath(r.0, p) && At(r.0, p) == At(t, p).(children := At(t, p).children + [Root(other)])
    ensures r.0 == Replace(t, p, At(r.0, p))
    ensures Size(r.0) == Size(t) + Size(Root(other))
  {
    AppendChild(t, p, Root(other))
  }

  /** A new root under the header of an empty tree, then labelled `id`: a tree of one leaf. */
  method SingleLeaf(id: int) returns (t: Node)
    ensures t == Header(Leaf(id))
  {
    t := Empty();
    var (t0, _) := InsertChild(t, []);
    assert t0 == Header(Fresh());
    t := SetId(t0, [0], id);
  }

  /** `insert_sibling(p)`: a new node right after `p` among its siblings, and its position. */
  function InsertSibling(t: Node, p: Path): (r: (Node, Path))
    requires ValidPath(t, p) && p != []
    ensures ValidPath(t, Parent(p)) && Last(p) < |At(t, Parent(p)).children|
    ensures r.1 == Parent(p) + [Last(p) + 1] && ValidPath(r.0, r.1) && At(r.0, r.1) == Fresh()
    ensures ValidPath(r.0, Parent(p))
    ensures var cs := At(t, Parent(p)).children;
      At(r.0, Parent(p)) == At(t, Parent(p)).(children := cs[..Last(p) + 1] + [Fresh()] + cs[Last(p) + 1..])
    ensures r.0 == Replace(t, Parent(p), At(r.0, Parent(p)))
    ensures Size(r.0) == Size(t) + 1
  {
    ParentValid(t, p);
    var q, k := Parent(p), Last(p);
    var par := At(t, q);
    var cs := par.children;
    var m := par.(children := cs[..k + 1] + [Fresh()] + cs[k + 1..]);
    var t' := Replace(t, q, m);
    AtConcat(t', q, [k + 1]);
    ReplaceSize(t, q, m);
    ForestInsert(cs, k + 1, Fresh());
    ForestOne(Fresh());
    (t', q + [k + 1])
  }

  /** `left()`: the first child, if any. */
  function Left(t: Node, p: Path): (r: Option<Path>)
    requires ValidPath(t, p)
    ensures r.Some? <==> !IsLeaf(At(t, p))
    ensures r.Some? ==> r.value == p + [0] && ValidPath(t, r.value) && At(t, r.value) == At(t, p).children[0]
  {
    AtConcat(t, p, [0]);
    if At(t, p).children == [] then None else Some(p + [0])
  }

  /** `right()`: the next sibling, if any. */
  function Right(t: Node, p: Path): (r: Option<Path>)
    requires ValidPath(t, p) && p != []
    ensures ValidPath(t, Parent(p))
    ensures r.Some? <==> Last(p) + 1 < |At(t, Parent(p)).children|
    ensures r.Some? ==> r.value == Parent(p) + [Last(p) + 1] && ValidPath(t, r.value)
    ensures r.Some? ==> At(t, r.value) == At(t, Parent(p)).children[Last(p) + 1]
  {
    ParentValid(t, p);
    AtConcat(t, Parent(p), [Last(p) + 1]);
    if Last(p) + 1 < |At(t, Parent(p)).children| then Some(Parent(p) + [Last(p) + 1]) else None
  }

  /** The tree without the subtree at `src`. */
  function Detach(t: Node, src: Path): Node
    requires ValidPath(t, src) && src != []
  {
    ParentValid(t, src);
    var par := At(t, Parent(src));
    Replace(t, Parent(src), par.(children := par.children[..Last(src)] + par.children[Last(src) + 1..]))
  }

  /** Where the node at `dst` is once the subtree at `src` is detached: later siblings of `src` move left. */
  function Adjust(dst: Path, src: Path): Path
    requires src != []
  {
    var d := |src| - 1;
    if |dst| > d && dst[..d] == src[..d] && dst[d] > src[d] then dst[d := dst[d] - 1] else dst
  }

  lemma {:induction false} DetachStep(t: Node, src: Path)
    requires ValidPath(t, src) && |src| > 1
    ensures ValidPath(t.children[src[0]], src[1..])
    ensures Detach(t, src) == t.(children := t.children[src[0] := Detach(t.children[src[0]], src[1..])])
  {
    var a, s' := src[0], src[1..];
    assert Parent(src) == [a] + Parent(s') && Last(src) == Last(s');
    assert ([a] + Parent(s'))[0] == a && ([a] + Parent(s'))[1..] == Parent(s');
  }

  /** Detaching a subtree keeps every position outside it. */
  lemma {:induction false} DetachKeeps(t: Node, src: Path, dst: Path)
    requires ValidPath(t, src) && src != [] && ValidPath(t, dst) && !IsPrefix(src, dst)
    ensures ValidPath(Detach(t, src), Adjust(dst, src))
    decreases |src|
  {
    if dst != [] {
      if |src| == 1 {
        DetachKeepsChild(t, src[0], dst);
      } else if dst[0] != src[0] {
        DetachKeepsOther(t, src, dst);
      } else {
        var s', d' := src[1..], dst[1..];
        AdjustStep(src, dst);
        DetachKeeps(t.children[src[0]], s', d');
        DetachStep(t, src);
        assert ([src[0]] + Adjust(d', s'))[1..] == Adjust(d', s');
      }
    }
  }

  lemma {:induction false} DetachKeepsChild(t: Node, a: nat, dst: Path)
    requires ValidPath(t, [a]) && ValidPath(t, dst) && dst != [] && !IsPrefix([a], dst)
    ensures ValidPath(Detach(t, [a]), Adjust(dst, [a]))
  {
    var cs, b := t.children, dst[0];
    assert dst == [b] + dst[1..];
    assert Parent([a]) == [] && Last([a]) == a;
    assert b != a;
    var rest := cs[..a] + cs[a + 1..];
    assert Detach(t, [a]) == t.(children := rest);
    if b > a {
      assert Adjust(dst, [a]) == [b - 1] + dst[1..];
      assert rest[b - 1] == cs[b];
    } else {
      assert Adjust(dst, [a]) == dst;
      assert rest[b] == cs[b];
    }
  }

  lemma {:induction false} DetachKeepsOther(t: Node, src: Path, dst: Path)
    requires ValidPath(t, src) && |src| > 1 && ValidPath(t, dst) && dst != [] && dst[0] != src[0]
    ensures ValidPath(Detach(t, src), Adjust(dst, src))
  {
    var d := |src| - 1;
    assert Adjust(dst, src) == dst by {
      if |dst| > d { assert dst[..d][0] != src[..d][0]; }
    }
    DetachStep(t, src);
    assert Detach(t, src).children[dst[0]] == t.children[dst[0]];
  }

  lemma {:induction false} AdjustStep(src: Path, dst: Path)
    requires |src| > 1 && dst != [] && dst[0] == src[0] && !IsPrefix(src, dst)
    ensures !IsPrefix(src[1..], dst[1..])
    ensures Adjust(dst, src) == [src[0]] + Adjust(dst[1..], src[1..])
  {
    var a, s', d' := src[0], src[1..], dst[1..];
    var d := |src| - 1;
    assert src == [a] + s' && dst == [a] + d';
    if |dst| > d {
      assert dst[..d] == [a] + d'[..d - 1] && src[..d] == [a] + s'[..d - 1];
      assert dst[d] == d'[d - 1] && src[d] == s'[d - 1];
      if dst[..d] == src[..d] && dst[d] > src[d] {
        assert dst[d := dst[d] - 1] == [a] + d'[d - 1 := d'[d - 1] - 1];
      }
    }
  }

  lemma {:induction false} DetachSize(t: Node, src: Path)
    requires ValidPath(t, src) && src != []
    ensures Size(Detach(t, src)) + Size(At(t, src)) == Size(t)
  {
    ParentValid(t, src);
    var par := At(t, Parent(src));
    var k, cs := Last(src), par.children;
    var s := cs[k];
    ReplaceSize(t, Parent(src), par.(children := cs[..k] + cs[k + 1..]));
    assert cs == cs[..k] + [s] + cs[k + 1..];
    ForestAppend(cs[..k] + [s], cs[k + 1..]);
    ForestAppend(cs[..k], [s]);
    ForestAppend(cs[..k], cs[k + 1..]);
    ForestOne(s);
  }

  /**
   * `graft_child(dst, t, src)` within one tree: the subtree at `src` moves to
   * become the last child of the node at `dst`; returns its new position.
   */
  function GraftChild(t: Node, dst: Path, src: Path): (r: (Node, Path))
    requires ValidPath(t, dst) && ValidPath(t, src) && src != [] && !IsPrefix(src, dst)
    ensures ValidPath(r.0, r.1) && At(r.0, r.1) == At(t, src)
    ensures r.1 != [] && Parent(r.1) == Adjust(dst, src)
    ensures Size(r.0) == Size(t)
  {
    DetachKeeps(t, src, dst);
    DetachSize(t, src);
    var r := AppendChild(Detach(t, src), Adjust(dst, src), At(t, src));
    assert Parent(r.1) == Adjust(dst, src);
    r
  }

  lemma {:induction false} GraftChildUnfold(t: Node, dst: Path, src: Path)
    requires ValidPath(t, dst) && ValidPath(t, src) && src != [] && !IsPrefix(src, dst)
    ensures ValidPath(Detach(t, src), Adjust(dst, src))
    ensures GraftChild(t, dst, src) == AppendChild(Detach(t, src), Adjust(dst, src), At(t, src))
  {
    DetachKeeps(t, src, dst);
  }

  /** `graft_child` between two siblings: the one at `a` becomes the last child of the one at `b`. */
  lemma {:induction false} GraftSibling(t: Node, q: Path, a: nat, b: nat)
    requires ValidPath(t, q) && a < |At(t, q).children| && b < |At(t, q).children| && a != b
    ensures ValidPath(t, q + [a]) && ValidPath(t, q + [b]) && !IsPrefix(q + [a], q + [b])
    ensures var cs := At(t, q).children;
      var rest := cs[..a] + cs[a + 1..];
      var b' := if b > a then b - 1 else b;
      GraftChild(t, q + [b], q + [a]) ==
        (Replace(t, q, At(t, q).(children := rest[b' := cs[b].(children := cs[b].children + [cs[a]])])),
         q + [b', |cs[b].children|])
  {
    GraftSiblingDetach(t, q, a, b);
    GraftSiblingAppend(t, q, a, b);
  }

  /** The second half of a graft between siblings: the detached one becomes the last child of the one at `b`. */
  lemma {:induction false} GraftSiblingAppend(t: Node, q: Path, a: nat, b: nat)
    requires ValidPath(t, q) && a < |At(t, q).children| && b < |At(t, q).children| && a != b
    ensures var cs := At(t, q).children;
      var rest := cs[..a] + cs[a + 1..];
      var b' := if b > a then b - 1 else b;
      var t1 := Replace(t, q, At(t, q).(children := rest));
      ValidPath(t1, q + [b']) &&
      AppendChild(t1, q + [b'], cs[a]) ==
        (Replace(t, q, At(t, q).(children := rest[b' := cs[b].(children := cs[b].children + [cs[a]])])),
         q + [b', |cs[b].children|])
  {
    var par := At(t, q);
    var cs := par.children;
    var rest := cs[..a] + cs[a + 1..];
    var b': nat := if b > a then b - 1 else b;
    var x := cs[b].(children := cs[b].children + [cs[a]]);
    var t1 := Replace(t, q, par.(children := rest));
    assert At(t1, q) == par.(children := rest);
    assert rest[b'] == cs[b];
    AppendAtChild(t1, q, b', cs[a]);
    ReplaceTwice(t, q, par.(children := rest), par.(children := rest[b' := x]));
  }

  /** The first half of a graft between siblings: detaching the one at `a` shifts the later ones left. */
  lemma {:induction false} GraftSiblingDetach(t: Node, q: Path, a: nat, b: nat)
    requires ValidPath(t, q) && a < |At(t, q).children| && b < |At(t, q).children| && a != b
    ensures ValidPath(t, q + [a]) && ValidPath(t, q + [b]) && !IsPrefix(q + [a], q + [b])
    ensures ValidPath(Detach(t, q + [a]), q + [if b > a then b - 1 else b])
    ensures Detach(t, q + [a]) == Replace(t, q, At(t, q).(children := At(t, q).children[..a] + At(t, q).children[a + 1..]))
    ensures GraftChild(t, q + [b], q + [a]) ==
      AppendChild(Detach(t, q + [a]), q + [if b > a then b - 1 else b], At(t, q).children[a])
  {
    AtConcat(t, q, [a]);
    AtConcat(t, q, [b]);
    SiblingNotPrefix(q, a, b);
    DetachSibling(t, q, a);
    AdjustSibling(q, a, b);
    GraftChildUnfold(t, q + [b], q + [a]);
  }

  lemma {:induction false} SiblingNotPrefix(q: Path, a: nat, b: nat)
    requires a != b
    ensures !IsPrefix(q + [a], q + [b])
  {
    var src, dst := q + [a], q + [b];
    assert dst[|q|] == b && src[|q|] == a;
    assert dst[..|src|] == dst;
  }

  lemma {:induction false} DetachSibling(t: Node, q: Path, a: nat)
    requires ValidPath(t, q) && a < |At(t, q).children|
    ensures ValidPath(t, q + [a])
    ensures var cs := At(t, q).children;
      Detach(t, q + [a]) == Replace(t, q, At(t, q).(children := cs[..a] + cs[a + 1..]))
  {
    AtConcat(t, q, [a]);
    assert Parent(q + [a]) == q && Last(q + [a]) == a;
  }

  lemma {:induction false} AppendAtChild(t: Node, q: Path, j: nat, c: Node)
    requires ValidPath(t, q) && j < |At(t, q).children|
    ensures ValidPath(t, q + [j])
    ensures var par := At(t, q);
      var x := par.children[j];
      AppendChild(t, q + [j], c) ==
        (Replace(t, q, par.(children := par.children[j := x.(children := x.children + [c])])),
         q + [j, |x.children|])
  {
    var par := At(t, q);
    var x := par.children[j];
    AtConcat(t, q, [j]);
    var y := x.(children := x.children + [c]);
    ReplaceConcat(t, q, [j], y);
    assert Replace(par, [j], y) == par.(children := par.children[j := y]);
    assert q + [j] + [|x.children|] == q + [j, |x.children|];
  }

  lemma {:induction false} AdjustSibling(q: Path, a: nat, b: nat)
    requires a != b
    ensures Adjust(q + [b], q + [a]) == q + [if b > a then b - 1 else b]
  {
    var dst, src := q + [b], q + [a];
    assert dst[..|q|] == q == src[..|q|];
    assert dst[|q|] == b && src[|q|] == a;
    if b > a { assert dst[|q| := b - 1] == q + [b - 1]; }
  }

  /**
   * Inserting a sibling `z` after the `k`-th child of `q` and grafting that
   * child under `z` puts a new node above the child, in its place.
   */
  lemma {:induction false} SpliceAbove(t: Node, q: Path, k: nat)
    requires ValidPath(t, q) && k < |At(t, q).children|
    ensures ValidPath(t, q + [k])
    ensures var par := At(t, q);
      var cs := par.children;
      var t1 := Replace(t, q, par.(children := cs[..k + 1] + [Fresh()] + cs[k + 1..]));
      ValidPath(t1, q + [k]) && ValidPath(t1, q + [k + 1]) && !IsPrefix(q + [k], q + [k + 1]) &&
      GraftChild(t1, q + [k + 1], q + [k]) == (Replace(t, q + [k], Node(Unset, 0.0, [cs[k]])), q + [k, 0])
  {
    var par := At(t, q);
    var cs := par.children;
    var cs1 := cs[..k + 1] + [Fresh()] + cs[k + 1..];
    var m := Node(Unset, 0.0, [cs[k]]);
    var t1 := Replace(t, q, par.(children := cs1));
    AtConcat(t, q, [k]);
    assert GraftChild(t1, q + [k + 1], q + [k]) == (Replace(t1, q, par.(children := cs[k := m])), q + [k, 0]) by {
      SpliceSeq(cs, k);
      GraftSibling(t1, q, k, k + 1);
    }
    ReplaceTwice(t, q, par.(children := cs1), par.(children := cs[k := m]));
    ReplaceChild(t, q, k, m);
  }

  /** The children of `q` through the splice: `z` inserted after child `k`, then child `k` moved under `z`. */
  lemma {:induction false} SpliceSeq(cs: seq<Node>, k: nat)
    requires k < |cs|
    ensures var cs1 := cs[..k + 1] + [Fresh()] + cs[k + 1..];
      |cs1| == |cs| + 1 && cs1[k] == cs[k] && cs1[k + 1] == Fresh() &&
      (cs1[..k] + cs1[k + 1..])[k := cs1[k + 1].(children := cs1[k + 1].children + [cs1[k]])] ==
        cs[k := Node(Unset, 0.0, [cs[k]])]
  {
    var cs1 := cs[..k + 1] + [Fresh()] + cs[k + 1..];
    var m := Node(Unset, 0.0, [cs[k]]);
    assert cs1[k] == cs[k] && cs1[k + 1] == Fresh();
    assert cs1[k + 1].(children := cs1[k + 1].children + [cs1[k]]) == m;
    assert cs1[..k] + cs1[k + 1..] == cs[..k] + [Fresh()] + cs[k + 1..];
    assert (cs[..k] + [Fresh()] + cs[k + 1..])[k := m] == cs[k := m];
  }

  // ---------------------------------------------------------------------------
  // A whole phylo: the header above one root

  lemma {:induction false} HeaderReplace(x: Node, y: Node)
    ensures Replace(Header(x), [0], y) == Header(y)
  {
    assert [0][0] == 0 && [0][1..] == [];
  }

  /** `graft_tree(root(), other)` on a tree whose root is unlabelled appends `other`'s root to its children. */
  lemma {:induction false} GraftUnderRoot(cs: seq<Node>, other: Node)
    requires other.children != []
    ensures ValidPath(Header(Node(Unset, 0.0, cs)), [0])
    ensures GraftTree(Header(Node(Unset, 0.0, cs)), [0], other).0 == Header(Node(Unset, 0.0, cs + [Root(other)]))
  {
    var t := Header(Node(Unset, 0.0, cs));
    assert At(t, [0]) == Node(Unset, 0.0, cs);
    var t1 := GraftTree(t, [0], other).0;
    HeaderReplace(Node(Unset, 0.0, cs), At(t1, [0]));
  }

  /** The `k`-th child of an unlabelled root is at `[0, k]`, and replacing it replaces that child. */
  lemma {:induction false} HeaderChild(cs: seq<Node>, k: nat, s: Node)
    requires k < |cs|
    ensures ValidPath(Header(Node(Unset, 0.0, cs)), [0, k]) && At(Header(Node(Unset, 0.0, cs)), [0, k]) == cs[k]
    ensures Replace(Header(Node(Unset, 0.0, cs)), [0, k], s) == Header(Node(Unset, 0.0, cs[k := s]))
  {
    var r := Node(Unset, 0.0, cs);
    assert [0, k] == [0] + [k];
    assert [0][0] == 0 && [0][1..] == [];
    assert [k][0] == k && [k][1..] == [];
    AtConcat(Header(r), [0], [k]);
    ReplaceConcat(Header(r), [0], [k], s);
    HeaderReplace(r, Replace(r, [k], s));
  }

  /** Writing back what is already there changes nothing. */
  lemma {:induction false} ReplaceSelf(n: Node, p: Path)
    requires ValidPath(n, p)
    ensures Replace(n, p, At(n, p)) == n
    decreases |p|
  {
    if p != [] {
      ReplaceSelf(n.children[p[0]], p[1..]);
      assert n.children[p[0] := n.children[p[0]]] == n.children;
    }
  }
}
