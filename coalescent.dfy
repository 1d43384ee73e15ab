/**
 * `coalescent`: a tree built bottom-up. All `ntax` leaves start as children
 * of the root; while more than two remain, two of the root's children,
 * picked at random, are joined under a new node. A list of heights, kept in
 * step with the root's children, records when each child was created, and
 * the branch lengths are set from it so that every leaf ends at the same
 * distance from the root.
 *
 * The draws are the input `draws`: the round with `r` lineages left uses
 * `draws[ntax - r]`, whose `wait` is the value of `random_exp(birthRate/r)`
 * and whose `i` and `j` are the values of `random_num(r)` and
 * `random_num(r - 1)`.
 */
module CoalescentSim {
  import opened PhyloTree

  /** The random values drawn in one round. */
  datatype Draw = Draw(wait: real, i: nat, j: nat)

  /** What `random_exp` and `random_num` promise for the round with `r` lineages. */
  predicate InRange(d: Draw, r: nat)
  {
    d.wait >= 0.0 && d.i < r && d.j < r - 1
  }

  /** The sum of the waits: the height reached after those rounds. */
  function Total(ds: seq<Draw>): real
  {
    if ds == [] then 0.0 else Total(ds[..|ds| - 1]) + ds[|ds| - 1].wait
  }

  /** Lines 172-175: two distinct indices below `r`, the second moved up by one when it equals the first. */
  function PickPair(d: Draw, r: nat): (p: (nat, nat))
    requires InRange(d, r)
    ensures p.0 < r && p.1 < r && p.0 != p.1
    ensures p.0 == d.i && (p.1 == d.j || p.1 == d.j + 1)
  {
    if d.j == d.i then (d.i, d.j + 1) else (d.i, d.j)
  }

  function Min(a: int, b: int): int { if a < b then a else b }

  function Max(a: int, b: int): int { if a < b then b else a }

  /**
   * `n`, with every branch below it of non-negative length, has all its
   * leaves at distance `h` below it. The node's own branch does not count.
   */
  predicate Clock(n: Node, h: real)
  {
    if n.children == [] then h == 0.0
    else forall k :: 0 <= k < |n.children| ==>
      n.children[k].length >= 0.0 && Clock(n.children[k], h - n.children[k].length)
  }

  /**
   * The lineages between rounds: as many heights as children of the root,
   * each child a bifurcating subtree whose leaves are all `heights[k]`
   * below it, and no height above the current one.
   */
  ghost predicate Lineages(cs: seq<Node>, heights: seq<real>, height: real)
  {
    |cs| == |heights| &&
    forall k :: 0 <= k < |cs| ==> heights[k] <= height && Clock(cs[k], heights[k]) && Bifurcating(cs[k])
  }

  /** `s` with the elements at `lo` and `hi` removed and `v` put where the one before `hi` now sits. */
  function Coalesce<T>(s: seq<T>, lo: nat, hi: nat, v: T): (r: seq<T>)
    requires lo < hi < |s|
    ensures |r| == |s| - 1 && r[hi - 1] == v
    ensures forall k :: 0 <= k < lo ==> r[k] == s[k]
    ensures forall k :: lo <= k < hi - 1 ==> r[k] == s[k + 1]
    ensures forall k :: hi <= k < |r| ==> r[k] == s[k + 1]
  {
    s[..lo] + s[lo + 1..hi] + [v] + s[hi + 1..]
  }

  /** The root's children with the branch above child `k` set to `height - heights[k]`. */
  function Lengthen(cs: seq<Node>, heights: seq<real>, height: real, k: nat): (r: seq<Node>)
    requires k < |cs| && |cs| == |heights|
    ensures |r| == |cs| && r[k] == cs[k].(length := height - heights[k])
    ensures forall m :: 0 <= m < |cs| && m != k ==> r[m] == cs[m]
  {
    cs[k := cs[k].(length := height - heights[k])]
  }

  // ---------------------------------------------------------------------------
  // The operations of one round, on the tree

  /** Lines 159-161: a new last child of the root, with length 0 and label `v`. */
  method AddLeaf(t: Node, ghost cs: seq<Node>, v: int) returns (t': Node)
    requires t == Header(Node(Unset, 0.0, cs))
    ensures t' == Header(Node(Unset, 0.0, cs + [Leaf(v)]))
  {
    var (t1, p) := InsertChild(t, [0]);
    var cs1 := cs + [Fresh()];
    assert t1 == Header(Node(Unset, 0.0, cs1)) && p == [0, |cs|] by {
      HeaderReplace(Node(Unset, 0.0, cs), At(t1, [0]));
    }
    HeaderChild(cs1, |cs|, Fresh());
    var t2 := SetLength(t1, p, 0.0);
    assert t2 == t1 by {
      ReplaceSelf(t1, p);
    }
    t' := SetId(t2, p, v);
    assert cs1[|cs| := Leaf(v)] == cs + [Leaf(v)];
    HeaderChild(cs1, |cs|, Leaf(v));
  }

  /**
   * Lines 181-197: walk right along the root's children to the `min(i,j)`-th
   * (`x`, with its height at `hx`) and on to the `max(i,j)`-th (`y`, `hy`).
   */
  method FindPair(t: Node, ghost cs: seq<Node>, i: nat, j: nat) returns (x: Path, y: Path, hx: nat, hy: nat)
    requires t == Header(Node(Unset, 0.0, cs)) && i < |cs| && j < |cs| && i != j
    ensures hx == Min(i, j) && hy == Max(i, j) && x == [0, hx] && y == [0, hy]
  {
    HeaderChild(cs, 0, cs[0]);
    assert [0] + [0] == [0, 0];
    x := Left(t, [0]).value;
    hx := 0;
    var k := 0;
    while k < Min(i, j)
      invariant k <= Min(i, j) && x == [0, k] && hx == k
    {
      HeaderChild(cs, k, cs[k]);
      assert Parent(x) == [0] && Last(x) == k;
      x := Right(t, x).value;
      hx := hx + 1;
      k := k + 1;
    }
    k := k + 1;
    HeaderChild(cs, hx, cs[hx]);
    assert Parent(x) == [0] && Last(x) == hx;
    y := Right(t, x).value;
    hy := hx + 1;
    while k < Max(i, j)
      invariant k <= Max(i, j) && y == [0, k] && hy == k
    {
      HeaderChild(cs, k, cs[k]);
      assert Parent(y) == [0] && Last(y) == k;
      y := Right(t, y).value;
      hy := hy + 1;
      k := k + 1;
    }
  }

  /** Line 200 or 201: set the branch above child `k` of the root. */
  method SetBranch(t: Node, ghost cs: seq<Node>, heights: seq<real>, height: real, k: nat) returns (t': Node)
    requires t == Header(Node(Unset, 0.0, cs)) && k < |cs| && |cs| == |heights|
    ensures t' == Header(Node(Unset, 0.0, Lengthen(cs, heights, height, k)))
  {
    HeaderChild(cs, k, cs[k].(length := height - heights[k]));
    t' := SetLength(t, [0, k], height - heights[k]);
  }

  /**
   * Lines 205-210: a new node `z` inserted after `y` (child `hi`), then `y`
   * and `x` (child `lo`) grafted under it, in that order. `z` ends where
   * the child before `y` now sits, with children `y` and `x`.
   */
  method Join(t: Node, ghost cs: seq<Node>, lo: nat, hi: nat) returns (t': Node)
    requires t == Header(Node(Unset, 0.0, cs)) && lo < hi < |cs|
    ensures t' == Header(Node(Unset, 0.0, Coalesce(cs, lo, hi, Node(Unset, 0.0, [cs[hi], cs[lo]]))))
  {
    var x, y := [0, lo], [0, hi];
    HeaderChild(cs, hi, cs[hi]);
    JoinSplice(cs, hi);
    var (t1, z) := InsertSibling(t, y);
    t1 := SetLength(t1, z, 0.0);
    var (t2, _) := GraftChild(t1, z, y);
    var m := Node(Unset, 0.0, [cs[hi]]);
    assert t2 == Header(Node(Unset, 0.0, cs[hi := m]));
    // the iterator `z` keeps pointing at the new node, now child `hi`
    var z' := Adjust(z, y);
    assert z' == [0, hi] by {
      AdjustSibling([0], hi, hi + 1);
    }
    JoinGraft(cs, lo, hi);
    var (t3, _) := GraftChild(t2, z', x);
    t' := t3;
  }

  /** The first half of `Join`: `z` inserted after child `hi` and child `hi` moved under it. */
  lemma {:induction false} JoinSplice(cs: seq<Node>, hi: nat)
    requires hi < |cs|
    ensures var t := Header(Node(Unset, 0.0, cs));
      var y := [0, hi];
      var (t1, z) := InsertSibling(t, y);
      ValidPath(t1, z) && At(t1, z) == Fresh() &&
      var t1' := SetLength(t1, z, 0.0);
      ValidPath(t1', z) && ValidPath(t1', y) && !IsPrefix(y, z) && z == [0, hi + 1] &&
      GraftChild(t1', z, y).0 == Header(Node(Unset, 0.0, cs[hi := Node(Unset, 0.0, [cs[hi]])]))
  {
    var t := Header(Node(Unset, 0.0, cs));
    var y := [0, hi];
    var r := Node(Unset, 0.0, cs);
    assert y == [0] + [hi] && [0] + [hi + 1] == [0, hi + 1];
    assert Parent(y) == [0] && Last(y) == hi;
    assert At(t, [0]) == r;
    SpliceAbove(t, [0], hi);
    var (t1, z) := InsertSibling(t, y);
    ReplaceSelf(t1, z);
    assert GraftChild(t1, z, y).0 == Replace(t, y, Node(Unset, 0.0, [cs[hi]]));
    HeaderChild(cs, hi, Node(Unset, 0.0, [cs[hi]]));
  }

  /** The second half of `Join`: child `lo` moved under `z`, which sits at `hi`. */
  lemma {:induction false} JoinGraft(cs: seq<Node>, lo: nat, hi: nat)
    requires lo < hi < |cs|
    ensures var m := Node(Unset, 0.0, [cs[hi]]);
      var t2 := Header(Node(Unset, 0.0, cs[hi := m]));
      ValidPath(t2, [0, hi]) && ValidPath(t2, [0, lo]) && !IsPrefix([0, lo], [0, hi]) &&
      GraftChild(t2, [0, hi], [0, lo]).0 ==
        Header(Node(Unset, 0.0, Coalesce(cs, lo, hi, Node(Unset, 0.0, [cs[hi], cs[lo]]))))
  {
    var m := Node(Unset, 0.0, [cs[hi]]);
    var cs2 := cs[hi := m];
    var r2 := Node(Unset, 0.0, cs2);
    var t2 := Header(r2);
    assert [0, lo] == [0] + [lo] && [0, hi] == [0] + [hi];
    assert At(t2, [0]) == r2;
    GraftSibling(t2, [0], lo, hi);
    var rest := cs2[..lo] + cs2[lo + 1..];
    var zx := m.(children := m.children + [cs2[lo]]);
    assert cs2[lo] == cs[lo] && zx == Node(Unset, 0.0, [cs[hi], cs[lo]]);
    EraseAfterSet(cs, lo, hi, m);
    CoalesceSet(cs, lo, hi, m, zx);
    HeaderReplace(r2, r2.(children := rest[hi - 1 := zx]));
  }

  // ---------------------------------------------------------------------------
  // What a round keeps

  /** Setting the branch above a child of the root changes neither sizes, nor labels, nor the clock below it. */
  lemma {:induction false} LengthenKeeps(cs: seq<Node>, heights: seq<real>, height: real, k: nat)
    requires Lineages(cs, heights, height) && k < |cs|
    ensures Lineages(Lengthen(cs, heights, height, k), heights, height)
    ensures ForestSize(Lengthen(cs, heights, height, k)) == ForestSize(cs)
    ensures ForestLeafIds(Lengthen(cs, heights, height, k)) == ForestLeafIds(cs)
  {
    var c := cs[k].(length := height - heights[k]);
    var r := Lengthen(cs, heights, height, k);
    assert Clock(c, heights[k]) && Bifurcating(c);
    assert LeafIds(c) == LeafIds(cs[k]) && Size(c) == Size(cs[k]);
    ForestUpdate(cs, k, c);
    ForestSplit(cs, k);
  }

  /** Joining children `lo` and `hi` under a new node adds one node and keeps the labels. */
  lemma {:induction false} CoalesceForest(cs: seq<Node>, lo: nat, hi: nat)
    requires lo < hi < |cs|
    ensures var z := Node(Unset, 0.0, [cs[hi], cs[lo]]);
      ForestSize(Coalesce(cs, lo, hi, z)) == ForestSize(cs) + 1 &&
      multiset(ForestLeafIds(Coalesce(cs, lo, hi, z))) == multiset(ForestLeafIds(cs))
  {
    var z := Node(Unset, 0.0, [cs[hi], cs[lo]]);
    var a, b, c := cs[..lo], cs[lo + 1..hi], cs[hi + 1..];
    assert cs == a + [cs[lo]] + b + [cs[hi]] + c;
    assert Coalesce(cs, lo, hi, z) == a + b + [z] + c;
    ForestAppend(a + [cs[lo]] + b + [cs[hi]], c);
    ForestAppend(a + [cs[lo]] + b, [cs[hi]]);
    ForestAppend(a + [cs[lo]], b);
    ForestAppend(a, [cs[lo]]);
    ForestAppend(a + b + [z], c);
    ForestAppend(a + b, [z]);
    ForestAppend(a, b);
    ForestOne(cs[lo]);
    ForestOne(cs[hi]);
    ForestOne(z);
    ForestPair(cs[hi], cs[lo]);
  }

  /** Children and heights edited at the same places stay in step. */
  lemma {:induction false} CoalesceLineages(cs: seq<Node>, heights: seq<real>, height: real, lo: nat, hi: nat, z: Node)
    requires Lineages(cs, heights, height) && lo < hi < |cs|
    requires Clock(z, height) && Bifurcating(z)
    ensures Lineages(Coalesce(cs, lo, hi, z), Coalesce(heights, lo, hi, height), height)
  {
    var cs', hs' := Coalesce(cs, lo, hi, z), Coalesce(heights, lo, hi, height);
    forall k | 0 <= k < |cs'| ensures hs'[k] <= height && Clock(cs'[k], hs'[k]) && Bifurcating(cs'[k]) {
      if k < lo {
        assert cs'[k] == cs[k] && hs'[k] == heights[k];
      } else if k < hi - 1 {
        assert cs'[k] == cs[k + 1] && hs'[k] == heights[k + 1];
      } else if k >= hi {
        assert cs'[k] == cs[k + 1] && hs'[k] == heights[k + 1];
      }
    }
  }

  /** Two lineages of heights `ha` and `hb`, hung with branches reaching up to `height`, make one of height `height`. */
  lemma {:induction false} JoinClock(a: Node, b: Node, ha: real, hb: real, height: real)
    requires Clock(a, ha) && Clock(b, hb) && ha <= height && hb <= height
    ensures Clock(Node(Unset, 0.0, [b.(length := height - hb), a.(length := height - ha)]), height)
  {
    var a', b' := a.(length := height - ha), b.(length := height - hb);
    var z := Node(Unset, 0.0, [b', a']);
    assert z.children[0] == b' && z.children[1] == a';
    assert height - b'.length == hb && height - a'.length == ha;
    assert Clock(b', hb) && Clock(a', ha);
  }

  /**
   * A round with `r > 2`: after the branches above `x` and `y` are set, the
   * new node joining them has all its leaves `height` below it, and the
   * heights, edited at the same places as the children, stay in step.
   */
  lemma {:induction false} JoinKeeps(cs: seq<Node>, heights: seq<real>, height: real, lo: nat, hi: nat)
    requires Lineages(cs, heights, height) && lo < hi < |cs|
    ensures var c2 := Lengthen(Lengthen(cs, heights, height, lo), heights, height, hi);
      var cs' := Coalesce(c2, lo, hi, Node(Unset, 0.0, [c2[hi], c2[lo]]));
      Lineages(cs', Coalesce(heights, lo, hi, height), height) &&
      ForestSize(cs') == ForestSize(cs) + 1 &&
      multiset(ForestLeafIds(cs')) == multiset(ForestLeafIds(cs))
  {
    var c1 := Lengthen(cs, heights, height, lo);
    LengthenKeeps(cs, heights, height, lo);
    var c2 := Lengthen(c1, heights, height, hi);
    LengthenKeeps(c1, heights, height, hi);
    assert c2[hi] == cs[hi].(length := height - heights[hi]) && c2[lo] == cs[lo].(length := height - heights[lo]);
    var z := Node(Unset, 0.0, [c2[hi], c2[lo]]);
    CoalesceForest(c2, lo, hi);
    assert Clock(z, height) by {
      JoinClock(cs[lo], cs[hi], heights[lo], heights[hi], height);
    }
    Fork(c2[hi], c2[lo], 0.0);
    CoalesceLineages(c2, heights, height, lo, hi, z);
  }

  /** The last round (`r == 2`): with both branches set, every leaf is `height` below the root. */
  lemma {:induction false} FinalClock(cs: seq<Node>, heights: seq<real>, height: real)
    requires Lineages(cs, heights, height) && |cs| == 2
    ensures var c2 := Lengthen(Lengthen(cs, heights, height, 0), heights, height, 1);
      Clock(Node(Unset, 0.0, c2), height) && Bifurcating(Node(Unset, 0.0, c2)) &&
      ForestSize(c2) == ForestSize(cs) && ForestLeafIds(c2) == ForestLeafIds(cs)
  {
    var c1 := Lengthen(cs, heights, height, 0);
    LengthenKeeps(cs, heights, height, 0);
    var c2 := Lengthen(c1, heights, height, 1);
    LengthenKeeps(c1, heights, height, 1);
    assert height - c2[0].length == heights[0] && height - c2[1].length == heights[1];
    assert c2 == [c2[0], c2[1]];
    Fork(c2[0], c2[1], 0.0);
  }

  /** The state after the last round, for every `ntax`. */
  ghost predicate Done(cs: seq<Node>, height: real, ntax: nat)
  {
    Clock(Node(Unset, 0.0, cs), height) &&
    (ntax == 0 ==> cs == []) &&
    (ntax == 1 ==> cs == [Leaf(1)]) &&
    (ntax >= 2 ==>
      |cs| == 2 && Bifurcating(Node(Unset, 0.0, cs)) && ForestSize(cs) == 2 * ntax - 2 &&
      multiset(ForestLeafIds(cs)) == multiset(Range(1, ntax + 1)))
  }

  // ---------------------------------------------------------------------------
  // The generator

  /** Lines 150-163: the root with leaves ntax, ntax-1, ..., 1 as its children, all of height 0. */
  method Lineup(ntax: nat) returns (t: Node, ghost cs: seq<Node>, heights: seq<real>)
    ensures t == Header(Node(Unset, 0.0, cs)) && |cs| == ntax == |heights|
    ensures forall k :: 0 <= k < ntax ==> cs[k] == Leaf(ntax - k) && heights[k] == 0.0
    ensures Lineages(cs, heights, 0.0) && ForestSize(cs) == ntax
    ensures multiset(ForestLeafIds(cs)) == multiset(Range(1, ntax + 1))
  {
    var (t0, _) := InsertChild(Empty(), []);
    assert t0 == Header(Fresh());
    t, cs, heights := t0, [], [];
    for i := 0 to ntax
      invariant t == Header(Node(Unset, 0.0, cs)) && |cs| == i == |heights|
      invariant forall k :: 0 <= k < i ==> cs[k] == Leaf(ntax - k)
      invariant forall k :: 0 <= k < i ==> heights[k] == 0.0
      invariant ForestSize(cs) == i && multiset(ForestLeafIds(cs)) == multiset(Range(ntax - i + 1, ntax + 1))
    {
      t := AddLeaf(t, cs, ntax - i);
      LineupStep(cs, ntax, i);
      cs := cs + [Leaf(ntax - i)];
      heights := [0.0] + heights;
    }
    assert ntax - ntax + 1 == 1;
    LineupLineages(cs, heights, ntax);
  }

  lemma {:induction false} LineupStep(cs: seq<Node>, ntax: nat, i: nat)
    requires i < ntax + 1
    requires ForestSize(cs) == i && multiset(ForestLeafIds(cs)) == multiset(Range(ntax - i + 1, ntax + 1))
    ensures ForestSize(cs + [Leaf(ntax - i)]) == i + 1
    ensures multiset(ForestLeafIds(cs + [Leaf(ntax - i)])) == multiset(Range(ntax - i, ntax + 1))
  {
    var c := cs + [Leaf(ntax - i)];
    assert c[..|c| - 1] == cs;
    assert ForestSize(c) == ForestSize(cs) + Size(Leaf(ntax - i));
    assert Size(Leaf(ntax - i)) == 1 + ForestSize([]);
    var a := ForestLeafIds(cs);
    assert ForestLeafIds(c) == a + [ntax - i];
    assert multiset(a + [ntax - i]) == multiset(a) + multiset{ntax - i};
    assert Range(ntax - i, ntax + 1) == [ntax - i] + Range(ntax - i + 1, ntax + 1);
  }

  /** Leaves of height 0 are lineages at any height from 0 on. */
  lemma {:induction false} LineupLineages(cs: seq<Node>, heights: seq<real>, ntax: nat)
    requires |cs| == ntax == |heights|
    requires forall k :: 0 <= k < ntax ==> cs[k] == Leaf(ntax - k) && heights[k] == 0.0
    ensures Lineages(cs, heights, 0.0)
  {
    forall k | 0 <= k < ntax ensures heights[k] <= 0.0 && Clock(cs[k], heights[k]) && Bifurcating(cs[k]) {
      assert cs[k] == Leaf(ntax - k);
    }
  }

  /**
   * One pass of the loop of lines 166-212, with `r` lineages: the height
   * grows by the wait, two children `x` and `y` are picked, their branches
   * set to reach the new height, and, when `r > 2`, they are joined under a
   * new node while the heights are edited in step. With `r == 2` the two
   * remaining children only get their branches, and then every leaf is at
   * the new height below the root.
   */
  method Round(t: Node, ghost cs: seq<Node>, heights: seq<real>, height: real, r: nat, d: Draw, ghost ntax: nat)
    returns (t': Node, ghost cs': seq<Node>, heights': seq<real>, height': real)
    requires t == Header(Node(Unset, 0.0, cs)) && 2 <= r <= ntax
    requires Running(cs, heights, height, ntax, r) && InRange(d, r)
    ensures height' == height + d.wait && t' == Header(Node(Unset, 0.0, cs'))
    ensures r > 2 ==> Running(cs', heights', height', ntax, r - 1)
    ensures r == 2 ==> Done(cs', height', ntax)
    ensures Merged(cs, heights, height', d, r, cs', heights')
  {
    height' := height + d.wait;
    LineagesLater(cs, heights, height, height');
    var (i, j) := PickPair(d, r);
    var x, y, hx, hy := FindPair(t, cs, i, j);
    // lines 200-201: both branches reach from the child's own height up to the new one
    t' := SetBranch(t, cs, heights, height', hx);
    ghost var c1 := Lengthen(cs, heights, height', hx);
    t' := SetBranch(t', c1, heights, height', hy);
    ghost var c2 := Lengthen(c1, heights, height', hy);
    heights' := heights;
    if r > 2 {
      JoinKeeps(cs, heights, height', hx, hy);
      t' := Join(t', c2, hx, hy);
      cs' := Coalesce(c2, hx, hy, Node(Unset, 0.0, [c2[hy], c2[hx]]));
      // lines 207-208: the joined node takes the new height, in the slot of the later child
      heights' := heights'[hy := height'];
      heights' := heights'[..hx] + heights'[hx + 1..];
      EraseAfterSet(heights, hx, hy, height');
    } else {
      FinalClock(cs, heights, height');
      cs' := c2;
    }
    Advance(cs, cs', heights', height', ntax, r);
  }

  /**
   * What a round with draw `d` does to the children and heights: the
   * children `lo` and `hi` of the drawn pair get branches up to `height`;
   * with `r > 2` they are replaced by one node with children `hi` then `lo`
   * at index `hi - 1`, and the heights get the same edit with `height`
   * there; with `r == 2` only the branches are set.
   */
  ghost predicate Merged(cs: seq<Node>, heights: seq<real>, height: real, d: Draw, r: nat,
                         cs': seq<Node>, heights': seq<real>)
    requires InRange(d, r) && |cs| == r == |heights|
  {
    var p := PickPair(d, r);
    var lo, hi := Min(p.0, p.1), Max(p.0, p.1);
    var c2 := Lengthen(Lengthen(cs, heights, height, lo), heights, height, hi);
    (r > 2 ==> cs' == Coalesce(c2, lo, hi, Node(Unset, 0.0, [c2[hi], c2[lo]])) &&
               heights' == Coalesce(heights, lo, hi, height)) &&
    (r == 2 ==> cs' == c2 && heights' == heights)
  }

  /** Setting entry `hi` and then erasing entry `lo` (the height edits of lines 207-208) is a `Coalesce`. */
  lemma {:induction false} EraseAfterSet<T>(s: seq<T>, lo: nat, hi: nat, v: T)
    requires lo < hi < |s|
    ensures var h := s[hi := v]; h[..lo] + h[lo + 1..] == Coalesce(s, lo, hi, v)
  {
    var h := s[hi := v];
    var e := h[..lo] + h[lo + 1..];
    var c := Coalesce(s, lo, hi, v);
    assert |e| == |c|;
    forall k | 0 <= k < |e| ensures e[k] == c[k] {
      if k < lo {
        assert e[k] == h[k];
      } else {
        assert e[k] == h[k + 1];
      }
    }
  }

  /** Overwriting the joined entry of a `Coalesce`. */
  lemma {:induction false} CoalesceSet<T>(s: seq<T>, lo: nat, hi: nat, v: T, w: T)
    requires lo < hi < |s|
    ensures Coalesce(s, lo, hi, v)[hi - 1 := w] == Coalesce(s, lo, hi, w)
  {
    var a, b := Coalesce(s, lo, hi, v)[hi - 1 := w], Coalesce(s, lo, hi, w);
    assert |a| == |b|;
    forall k | 0 <= k < |a| ensures a[k] == b[k] {
      if k != hi - 1 {
        assert a[k] == Coalesce(s, lo, hi, v)[k];
      }
    }
  }

  /** Lineages stay lineages as time goes on. */
  lemma {:induction false} LineagesLater(cs: seq<Node>, heights: seq<real>, height: real, later: real)
    requires Lineages(cs, heights, height) && height <= later
    ensures Lineages(cs, heights, later)
  {
  }

  /**
   * `coalescent(tree, ntax, birthRate)`: the tree passed in is discarded.
   * The result has all its leaves at the same distance below the root,
   * the sum of the waits, and no negative branch; for `ntax >= 2` the root
   * has two children, the tree is bifurcating with `2*ntax - 1` nodes and
   * the leaves are labelled 1 .. ntax, once each.
   */
  method Coalescent(ntax: nat, draws: seq<Draw>) returns (tree: Node)
    requires |draws| == if ntax >= 2 then ntax - 1 else 0
    requires forall s :: 0 <= s < |draws| ==> InRange(draws[s], ntax - s)
    ensures |tree.children| == 1 && Clock(Root(tree), Total(draws))
    ensures ntax == 0 ==> IsLeaf(Root(tree))
    ensures ntax == 1 ==> Root(tree).children == [Leaf(1)]
    ensures ntax >= 2 ==>
      (|Root(tree).children| == 2 && Bifurcating(Root(tree)) && Size(Root(tree)) == 2 * ntax - 1)
    ensures ntax >= 1 ==> multiset(LeafIds(Root(tree))) == multiset(Range(1, ntax + 1))
  {
    var t, cs, heights := Lineup(ntax);
    var height := 0.0;
    var r: int := ntax;
    assert draws[..0] == [];
    Start(cs, heights, ntax);
    while r >= 2
      invariant (ntax >= 1 ==> 1 <= r <= ntax) && (ntax == 0 ==> r == 0)
      invariant height == Total(draws[..ntax - r]) && t == Header(Node(Unset, 0.0, cs))
      invariant r >= 2 ==> Running(cs, heights, height, ntax, r)
      invariant r < 2 ==> Done(cs, height, ntax)
      decreases r
    {
      TotalStep(draws, ntax - r);
      t, cs, heights, height := Round(t, cs, heights, height, r, draws[ntax - r], ntax);
      r := r - 1;
    }
    tree := t;
    assert draws[..ntax - r] == draws;
    DoneTree(cs, height, ntax);
  }

  /** The state between rounds, with `r` lineages left out of `ntax`. */
  ghost predicate Running(cs: seq<Node>, heights: seq<real>, height: real, ntax: nat, r: nat)
  {
    |cs| == r && Lineages(cs, heights, height) && ForestSize(cs) == 2 * ntax - r &&
    multiset(ForestLeafIds(cs)) == multiset(Range(1, ntax + 1))
  }

  /** The state before the first round. */
  lemma {:induction false} Start(cs: seq<Node>, heights: seq<real>, ntax: nat)
    requires |cs| == ntax && forall k :: 0 <= k < ntax ==> cs[k] == Leaf(ntax - k)
    requires Lineages(cs, heights, 0.0) && ForestSize(cs) == ntax
    requires multiset(ForestLeafIds(cs)) == multiset(Range(1, ntax + 1))
    ensures ntax >= 2 ==> Running(cs, heights, 0.0, ntax, ntax)
    ensures ntax < 2 ==> Done(cs, 0.0, ntax)
  {
    if ntax == 1 {
      assert cs == [Leaf(1)];
      assert Clock(Node(Unset, 0.0, cs), 0.0) by {
        assert Clock(cs[0], 0.0 - cs[0].length);
      }
    }
  }

  /** What one round does to the state between rounds. */
  lemma {:induction false} Advance(cs: seq<Node>, cs': seq<Node>, heights': seq<real>, height': real, ntax: nat, r: nat)
    requires 2 <= r <= ntax
    requires |cs| == r && ForestSize(cs) == 2 * ntax - r && multiset(ForestLeafIds(cs)) == multiset(Range(1, ntax + 1))
    requires r > 2 ==>
      (|cs'| == r - 1 && Lineages(cs', heights', height') &&
       ForestSize(cs') == ForestSize(cs) + 1 && multiset(ForestLeafIds(cs')) == multiset(ForestLeafIds(cs)))
    requires r == 2 ==>
      (|cs'| == 2 && Clock(Node(Unset, 0.0, cs'), height') && Bifurcating(Node(Unset, 0.0, cs')) &&
       ForestSize(cs') == ForestSize(cs) && ForestLeafIds(cs') == ForestLeafIds(cs))
    ensures r > 2 ==> Running(cs', heights', height', ntax, r - 1)
    ensures r == 2 ==> Done(cs', height', ntax)
  {
  }

  lemma {:induction false} TotalStep(ds: seq<Draw>, m: nat)
    requires m < |ds|
    ensures Total(ds[..m + 1]) == Total(ds[..m]) + ds[m].wait
  {
    assert ds[..m + 1][..m] == ds[..m];
  }

  /** What the finished state says about the tree. */
  lemma {:induction false} DoneTree(cs: seq<Node>, height: real, ntax: nat)
    requires Done(cs, height, ntax)
    ensures var root := Node(Unset, 0.0, cs);
      Clock(root, height) &&
      (ntax == 0 ==> IsLeaf(root)) &&
      (ntax >= 2 ==> |cs| == 2 && Bifurcating(root) && Size(root) == 2 * ntax - 1) &&
      (ntax >= 1 ==> multiset(LeafIds(root)) == multiset(Range(1, ntax + 1)))
  {
    if ntax == 1 {
      ForestOne(Leaf(1));
      assert Range(1, 2) == [1];
    } else if ntax >= 2 {
      PairLeaves(cs);
    }
  }

  lemma {:induction false} PairLeaves(cs: seq<Node>)
    requires |cs| == 2
    ensures Size(Node(Unset, 0.0, cs)) == 1 + ForestSize(cs)
    ensures LeafIds(Node(Unset, 0.0, cs)) == ForestLeafIds(cs)
  {
  }
}
