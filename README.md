# Random phylogeny generators of Phylib, modelled in Dafny

Phylib's `trees/phylo_sim.h` builds random phylogenies in a `phylo<T>`
container: an ordered multi-way tree under a virtual header node, whose
nodes carry a taxon label `id` (-1 for no taxon) and a branch `length`.
This project models the six generators of that file and the few container
operations they call, with every random draw made an input:

- `sim_uniform_phylo` attaches leaf 1, 2, ... in turn above a node reached
  by `rand() % nnodes` steps of `next_pre()` from the root
  (`UniformSim.SimUniformPhylo`).
- `sim_caterpillar_phylo` splits the bottom leaf again and again
  (`CaterpillarSim.SimCaterpillarPhylo`). It is proved to build the ladder
  `Ladder(0, ntax)`, and the ladder's node count, labels, shape and deepest
  leaves are proved separately.
- `_sim_balanced_phylo_recurse` builds the balanced shape
  (`BalancedSim.BalancedRecurse`), and `sim_rooted_balanced` and
  `sim_unrooted_balanced` relabel its leaves in pre-order from a shuffled
  `0 .. ntax-1` (`BalancedSim.RelabelLeaves`,
  `BalancedSim.SimRootedBalanced`, `BalancedSim.SimUnrootedBalanced`).
- `coalescent` joins pairs of the root's children until two remain. It
  keeps a list of heights in step with those children
  (`CoalescentSim.Coalescent`). The result is proved ultrametric: every
  leaf lies at the total waiting time below the root, along branches of
  non-negative length.

The container is a value. A `Node` holds its `id`, its `length` and the
sequence of its children. A whole tree is its header node: path `[]` is
`header()` and path `[0]` is `root()`. An iterator is the path of child
indices leading to its node. The container operations are pure functions
in `PhyloTree`: `insert_child`, `insert_sibling`, `graft_child` within one
tree, `graft_child` of another tree, `left`, `right`, `next_pre`, and the
writes to `id` and `length`. Each is specified by what it does to the tree
at and around the position it is given. The generators are methods that
run the source's loops over such a value.

The random draws are inputs with the ranges the library promises:
- `sim_uniform_phylo` gets `rand: nat -> nat`. Step `i` uses `rand(i)`.
- `sim_rooted_balanced` and `sim_unrooted_balanced` get the shuffled
  labels `shuffled`, which may be any permutation of `0 .. ntax-1`.
- `coalescent` gets one `Draw(wait, i, j)` per round. The round with `r`
  lineages requires `wait >= 0`, `i < r` and `j < r-1`.

## Model

| member | source | states |
|---|---|---|
| PhyloTree.Replace | trees/phylo_sim.h:63-64 | writing a subtree at a valid position leaves that position valid and holding exactly the new subtree; the nodes above keep their payload and child count |
| PhyloTree.SetId | trees/phylo_sim.h:62-64 | `p->id = v` leaves `p` valid with label `v` |
| PhyloTree.SetIdElsewhere | trees/phylo_sim.h:62-64 | writing one node's label leaves every other position's label and leafness as it was |
| PhyloTree.SetIdLeaf | trees/phylo_sim.h:99-102 | writing the label of a leaf changes the tree's shape nowhere, only leaf labels |
| PhyloTree.SetLength | trees/phylo_sim.h:200-201 | `p->length = v` leaves `p` valid with length `v` |
| PhyloTree.AppendChild | trees/phylo_sim.h:84-85 | the node at `p` gains `c` as its last child, nothing else changes, and the tree grows by the size of `c` |
| PhyloTree.InsertChild | trees/phylo_sim.h:60 | `insert_child(p)` appends an unlabelled node of length 0 as `p`'s last child, returns its position, changes nothing else and adds one node |
| PhyloTree.InsertSibling | trees/phylo_sim.h:61 | `insert_sibling(p)` puts an unlabelled node right after `p` among its siblings, returns its position, changes nothing else and adds one node |
| PhyloTree.GraftTree | trees/phylo_sim.h:84-85 | grafting another tree under `p` appends that tree's root as `p`'s last child and adds its size |
| PhyloTree.GraftChild | trees/phylo_sim.h:33 | `graft_child(dst, tree, src)` moves the subtree at `src` unchanged to become `dst`'s last child, keeping the node count; the new parent is `dst` shifted as the detaching demands |
| PhyloTree.GraftSibling | trees/phylo_sim.h:209-210 | grafting a sibling under a sibling removes it from the children and appends it to the other's children, whose index shifts down by one when it came after the removed one |
| PhyloTree.SpliceAbove | trees/phylo_sim.h:32-33 | inserting a sibling after child `k` and grafting child `k` under it puts a new unlabelled node in child `k`'s place, with child `k`'s subtree, unchanged, as its only child |
| PhyloTree.Left | trees/phylo_sim.h:181 | `left()` is present exactly when the node is not a leaf, and is then the position of its first child |
| PhyloTree.IsLeaf | trees/phylo_sim.h:100 | `leaf()` holds exactly when the node has no children, i.e. when its subtree is one node |
| PhyloTree.Right | trees/phylo_sim.h:191 | `right()` is present exactly when a next sibling exists, and is then its position |
| PhyloTree.PreWalk | trees/phylo_sim.h:28-30 | `next_pre()` from the k-th position of the pre-order reaches the (k+1)-th, and null after the last |
| PhyloTree.NextPre | trees/phylo_sim.h:99 | `next_pre()` is defined by navigation: the first child if there is one, otherwise the next sibling of the nearest ancestor-or-self that has one, otherwise null; its result is always a position in the tree, and at an internal node it is the first child; `PreWalk` ties it to the pre-order `Pre` |
| PhyloTree.PreSize | trees/phylo_sim.h:27-30 | the pre-order lists exactly as many positions as the tree has nodes |
| PhyloTree.PreDistinct | trees/phylo_sim.h:99 | no position occurs twice in the pre-order |
| PhyloTree.SingleLeaf | trees/phylo_sim.h:22-23 | `insert_child(header())` then `root()->id = id` gives a tree of one leaf labelled `id` |
| PhyloTree.PermutationDistinct | trees/phylo_sim.h:93-96 | a permutation of `lo .. hi-1` has no label twice |
| UniformSim.SimUniformPhylo | trees/phylo_sim.h:17-39 | throws exactly when `ntax <= 0`; otherwise one root, `2*ntax-1` nodes (the loop keeps `nnodes` equal to the node count), bifurcating with unlabelled internal nodes, and leaf labels exactly `0 .. ntax-1` once each |
| UniformSim.WalkPre | trees/phylo_sim.h:26-30 | `pos < nnodes` steps of `next_pre()` from the root stay on the tree and reach the `pos`-th node in pre-order |
| UniformSim.AttachLeaf | trees/phylo_sim.h:31-36 | one step puts a new unlabelled node in `p`'s place, with `p`'s subtree unchanged as its first child and leaf `i` as its second |
| UniformSim.HangLeaf | trees/phylo_sim.h:35-36 | `insert_sibling` after a node's only child, then labelling the new node, hangs leaf `i` beside that child |
| UniformSim.AttachLeafShape | trees/phylo_sim.h:31-37 | one step adds two nodes and the label `i`, and keeps the tree bifurcating with one root |
| CaterpillarSim.SimCaterpillarPhylo | trees/phylo_sim.h:41-68 | throws exactly when `ntax <= 0`; otherwise the tree is the ladder on `0 .. ntax-1` under the header |
| CaterpillarSim.SplitLeaf | trees/phylo_sim.h:59-65 | the bottom leaf becomes an unlabelled node whose first child takes over its label and whose second child is the new leaf `v`; the new bottom is that second child |
| CaterpillarSim.LadderStep | trees/phylo_sim.h:58-66 | the bottom of the ladder on `lo .. hi-1` is the leaf `hi-1`, and splitting it gives the ladder on `lo .. hi` |
| CaterpillarSim.LadderSize | trees/phylo_sim.h:58-66 | the ladder on `k` labels has `2k-1` nodes |
| CaterpillarSim.LadderLeafIds | trees/phylo_sim.h:49-51 | read in pre-order the ladder's leaves are `lo, lo+1, ..., hi-1` |
| CaterpillarSim.LadderShape | trees/phylo_sim.h:60-64 | every internal node is unlabelled and has two children, the first a leaf |
| CaterpillarSim.LadderDepth | trees/phylo_sim.h:58-66 | no position is deeper than `k-1`, and the positions that deep hold the leaves `hi-2` and `hi-1` |
| CaterpillarSim.LadderCherry | trees/phylo_sim.h:58-66 | the deepest internal node joins the leaves `hi-2` and `hi-1` |
| BalancedSim.BalancedRecurse | trees/phylo_sim.h:70-88 | the recursion builds exactly the balanced shape: one leaf labelled 1 for `n == 1`, otherwise the shape for `n - n/2` then the shape for `n/2` under an unlabelled root |
| BalancedSim.BalancedLeaves | trees/phylo_sim.h:71-86 | the balanced shape on `n` has `n` leaves, all labelled 1 |
| BalancedSim.BalancedShape | trees/phylo_sim.h:71-86 | the balanced shape on `n` has `2n-1` nodes and is bifurcating |
| BalancedSim.BalancedSplit | trees/phylo_sim.h:78-85 | the root's first subtree has `n - n/2` leaves and its second `n/2`, which differ by at most one |
| BalancedSim.RelabelLeaves | trees/phylo_sim.h:98-102 | the pre-order relabelling loop changes only leaf labels, and the leaves then read `ids` in pre-order |
| BalancedSim.RelabelLeafStep | trees/phylo_sim.h:100-101 | labelling a leaf met by the walk extends the labelled prefix by one label |
| BalancedSim.RelabelSkipStep | trees/phylo_sim.h:99-100 | a step of the labelling walk at an internal node changes no label, keeps the labelled prefix and the count of labels used, and `next_pre()` moves to the next pre-order position (null after the last) |
| BalancedSim.SimRootedBalanced | trees/phylo_sim.h:90-105 | the balanced shape on `ntax` with its leaves reading `shuffled` in pre-order: `2*ntax-1` nodes, bifurcating, no label twice |
| BalancedSim.Split3 | trees/phylo_sim.h:119-121 | the three sizes add up to `ntax`, and for `ntax >= 3` satisfy `n1 >= n2 >= n3 >= 1` with `n1 - n3 <= 1` |
| BalancedSim.GraftThree | trees/phylo_sim.h:116-128 | a new root with the roots of the three trees as its children, in the order grafted |
| BalancedSim.ThreeBalanced | trees/phylo_sim.h:116-128 | before relabelling, the three-way tree has the shape `Unrooted(ntax)` and `ntax` leaves |
| BalancedSim.UnrootedChildLeaves | trees/phylo_sim.h:119-128 | a tree of the unrooted shape has three subtrees under its root, with `n3`, `n2` and `n1` leaves in that order |
| BalancedSim.SimUnrootedBalanced | trees/phylo_sim.h:107-137 | for `ntax < 3` the rooted balanced shape, otherwise the three-way shape; either way the leaves read `shuffled` in pre-order, with no label twice |
| CoalescentSim.PickPair | trees/phylo_sim.h:172-175 | two different indices below `r`; the second is `j`, moved up by one when it equals `i` |
| CoalescentSim.Lineup | trees/phylo_sim.h:150-163 | the root gets the leaves `ntax, ntax-1, ..., 1` as its children in that order, and one height 0 for each of them |
| CoalescentSim.FindPair | trees/phylo_sim.h:177-197 | the two walks stop at the children `min(i,j)` and `max(i,j)` of the root, and at the heights of the same indices |
| CoalescentSim.SetBranch | trees/phylo_sim.h:199-201 | child `k` of the root gets length `height - heights[k]`, and nothing else changes |
| CoalescentSim.Join | trees/phylo_sim.h:204-210 | the root's children `lo` and `hi` are replaced by one unlabelled node with children `hi` then `lo`, at index `hi-1`, the others keeping their order |
| CoalescentSim.EraseAfterSet | trees/phylo_sim.h:207-208 | `*by = height` then `heights.erase(bx)` edit the heights exactly as `Join` edits the children |
| CoalescentSim.LengthenKeeps | trees/phylo_sim.h:199-201 | setting a branch changes no node count and no label, and keeps the lineages in step |
| CoalescentSim.JoinKeeps | trees/phylo_sim.h:200-210 | a round with `r > 2` keeps the heights in step with the children: each child is bifurcating with all its leaves its height below it, no height above the current one; it adds one node and keeps the labels |
| CoalescentSim.FinalClock | trees/phylo_sim.h:199-201 | in the last round, once both branches are set, every leaf lies `height` below the root |
| CoalescentSim.LineagesLater | trees/phylo_sim.h:168 | lineages stay valid as the height grows |
| CoalescentSim.AddLeaf | trees/phylo_sim.h:159-161 | the root gains a new last child, a leaf of length 0 labelled `v`; its other children are unchanged |
| CoalescentSim.Round | trees/phylo_sim.h:166-212 | one pass of the loop: the height grows by the wait; the effect `Merged` holds: the children `lo = min(i,j)` and `hi = max(i,j)` of the drawn pair get branches up to the new height; with `r > 2` they are replaced by one node with children `hi` then `lo` at index `hi-1`, the heights get the same edit with the new height there, and the lineages stay in step; with `r == 2` only the branches are set and the tree is finished |
| CoalescentSim.Coalescent | trees/phylo_sim.h:144-215 | one root, every leaf at the total wait below it along non-negative branches; for `ntax >= 2`, two children under the root, bifurcating, `2*ntax-1` nodes; leaf labels exactly `1 .. ntax` once each |

## Left out

- Random number generation (`std::rand`, `std::random_shuffle`, `random_num`, `random_exp`) is foreign library code. The draws are inputs with the ranges stated above; the inner shuffles of `sim_unrooted_balanced`'s three rooted trees are taken as the identity, since the final relabelling overwrites every leaf label.
- Distributions are not modelled: not the attachment probabilities of `sim_uniform_phylo`, not the coalescent distribution, not the bias of the `j++` pair pick.
- `height` and `length` are `real`, not IEEE doubles, so rounding is not modelled.
- The `phylo<T>` container of `phylo.h` is not part of this model beyond the operations listed. Its nodes are values: iterator validity, node identity and aliasing are not modelled. A node made by `insert_child` or `insert_sibling` is taken to have id -1 and length 0.
- `PhylibException` is modelled as the `Error` outcome carrying its message.
- `SimUniformPhylo` returns the tree instead of filling the caller's `tree`. The caller's tree is taken to be empty.
- `Coalescent` ignores the caller's tree, as `tree.clear()` does. It has no `birthRate`, which only scales the waits. `ntax` is a `nat`, so the wrap-around of the `uint` to `int` conversion for `ntax > 2^31` is not modelled.
- `BalancedRecurse`, `SimRootedBalanced` and `SimUnrootedBalanced` require `ntax >= 1`. The source has no guard there, and `_sim_balanced_phylo_recurse(0)` recurses without end.
- Template genericity over `T`, the `basic_newick` requirement, global RNG state and thread safety are not modelled.
- The balanced split follows the code, not its apparent intent. Line 78 applies `std::ceil` to an integer quotient, so the first subtree (from `treeR`) has `ntax - ntax/2` leaves and the second `ntax/2`.
- The coalescent leaf labels follow the code, not the comment at line 161. They are `ntax - i`, that is `ntax .. 1`, not `0 .. ntax-1`.
