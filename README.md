# Bounding-box aggregator of the volume hierarchy

The model covers `compute_max_bbox_for_child(sim, parent_node_name)`. The
simulation set-up uses it to size a container volume so that it just
encloses the contents of a named volume. The function works on the
engine's volume tree:

1. Find the node called `parent_node_name` (anytree's `find`).
2. Walk that node's subtree in pre-order (`PreOrderIter`), skipping every
   node whose name equals `parent_node_name`.
3. For each visited node, take the points its `bounding_limits` yields.
   Add the node's own `translation` to each point, then multiply the point
   as a row vector by the node's own `rotation` (`point @ rotation`).
4. Fold the absolute coordinates into a per-axis maximum that starts at
   `[0.0, 0.0, 0.0]`.
5. Double the result.

The project has five modules:

- `Geometry` (`geometry.dfy`): 3-vectors and 3x3 matrices over `real`,
  and the element-wise `add`, `abs`, `max` and doubling maps. `RowMul` is
  the row-vector product `p @ m`.
- `VolumeTree` (`volume_tree.dfy`): the tree as an inductive `Node`
  datatype, its pre-order traversal, and the lookup `Find`. `Find` returns
  a `Result`:
  - `Failure(NotFound)` when no node has the name. anytree's `find` then
    returns `None`, and the walk fails on `None.name`.
  - `Failure(Ambiguous)` when several nodes have the name. anytree's
    `find` raises `CountError`.
- `BBox` (`bbox.dfy`): the specification functions (`Place`, `Placed`,
  `Farthest`, `Contributions`, `SubtreeExtent`, `MaxBBoxForChild`) and
  the imperative `ComputeMaxBBoxForChild`. That method's loops
  (`AccumulateWalk` for the walk, `AbsorbPoints` for the inner loop over
  points) are proved equal to the specification functions. The module
  also proves the properties of the result: non-negativity, the zero
  case, containment, tightness, that the target's own geometry is
  ignored, order independence and monotonicity.
- `Embedding` (`embedding.dfy`): one tree embedded in another, meaning the
  same tree with nodes added or children reordered at any depth. The result
  never shrinks along an embedding, and is unchanged between trees that
  embed in each other.
- `SmallTrees` (`small_trees.dfy`): walks of small tree shapes, reduced to
  the points they measure.
- `Scenarios` (`scenarios.dfy`): results worked out on concrete trees.

The tree is an immutable value, so the walk cannot change it.

Three consequences of the code as written are stated in the model:

- Only the points that `bounding_limits` yields are measured, such as the
  min/max corner pair of a box. Other corners of a rotated box are never
  placed or measured. `Scenarios.UnmeasuredCornerEscapes` shows a genuinely
  rotated box whose unmeasured corner lies outside the returned size.
- `point @ rotation` multiplies a row vector by the matrix. This is the
  product of the transposed matrix with the point, not `rotation` applied
  to the point as a column vector. `Geometry.RowMulIsTransposedApply` and
  `Scenarios.RowVectorIsNotColumnVector` state the difference.
- The skip test compares names, not nodes. `VolumeTree.FoundHasNoNamesakeBelow`
  shows that whenever the lookup succeeds, no other node carries the name,
  so the test skips the found node and nothing else.

## Model

| member | source | states |
|---|---|---|
| BBox.ComputeMaxBBoxForChild | utils/__init__.py:6-36 | The whole call: a lookup failure is returned as the same failure; otherwise the result is the doubled per-axis maximum over the walk of the found node's subtree, i.e. `MaxBBoxForChild`. |
| BBox.AccumulateWalk | utils/__init__.py:8-31 | The loop over the pre-order walk leaves `volMax` equal to the maximum of absolute coordinates, starting at zero, over the placed points of every visited node whose name is not the target name, in visiting order. |
| BBox.AbsorbPoints | utils/__init__.py:30-31 | The inner loop over a node's placed points extends the running maximum by exactly those points. |
| BBox.Placed | utils/__init__.py:19-27 | A node contributes one point per bounding-limit point: that point translated by the node's own translation, then rotated by its own rotation. |
| BBox.TranslateThenRotate | utils/__init__.py:22-27 | Translating before rotating equals rotating the point plus the rotated translation. It equals rotate-then-translate exactly when the rotation leaves the translation fixed. |
| BBox.FarthestSnoc | utils/__init__.py:30-31 | Folding one more point into the maximum takes the per-axis maximum with its absolute coordinates. |
| BBox.FarthestIsMaxAbs | utils/__init__.py:30-31 | The accumulated maximum, started at zero, is non-negative. It bounds the absolute value of every coordinate seen. On each axis it is zero or equal to one of them. |
| BBox.MaxAbsMonotone | utils/__init__.py:30-31 | An attained maximum over a set of points is at most any non-negative bound over a superset of those points. |
| BBox.FarthestMonotone | utils/__init__.py:30-31 | Folding in a superset of points never lowers any component of the maximum. |
| BBox.ContributionsSnoc | utils/__init__.py:15-27 | Visiting one more node adds its placed points, or nothing when its name equals the target name. |
| BBox.ContributionsConcat | utils/__init__.py:9-27 | The points fed in by two consecutive stretches of the walk are those of the first stretch followed by those of the second. |
| BBox.ContributionsInclude | utils/__init__.py:15-27 | Every placed point of every visited node not named like the target is fed into the maximum. |
| BBox.ContributionsComeFrom | utils/__init__.py:15-27 | Every point fed into the maximum is a placed bounding-limit point of some visited node not named like the target. |
| BBox.ContributionsMonotone | utils/__init__.py:9-27 | Visiting a superset of nodes feeds in a superset of points. |
| BBox.ReductionMonotone | utils/__init__.py:9-31 | Visiting a superset of nodes never decreases any component of the maximum. |
| BBox.ReductionOrderIndependent | utils/__init__.py:9-31 | Any permutation of the visited nodes gives the same maximum. |
| BBox.ContributionsOfPreOrder | utils/__init__.py:9-16 | The walk of a subtree feeds in its root's points (none when the root has the target name), then those of the root's descendants. |
| BBox.ExtentOverDescendants | utils/__init__.py:15-16 | For the node carrying the target name, the result is the doubled maximum over its strict descendants alone. |
| BBox.WalkContributionsMonotone | utils/__init__.py:9-14 | Giving the walked node a superset of children keeps every point its walk fed in before. |
| BBox.TargetGeometryIgnored | utils/__init__.py:15-16 | Replacing the target's own bounding limits, translation and rotation by anything leaves the result unchanged. |
| BBox.ExtentZeroWithoutDescendants | utils/__init__.py:8-34 | A target without children yields the zero vector. |
| BBox.MoreChildrenNeverShrink | utils/__init__.py:9-31 | Giving the target more children, while keeping the old ones, never decreases any component of the result. |
| BBox.ChildOrderIrrelevant | utils/__init__.py:9-31 | Permuting the target's children leaves the result unchanged. |
| BBox.MaxBBoxNonNegative | utils/__init__.py:8-34 | Every component of a successful result is at least zero. |
| BBox.MaxBBoxFailsOnLookup | utils/__init__.py:9-14 | The call fails exactly when the name is not carried by exactly one node. It fails with `NotFound` exactly when no node carries the name. |
| BBox.MaxBBoxZeroWithoutDescendants | utils/__init__.py:8-34 | When the found node has no children, the result is `[0, 0, 0]`. |
| BBox.MaxBBoxContains | utils/__init__.py:19-34 | Containment: for every descendant at any depth and every bounding-limit point, the point placed by that descendant's own translation and rotation is within half the result on every axis. |
| BBox.MaxBBoxTight | utils/__init__.py:29-34 | Tightness: on every axis the result is zero or exactly twice the absolute coordinate of a placed bounding-limit point of some descendant. |
| Embedding.EmbedsContributions | utils/__init__.py:9-27 | Every point the walk of a tree feeds in is also fed in by the walk of any tree it embeds in: that tree has the same nodes with the same placement, plus possibly more, at any depth and in any order. |
| Embedding.EmbeddedTreeNeverShrinks | utils/__init__.py:9-34 | Embedding the target's subtree in a larger one never decreases any component of the result. |
| Embedding.MutuallyEmbeddedSameExtent | utils/__init__.py:9-34 | Two subtrees that embed in each other yield the same result. |
| Embedding.EmbedsReflexive | utils/__init__.py:9-14 | Every subtree embeds in itself. |
| Embedding.EmbedsIntoMoreChildren | utils/__init__.py:9-14 | A node embeds in a node with the same name, placement and limits whose children include all of its own. |
| Embedding.EmbedsThroughChild | utils/__init__.py:9-14 | Replacing one child by a tree it embeds in carries the embedding up to the parent, and likewise in the other direction. |
| Embedding.PermutedChildrenEmbedBothWays | utils/__init__.py:9-14 | A node and the same node with its children permuted embed in each other. |
| Embedding.MoreGrandchildrenNeverShrink | utils/__init__.py:9-34 | Giving one child of the target more children, while keeping the old ones, never decreases any component of the result. |
| Embedding.GrandchildOrderIrrelevant | utils/__init__.py:9-34 | Permuting the children of one child of the target leaves the result unchanged. |
| VolumeTree.PreOrder | utils/__init__.py:9-14 | The pre-order walk of a node is never empty and starts at that node. |
| VolumeTree.ForestMembers | utils/__init__.py:9-14 | A node is visited in the walk of a list of siblings exactly when it lies in the walk of one of them. |
| VolumeTree.ForestMembersBySet | utils/__init__.py:9-14 | The nodes visited under a list of siblings depend only on which siblings are present. |
| VolumeTree.Named | utils/__init__.py:12 | Filtering by name keeps exactly the nodes that carry the name, and never more nodes than there were. |
| VolumeTree.NamedNone | utils/__init__.py:12 | When no node carries the name, the filter yields nothing. |
| VolumeTree.NamedConcat | utils/__init__.py:12 | Filtering distributes over concatenation. |
| VolumeTree.Find | utils/__init__.py:10-13 | The lookup succeeds exactly when one node of the whole tree carries the name, and returns that node. It fails with `NotFound` exactly when no node carries it, and with `Ambiguous` otherwise. |
| VolumeTree.SubtreeNamedBound | utils/__init__.py:10-13 | A subtree never holds more nodes with a given name than the whole tree does. |
| VolumeTree.ForestNamedBound | utils/__init__.py:10-13 | A subtree inside a list of siblings never holds more nodes with a given name than the siblings' walks do. |
| VolumeTree.FoundHasNoNamesakeBelow | utils/__init__.py:10-16 | When the lookup succeeds, no descendant of the found node carries the name, so the name test skips the found node and nothing else. |
| Geometry.Abs | utils/__init__.py:31 | `abs` is non-negative and equals its argument or its negation. |
| Geometry.Max | utils/__init__.py:31 | `max` is at least both arguments and equals one of them. |
| Geometry.RowMulIsTransposedApply | utils/__init__.py:27 | `p @ m` is the product of the transposed matrix with `p`: coordinate j is the sum over i of `p[i] * m[i][j]`. |
| Geometry.RowMulDistributes | utils/__init__.py:22-27 | The row-vector product distributes over the translation. |
| SmallTrees.PlacedOfTwo | utils/__init__.py:19-27 | A node with two bounding-limit points contributes exactly those two points, placed. |
| SmallTrees.PlacedOfOne | utils/__init__.py:19-27 | A node with one bounding-limit point contributes exactly that point, placed. |
| SmallTrees.WalkOfOneChild | utils/__init__.py:9-14 | The walk of a node with one childless child visits the node, then the child. |
| SmallTrees.WalkOfChain | utils/__init__.py:9-14 | The descendants of a root-child-grandchild chain are the child, then the grandchild. |
| SmallTrees.FindsUniqueRoot | utils/__init__.py:10-13 | A root none of whose descendants shares its name is found by that name. |
| SmallTrees.FarthestOfTwo | utils/__init__.py:8-31 | Folding two points from zero gives the per-axis maximum of zero and their absolute coordinates. |
| SmallTrees.ContributionsOfOne | utils/__init__.py:15-27 | A visited node not named like the target contributes exactly its placed points. |
| SmallTrees.ContributionsOfTwo | utils/__init__.py:15-27 | Two such nodes contribute their placed points in visiting order. |
| SmallTrees.MeasureOfTwo | utils/__init__.py:19-34 | A node whose two bounding-limit points are placed at `p` and `q` measures twice the per-axis maximum of zero, abs(p) and abs(q). |
| SmallTrees.OneChildMeasuresChild | utils/__init__.py:6-36 | For a root with one childless child named differently, the call on the root's name measures exactly the child's placed points. |
| SmallTrees.ChainContributions | utils/__init__.py:9-34 | For a root-child-grandchild chain, the walk measures the child's placed points, then the grandchild's. |
| SmallTrees.ChainMeasuresBoth | utils/__init__.py:6-36 | For such a chain, the call on the root's name measures both descendants, each by its own placement. |
| SmallTrees.OneLeafOfTwo | utils/__init__.py:6-36 | For a root with one childless child named differently, whose bounding limits are `[a, b]` placed at `p` and `q`, the call on the root's name returns twice the per-axis maximum of zero, abs(p) and abs(q). |
| SmallTrees.ChainOfOnePoints | utils/__init__.py:6-36 | For a root-child-grandchild chain, each descendant named differently from the root and with one bounding-limit point placed at `p` and `q`, the call on the root's name returns the same doubled maximum of the two points. |
| Scenarios.BoxShape | utils/__init__.py:19-27 | A box moved by (5,0,0) and not rotated places its corners (-1,-1,-1) and (1,1,1) at (4,-1,-1) and (6,1,1). |
| Scenarios.BoxSize | utils/__init__.py:29-34 | Those two points measure (12, 2, 2). |
| Scenarios.TranslationOnly | utils/__init__.py:6-36 | The call on a target whose one childless child is that box, under any distinct names, returns (12, 2, 2). |
| Scenarios.BarShape | utils/__init__.py:19-27 | An unmoved node under the quarter turn that sends x to y places (-1,0,0) and (1,0,0) at (0,-1,0) and (0,1,0). |
| Scenarios.BarSize | utils/__init__.py:29-34 | Those two points measure (0, 2, 0). |
| Scenarios.RotationSwapsAxes | utils/__init__.py:6-36 | The call on a target whose one childless child is a bar from (-1,0,0) to (1,0,0) under that quarter turn returns (0, 2, 0). |
| Scenarios.NestedShape | utils/__init__.py:19-27 | Unrotated nodes at (1,0,0) and (3,0,0) place their origins by their own translations only. |
| Scenarios.NestedSize | utils/__init__.py:29-34 | The points (1,0,0) and (3,0,0) measure (6, 0, 0). |
| Scenarios.GrandchildUsesOwnTransformOnly | utils/__init__.py:6-36 | The call on a target whose child is at (1,0,0) and whose grandchild is at (3,0,0) returns (6, 0, 0), not the (8, 0, 0) of composed transforms. The target's own (100,100,100) limit is ignored. |
| Scenarios.PlacementOrderMatters | utils/__init__.py:22-27 | A node at (1,0,0) under a quarter turn places its origin at (0,1,0); rotating first would give (1,0,0). |
| Scenarios.RowVectorIsNotColumnVector | utils/__init__.py:27 | Under the quarter turn, `(1,0,0) @ R` is (0,1,0) while `R (1,0,0)` is (0,-1,0). |
| Scenarios.ThreeFourFiveIsRotation | utils/__init__.py:27 | The 3-4-5 rotation about z has orthonormal rows. |
| Scenarios.PlateShape | utils/__init__.py:19-27 | An unmoved node under the 3-4-5 rotation places the corners (-1,-1,0) and (1,1,0) at (0.2,-1.4,0) and (-0.2,1.4,0), and would place the corner (1,-1,0) at (1.4,0.2,0). |
| Scenarios.PlateSize | utils/__init__.py:29-34 | The two measured points give (0.4, 2.8, 0). |
| Scenarios.TurnedPlateMeasured | utils/__init__.py:6-36 | The call on a target whose one childless child is that plate returns (0.4, 2.8, 0). |
| Scenarios.CornerBeyondHalfSize | utils/__init__.py:29-34 | The point (1.4, 0.2, 0) lies beyond half of the size (0.4, 2.8, 0) on x. |
| Scenarios.UnmeasuredCornerEscapes | utils/__init__.py:19-34 | The plate's rotation is orthonormal and the call returns (0.4, 2.8, 0). Yet the plate's unmeasured corner (1,-1,0) is placed at x = 1.4, and twice 1.4 exceeds the returned 0.4: the result does not contain the whole rotated box. |

## Left out

- `sim.volume_manager.update_volume_tree_if_needed()` (utils/__init__.py:7) refreshes the external engine's tree. The model receives the tree as a value instead.
- anytree internals are not modelled. `find` and `PreOrderIter` are modelled by their documented behaviour: a pre-order search over the whole tree, and a pre-order traversal.
- Coordinates are reals. IEEE floating-point rounding, infinities and NaN are not modelled.
- Each point, translation and matrix has exactly three components by construction. The source's lists of other lengths are not modelled.
- Missing `translation`, `rotation` or `bounding_limits` attributes, and the Python errors they would raise, are not modelled. Every node carries all three.
- Orthonormality of the rotation is not assumed. The aggregator never relies on it, so every property holds for any matrix.
- main.py, phantom.py, phantom/hollow_rode.py and uhrgeom/detector.py are not part of this model. They configure the external engine and hold no algorithm of their own.
