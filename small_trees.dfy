/** Building blocks for small volume trees: two rotations, leaf volumes,
    and the walks of a root with one child and of a root-child-grandchild
    chain, reduced to the placed points they measure. */
module SmallTrees {
  import opened Geometry
  import opened VolumeTree
  import opened BBox

  /** The row-vector matrix of a quarter turn about z that sends x to y:
      `(1, 0, 0) @ QuarterTurnZ == (0, 1, 0)`. */
  const QuarterTurnZ: Mat3 := Mat3(Vec3(0.0, 1.0, 0.0), Vec3(-1.0, 0.0, 0.0), Vec3(0.0, 0.0, 1.0))

  /** A rotation about z by the angle whose cosine is 3/5 and sine is 4/5. */
  const ThreeFourFive: Mat3 := Mat3(Vec3(0.6, 0.8, 0.0), Vec3(-0.8, 0.6, 0.0), Vec3(0.0, 0.0, 1.0))

  function Leaf(name: string, translation: Vec3, rotation: Mat3, limits: seq<Vec3>): Node {
    Node(name, translation, rotation, limits, [])
  }

  /** The placed points of a node whose bounding limits yield two points. */
  lemma PlacedOfTwo(n: Node)
    requires |n.limits| == 2
    ensures Placed(n) == [Place(n, n.limits[0]), Place(n, n.limits[1])]
  {
  }

  /** The placed points of a node whose bounding limits yield one point. */
  lemma PlacedOfOne(n: Node)
    requires |n.limits| == 1
    ensures Placed(n) == [Place(n, n.limits[0])]
  {
  }


  /** The pre-order walk of a node with one childless child. */
  lemma WalkOfOneChild(root: Node, child: Node)
    requires root.children == [child] && child.children == []
    ensures PreOrder(root) == [root, child]
  {
    assert Forest([child]) == PreOrder(child) + Forest([]);
  }

  /** A root with one childless child of another name: the call on the root's
      name measures exactly the child's placed points. */
  lemma OneChildMeasuresChild(root: Node, child: Node)
    requires root.children == [child] && child.children == [] && child.name != root.name
    ensures MaxBBoxForChild(root, root.name) == Success(Double(Farthest(Placed(child))))
  {
    WalkOfOneChild(root, child);
    assert Descendants(root) == [child];
    FindsUniqueRoot(root);
    ExtentOverDescendants(root, root.name);
    ContributionsOfOne(child, root.name);
  }


  /** The running maximum over two points. */
  lemma FarthestOfTwo(a: Vec3, b: Vec3)
    ensures Farthest([a, b]) == MaxV(MaxV(Zero, AbsV(a)), AbsV(b))
  {
    FarthestSnoc([], a);
    FarthestSnoc([a], b);
    assert [] + [a] == [a];
    assert [a] + [b] == [a, b];
  }

  /** The doubled per-axis maximum of zero and the absolute coordinates of two points. */
  function PairSize(p: Vec3, q: Vec3): Vec3 {
    Vec3(2.0 * Max(Max(0.0, Abs(p.x)), Abs(q.x)),
         2.0 * Max(Max(0.0, Abs(p.y)), Abs(q.y)),
         2.0 * Max(Max(0.0, Abs(p.z)), Abs(q.z)))
  }

  /** A node whose two bounding-limit points are placed at `p` and `q`
      measures `PairSize(p, q)`. */
  lemma MeasureOfTwo(n: Node, p: Vec3, q: Vec3)
    requires |n.limits| == 2 && Place(n, n.limits[0]) == p && Place(n, n.limits[1]) == q
    ensures Double(Farthest(Placed(n))) == PairSize(p, q)
  {
    PlacedOfTwo(n);
    FarthestOfTwo(p, q);
  }
  /** A root none of whose descendants shares its name is found by its name. */
  lemma FindsUniqueRoot(root: Node)
    requires forall d :: d in Descendants(root) ==> d.name != root.name
    ensures Find(root, root.name) == Success(root)
  {
    NamedConcat([root], Descendants(root), root.name);
    NamedNone(Descendants(root), root.name);
  }

  /** The pre-order walk of a root-child-grandchild chain. */
  lemma WalkOfChain(root: Node, mid: Node, leaf: Node)
    requires root.children == [mid] && mid.children == [leaf] && leaf.children == []
    ensures Descendants(root) == [mid, leaf]
  {
    WalkOfOneChild(mid, leaf);
    assert Forest([mid]) == PreOrder(mid) + Forest([]);
  }

  /** The points fed in for one visited node that does not carry the target name. */
  lemma ContributionsOfOne(a: Node, t: string)
    requires a.name != t
    ensures Contributions([a], t) == Placed(a)
  {
    ContributionsSnoc([], a, t);
    assert [] + [a] == [a];
    assert Contributions([], t) + Placed(a) == Placed(a);
  }

  /** The points fed in for two visited nodes that do not carry the target name. */
  lemma ContributionsOfTwo(a: Node, b: Node, t: string)
    requires a.name != t && b.name != t
    ensures Contributions([a, b], t) == Placed(a) + Placed(b)
  {
    ContributionsOfOne(a, t);
    ContributionsSnoc([a], b, t);
    assert [a] + [b] == [a, b];
  }

  /** The walk of a root-child-grandchild chain feeds in the child's placed
      points, then the grandchild's. */
  lemma ChainContributions(root: Node, mid: Node, leaf: Node)
    requires root.children == [mid] && mid.children == [leaf] && leaf.children == []
    requires mid.name != root.name && leaf.name != root.name
    ensures SubtreeExtent(root, root.name) == Double(Farthest(Placed(mid) + Placed(leaf)))
  {
    WalkOfChain(root, mid, leaf);
    ExtentOverDescendants(root, root.name);
    ContributionsOfTwo(mid, leaf, root.name);
  }

  /** A root with one child that has one childless child, none of them
      sharing the root's name: the call on the root's name measures the
      child's placed points, then the grandchild's. */
  lemma ChainMeasuresBoth(root: Node, mid: Node, leaf: Node)
    requires root.children == [mid] && mid.children == [leaf] && leaf.children == []
    requires mid.name != root.name && leaf.name != root.name
    ensures MaxBBoxForChild(root, root.name) == Success(Double(Farthest(Placed(mid) + Placed(leaf))))
  {
    WalkOfChain(root, mid, leaf);
    FindsUniqueRoot(root);
    ChainContributions(root, mid, leaf);
  }


  /** A root whose one childless child, named differently, has two
      bounding-limit points placed at `p` and `q`: the call on the root's
      name returns `PairSize(p, q)`. */
  lemma OneLeafOfTwo(root: Node, child: Node, a: Vec3, b: Vec3, p: Vec3, q: Vec3)
    requires root.children == [child] && child.children == [] && child.name != root.name
    requires child.limits == [a, b] && Place(child, a) == p && Place(child, b) == q
    ensures MaxBBoxForChild(root, root.name) == Success(PairSize(p, q))
  {
    assert child.limits[0] == a && child.limits[1] == b;
    MeasureOfTwo(child, p, q);
    OneChildMeasuresChild(root, child);
  }

  /** A root-child-grandchild chain, neither descendant named like the root,
      whose child and grandchild have one bounding-limit point each, placed at
      `p` and `q`: the call on the root's name returns `PairSize(p, q)`. */
  lemma ChainOfOnePoints(root: Node, mid: Node, leaf: Node, a: Vec3, b: Vec3, p: Vec3, q: Vec3)
    requires root.children == [mid] && mid.children == [leaf] && leaf.children == []
    requires mid.name != root.name && leaf.name != root.name
    requires mid.limits == [a] && Place(mid, a) == p
    requires leaf.limits == [b] && Place(leaf, b) == q
    ensures MaxBBoxForChild(root, root.name) == Success(PairSize(p, q))
  {
    ChainMeasuresBoth(root, mid, leaf);
    assert mid.limits[0] == a && leaf.limits[0] == b;
    PlacedOfOne(mid);
    PlacedOfOne(leaf);
    assert Placed(mid) + Placed(leaf) == [p] + [q] == [p, q];
    FarthestOfTwo(p, q);
  }
}
