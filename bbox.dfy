/** The bounding-box aggregator `compute_max_bbox_for_child`: find the
    volume with a given name, walk its subtree in pre-order skipping every
    node that carries that name, place each visited node's bounding-limit
    points by its own translation and then its own rotation, keep the
    per-axis maximum of absolute coordinates starting from zero, and double
    it to obtain the full size of a box centred on the origin. */
module BBox {
  import opened Geometry
  import opened VolumeTree

  /** One point of a node's bounding limits, moved into its mother's frame:
      translated first, then multiplied as a row vector by the rotation. */
  function Place(n: Node, p: Vec3): Vec3 {
    RowMul(Add(p, n.translation), n.rotation)
  }

  /** Translating first and rotating second equals rotating the point and
      adding the rotated translation; it equals rotating first and then
      adding the unrotated translation exactly when the rotation fixes the
      translation. */
  lemma TranslateThenRotate(n: Node, p: Vec3)
    ensures Place(n, p) == Add(RowMul(p, n.rotation), RowMul(n.translation, n.rotation))
    ensures Place(n, p) == Add(RowMul(p, n.rotation), n.translation)
        <==> RowMul(n.translation, n.rotation) == n.translation
  {
    RowMulDistributes(p, n.translation, n.rotation);
  }

  /** The translation list comprehension: every point plus `t`. */
  function Translated(pts: seq<Vec3>, t: Vec3): (r: seq<Vec3>)
    ensures |r| == |pts|
    ensures forall k :: 0 <= k < |pts| ==> r[k] == Add(pts[k], t)
  {
    seq(|pts|, k requires 0 <= k < |pts| => Add(pts[k], t))
  }

  /** The rotation list comprehension: every point times `m` as a row vector. */
  function Rotated(pts: seq<Vec3>, m: Mat3): (r: seq<Vec3>)
    ensures |r| == |pts|
    ensures forall k :: 0 <= k < |pts| ==> r[k] == RowMul(pts[k], m)
  {
    seq(|pts|, k requires 0 <= k < |pts| => RowMul(pts[k], m))
  }

  /** All of a node's bounding-limit points, placed. */
  function Placed(n: Node): (r: seq<Vec3>)
    ensures |r| == |n.limits|
    ensures forall k :: 0 <= k < |r| ==> r[k] == Place(n, n.limits[k])
  {
    Rotated(Translated(n.limits, n.translation), n.rotation)
  }

  /** The running per-axis maximum of absolute coordinates over `pts`, from zero. */
  function Farthest(pts: seq<Vec3>): Vec3 {
    if pts == [] then Zero
    else MaxV(Farthest(pts[..|pts| - 1]), AbsV(pts[|pts| - 1]))
  }

  /** The placed points the walk feeds into the maximum, in visiting order:
      every visited node's points, except for nodes that carry the target name. */
  function Contributions(visited: seq<Node>, target: string): seq<Vec3> {
    if visited == [] then []
    else
      var last := visited[|visited| - 1];
      Contributions(visited[..|visited| - 1], target) + (if last.name == target then [] else Placed(last))
  }

  /** The doubled maximum over the pre-order walk of `sub`. */
  function SubtreeExtent(sub: Node, target: string): Vec3 {
    Double(Farthest(Contributions(PreOrder(sub), target)))
  }

  /** What `compute_max_bbox_for_child(sim, parentName)` returns or raises. */
  function MaxBBoxForChild(root: Node, parentName: string): Result<Vec3> {
    match Find(root, parentName)
    case Failure(e) => Failure(e)
    case Success(sub) => Success(SubtreeExtent(sub, parentName))
  }

  /** The aggregator as the source runs it: look the node up, walk its
      subtree, then double the accumulated maximum. */
  method ComputeMaxBBoxForChild(root: Node, parentName: string) returns (r: Result<Vec3>)
    ensures r == MaxBBoxForChild(root, parentName)
  {
    var found := Find(root, parentName);
    if found.Failure? {
      return Failure(found.error);
    }
    var volMax := AccumulateWalk(PreOrder(found.value), parentName);
    volMax := Double(volMax);
    return Success(volMax);
  }

  /** The `for` loop over the pre-order walk: skip nodes that carry the
      target name, translate then rotate each other node's bounding-limit
      points, and reassign the accumulator point by point. */
  method AccumulateWalk(walk: seq<Node>, parentName: string) returns (volMax: Vec3)
    ensures volMax == Farthest(Contributions(walk, parentName))
  {
    volMax := Zero;
    for k := 0 to |walk|
      invariant volMax == Farthest(Contributions(walk[..k], parentName))
    {
      var volumeNode := walk[k];
      assert walk[..k + 1] == walk[..k] + [volumeNode];
      ContributionsSnoc(walk[..k], volumeNode, parentName);
      ghost var before := Contributions(walk[..k], parentName);
      if volumeNode.name == parentName {
        assert before + [] == before;
        continue;
      }
      var bbLimits := volumeNode.limits;
      bbLimits := Translated(bbLimits, volumeNode.translation);
      bbLimits := Rotated(bbLimits, volumeNode.rotation);
      assert bbLimits == Placed(volumeNode);
      volMax := AbsorbPoints(before, volMax, bbLimits);
    }
    assert walk[..|walk|] == walk;
  }

  /** The inner `for point in bbLimits` loop: fold each point's absolute
      coordinates into the accumulator. */
  method AbsorbPoints(ghost seen: seq<Vec3>, acc: Vec3, pts: seq<Vec3>) returns (volMax: Vec3)
    requires acc == Farthest(seen)
    ensures volMax == Farthest(seen + pts)
  {
    volMax := acc;
    assert seen + pts[..0] == seen;
    for j := 0 to |pts|
      invariant volMax == Farthest(seen + pts[..j])
    {
      assert seen + pts[..j + 1] == (seen + pts[..j]) + [pts[j]];
      FarthestSnoc(seen + pts[..j], pts[j]);
      volMax := MaxV(volMax, AbsV(pts[j]));
    }
    assert pts[..|pts|] == pts;
  }

  lemma FarthestSnoc(pts: seq<Vec3>, p: Vec3)
    ensures Farthest(pts + [p]) == MaxV(Farthest(pts), AbsV(p))
  {
    assert (pts + [p])[..|pts|] == pts;
  }

  lemma ContributionsSnoc(vs: seq<Node>, n: Node, target: string)
    ensures Contributions(vs + [n], target)
         == Contributions(vs, target) + (if n.name == target then [] else Placed(n))
  {
    assert (vs + [n])[..|vs|] == vs;
  }

  // ---------------------------------------------------------------------
  // The running maximum is the per-axis maximum of absolute coordinates.

  /** Every coordinate of `v` is at least zero. */
  ghost predicate NonNegative(v: Vec3) {
    forall i: Axis :: 0.0 <= v.At(i)
  }

  /** `v` bounds the absolute value of every coordinate of every point. */
  ghost predicate Bounds(v: Vec3, pts: seq<Vec3>) {
    forall k, i: Axis | 0 <= k < |pts| :: Abs(pts[k].At(i)) <= v.At(i)
  }

  /** Every coordinate of `v` is zero or reached by some point. */
  ghost predicate Attained(v: Vec3, pts: seq<Vec3>) {
    forall i: Axis :: v.At(i) == 0.0 || exists k | 0 <= k < |pts| :: v.At(i) == Abs(pts[k].At(i))
  }

  /** The accumulator starts at zero and only ever takes maxima with absolute
      values, so it is non-negative, bounds every absolute coordinate seen and,
      on each axis, is zero or equal to one of them. */
  lemma {:induction false} FarthestIsMaxAbs(pts: seq<Vec3>)
    ensures NonNegative(Farthest(pts))
    ensures Bounds(Farthest(pts), pts)
    ensures Attained(Farthest(pts), pts)
    decreases |pts|
  {
    if pts != [] {
      var front, last := pts[..|pts| - 1], pts[|pts| - 1];
      FarthestIsMaxAbs(front);
      var prev, r := Farthest(front), Farthest(pts);
      forall k, i: Axis | 0 <= k < |pts|
        ensures Abs(pts[k].At(i)) <= r.At(i)
      {
        if k < |pts| - 1 {
          assert pts[k] == front[k];
        }
      }
      forall i: Axis
        ensures r.At(i) == 0.0 || exists k | 0 <= k < |pts| :: r.At(i) == Abs(pts[k].At(i))
      {
        if r.At(i) != Abs(last.At(i)) && prev.At(i) != 0.0 {
          var k :| 0 <= k < |front| && prev.At(i) == Abs(front[k].At(i));
          assert pts[k] == front[k];
        }
      }
    }
  }

  /** A maximum attained over the points `a` is at most any non-negative
      bound over points `b` that include every point of `a`. */
  lemma MaxAbsMonotone(u: Vec3, a: seq<Vec3>, v: Vec3, b: seq<Vec3>)
    requires Attained(u, a)
    requires NonNegative(v) && Bounds(v, b)
    requires forall q :: q in a ==> q in b
    ensures LessEq(u, v)
  {
    forall i: Axis
      ensures u.At(i) <= v.At(i)
    {
      if u.At(i) != 0.0 {
        var k :| 0 <= k < |a| && u.At(i) == Abs(a[k].At(i));
        assert a[k] in b;
        var m :| 0 <= m < |b| && b[m] == a[k];
      }
    }
  }

  /** Feeding in a superset of points never lowers any component. */
  lemma FarthestMonotone(a: seq<Vec3>, b: seq<Vec3>)
    requires forall q :: q in a ==> q in b
    ensures LessEq(Farthest(a), Farthest(b))
  {
    FarthestIsMaxAbs(a);
    FarthestIsMaxAbs(b);
    MaxAbsMonotone(Farthest(a), a, Farthest(b), b);
  }

  // ---------------------------------------------------------------------
  // Which points the walk feeds in.

  lemma SplitLast<T>(a: seq<T>, b: seq<T>)
    requires b != []
    ensures b == b[..|b| - 1] + [b[|b| - 1]]
    ensures a + b == (a + b[..|b| - 1]) + [b[|b| - 1]]
  {
  }

  lemma AppendAssociative<T>(x: seq<T>, y: seq<T>, z: seq<T>)
    ensures (x + y) + z == x + (y + z)
  {
  }

  lemma {:induction false} ContributionsConcat(a: seq<Node>, b: seq<Node>, target: string)
    ensures Contributions(a + b, target) == Contributions(a, target) + Contributions(b, target)
    decreases |b|
  {
    if b == [] {
      assert a + b == a;
    } else {
      var b', n := b[..|b| - 1], b[|b| - 1];
      SplitLast(a, b);
      ContributionsSnoc(a + b', n, target);
      ContributionsSnoc(b', n, target);
      ContributionsConcat(a, b', target);
      AppendAssociative(Contributions(a, target), Contributions(b', target), if n.name == target then [] else Placed(n));
    }
  }

  /** Every point of every visited node that does not carry the target name is fed in. */
  lemma {:induction false} ContributionsInclude(vs: seq<Node>, n: Node, target: string)
    requires n in vs && n.name != target
    ensures forall q :: q in Placed(n) ==> q in Contributions(vs, target)
    decreases |vs|
  {
    var front, last := vs[..|vs| - 1], vs[|vs| - 1];
    if n != last {
      assert n in front;
      ContributionsInclude(front, n, target);
    }
  }

  /** Every point fed in is a placed bounding-limit point of some visited node
      that does not carry the target name. */
  lemma {:induction false} ContributionsComeFrom(vs: seq<Node>, target: string, q: Vec3)
    requires q in Contributions(vs, target)
    ensures exists n, j :: n in vs && n.name != target && 0 <= j < |n.limits| && q == Place(n, n.limits[j])
    decreases |vs|
  {
    var front, last := vs[..|vs| - 1], vs[|vs| - 1];
    if q in Contributions(front, target) {
      ContributionsComeFrom(front, target, q);
      var n, j :| n in front && n.name != target && 0 <= j < |n.limits| && q == Place(n, n.limits[j]);
      assert n in vs;
    } else {
      var j :| 0 <= j < |Placed(last)| && Placed(last)[j] == q;
      assert last in vs;
    }
  }

  /** Visiting a superset of nodes feeds in a superset of points. */
  lemma ContributionsMonotone(vs: seq<Node>, ws: seq<Node>, target: string)
    requires forall n :: n in vs ==> n in ws
    ensures forall q :: q in Contributions(vs, target) ==> q in Contributions(ws, target)
  {
    forall q | q in Contributions(vs, target)
      ensures q in Contributions(ws, target)
    {
      ContributionsComeFrom(vs, target, q);
      var n, j :| n in vs && n.name != target && 0 <= j < |n.limits| && q == Place(n, n.limits[j]);
      ContributionsInclude(ws, n, target);
      assert q == Placed(n)[j];
    }
  }

  /** The reduction is monotone in the set of visited nodes: visiting more
      nodes never decreases any component. */
  lemma ReductionMonotone(vs: seq<Node>, ws: seq<Node>, target: string)
    requires forall n :: n in vs ==> n in ws
    ensures LessEq(Farthest(Contributions(vs, target)), Farthest(Contributions(ws, target)))
  {
    ContributionsMonotone(vs, ws, target);
    FarthestMonotone(Contributions(vs, target), Contributions(ws, target));
  }

  /** The reduction is independent of the order of the visited nodes. */
  lemma ReductionOrderIndependent(vs: seq<Node>, ws: seq<Node>, target: string)
    requires multiset(vs) == multiset(ws)
    ensures Farthest(Contributions(vs, target)) == Farthest(Contributions(ws, target))
  {
    forall n | n in vs ensures n in ws {
      assert n in multiset(vs);
    }
    forall n | n in ws ensures n in vs {
      assert n in multiset(ws);
    }
    ReductionMonotone(vs, ws, target);
    ReductionMonotone(ws, vs, target);
    LessEqAntisymmetric(Farthest(Contributions(vs, target)), Farthest(Contributions(ws, target)));
  }

  // ---------------------------------------------------------------------
  // Properties of the subtree walk.

  /** The walk of a subtree feeds in the root's own points (unless the root
      carries the target name), then its descendants' points. */
  lemma ContributionsOfPreOrder(sub: Node, target: string)
    ensures Contributions(PreOrder(sub), target)
         == (if sub.name == target then [] else Placed(sub)) + Contributions(Descendants(sub), target)
  {
    ContributionsConcat([sub], Descendants(sub), target);
    ContributionsSnoc([], sub, target);
    assert [] + [sub] == [sub];
  }

  /** Because the walk starts at the target node and skips it by name, the
      extent is the doubled maximum over its strict descendants alone. */
  lemma ExtentOverDescendants(sub: Node, target: string)
    requires sub.name == target
    ensures SubtreeExtent(sub, target) == Double(Farthest(Contributions(Descendants(sub), target)))
  {
    ContributionsOfPreOrder(sub, target);
    assert [] + Contributions(Descendants(sub), target) == Contributions(Descendants(sub), target);
  }

  /** Replacing a node's children by a superset keeps the points its walk feeds in. */
  lemma WalkContributionsMonotone(sub: Node, children: seq<Node>, target: string)
    requires forall c :: c in sub.children ==> c in children
    ensures forall q :: q in Contributions(PreOrder(sub), target)
                    ==> q in Contributions(PreOrder(sub.(children := children)), target)
  {
    var sub' := sub.(children := children);
    ContributionsOfPreOrder(sub, target);
    ContributionsOfPreOrder(sub', target);
    ForestMembersBySet(sub.children, children);
    ContributionsMonotone(Descendants(sub), Descendants(sub'), target);
  }

  /** The target node's own bounding limits, translation and rotation never
      influence the result, however large its own box is. */
  lemma TargetGeometryIgnored(sub: Node, target: string, limits: seq<Vec3>, translation: Vec3, rotation: Mat3)
    requires sub.name == target
    ensures SubtreeExtent(sub.(limits := limits, translation := translation, rotation := rotation), target)
         == SubtreeExtent(sub, target)
  {
    ExtentOverDescendants(sub, target);
    ExtentOverDescendants(sub.(limits := limits, translation := translation, rotation := rotation), target);
  }

  /** A target without descendants yields the zero vector. */
  lemma ExtentZeroWithoutDescendants(sub: Node, target: string)
    requires sub.name == target && sub.children == []
    ensures SubtreeExtent(sub, target) == Zero
  {
    ExtentOverDescendants(sub, target);
  }

  /** Permuting the target's children leaves the result unchanged. */
  lemma ChildOrderIrrelevant(sub: Node, children: seq<Node>, target: string)
    requires multiset(children) == multiset(sub.children)
    ensures SubtreeExtent(sub.(children := children), target) == SubtreeExtent(sub, target)
  {
    var sub' := sub.(children := children);
    forall c | c in children ensures c in sub.children {
      assert c in multiset(children);
    }
    forall c | c in sub.children ensures c in children {
      assert c in multiset(sub.children);
    }
    assert sub'.(children := sub.children) == sub;
    MoreChildrenNeverShrink(sub, children, target);
    MoreChildrenNeverShrink(sub', sub.children, target);
    LessEqAntisymmetric(SubtreeExtent(sub, target), SubtreeExtent(sub', target));
  }

  /** Giving the target more children (keeping the old ones) never decreases
      any component of the result. */
  lemma MoreChildrenNeverShrink(sub: Node, children: seq<Node>, target: string)
    requires forall c :: c in sub.children ==> c in children
    ensures LessEq(SubtreeExtent(sub, target), SubtreeExtent(sub.(children := children), target))
  {
    WalkContributionsMonotone(sub, children, target);
    FarthestMonotone(Contributions(PreOrder(sub), target), Contributions(PreOrder(sub.(children := children)), target));
  }

  // ---------------------------------------------------------------------
  // Properties of the whole call.

  /** The result has no negative component. */
  lemma MaxBBoxNonNegative(root: Node, parentName: string)
    requires MaxBBoxForChild(root, parentName).Success?
    ensures forall i: Axis :: 0.0 <= MaxBBoxForChild(root, parentName).value.At(i)
  {
    var sub := Find(root, parentName).value;
    FarthestIsMaxAbs(Contributions(PreOrder(sub), parentName));
  }

  /** The call fails exactly when the lookup fails, with the lookup's error. */
  lemma MaxBBoxFailsOnLookup(root: Node, parentName: string)
    ensures MaxBBoxForChild(root, parentName).Failure? <==> |Named(PreOrder(root), parentName)| != 1
    ensures MaxBBoxForChild(root, parentName) == Failure(NotFound)
        <==> forall n :: n in PreOrder(root) ==> n.name != parentName
  {
  }

  /** A found node without descendants yields `[0, 0, 0]`. */
  lemma MaxBBoxZeroWithoutDescendants(root: Node, parentName: string)
    requires Find(root, parentName).Success? && Find(root, parentName).value.children == []
    ensures MaxBBoxForChild(root, parentName) == Success(Zero)
  {
    ExtentZeroWithoutDescendants(Find(root, parentName).value, parentName);
  }

  /** Containment: every descendant of the found node, at every depth, has
      each of its bounding-limit points, placed by that descendant's own
      translation and rotation, within half the result on every axis. */
  lemma MaxBBoxContains(root: Node, parentName: string)
    requires Find(root, parentName).Success?
    ensures var sub, r := Find(root, parentName).value, MaxBBoxForChild(root, parentName).value;
      forall d, j, i: Axis | d in Descendants(sub) && 0 <= j < |d.limits| ::
        2.0 * Abs(Place(d, d.limits[j]).At(i)) <= r.At(i)
  {
    var sub := Find(root, parentName).value;
    var pts := Contributions(PreOrder(sub), parentName);
    FoundHasNoNamesakeBelow(root, parentName);
    FarthestIsMaxAbs(pts);
    forall d, j, i: Axis | d in Descendants(sub) && 0 <= j < |d.limits|
      ensures 2.0 * Abs(Place(d, d.limits[j]).At(i)) <= 2.0 * Farthest(pts).At(i)
    {
      assert d in PreOrder(sub);
      ContributionsInclude(PreOrder(sub), d, parentName);
      assert Placed(d)[j] in pts;
      var k :| 0 <= k < |pts| && pts[k] == Placed(d)[j];
    }
  }

  /** Tightness: on every axis the result is zero or exactly twice the
      absolute coordinate of some placed bounding-limit point of some
      descendant of the found node. */
  lemma MaxBBoxTight(root: Node, parentName: string)
    requires Find(root, parentName).Success?
    ensures var sub, r := Find(root, parentName).value, MaxBBoxForChild(root, parentName).value;
      forall i: Axis :: r.At(i) == 0.0 ||
        exists d, j :: d in Descendants(sub) && 0 <= j < |d.limits| &&
          r.At(i) == 2.0 * Abs(Place(d, d.limits[j]).At(i))
  {
    var sub := Find(root, parentName).value;
    var pts := Contributions(PreOrder(sub), parentName);
    var r := MaxBBoxForChild(root, parentName).value;
    FarthestIsMaxAbs(pts);
    forall i: Axis | r.At(i) != 0.0
      ensures exists d, j :: (d in Descendants(sub) && 0 <= j < |d.limits| &&
          r.At(i) == 2.0 * Abs(Place(d, d.limits[j]).At(i)))
    {
      var k :| 0 <= k < |pts| && Farthest(pts).At(i) == Abs(pts[k].At(i));
      ContributionsComeFrom(PreOrder(sub), parentName, pts[k]);
      var d, j :| d in PreOrder(sub) && d.name != parentName && 0 <= j < |d.limits| && pts[k] == Place(d, d.limits[j]);
      assert d != sub;
      assert d in Descendants(sub);
    }
  }
}
