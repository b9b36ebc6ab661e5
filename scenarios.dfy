/** Small volume trees on which the aggregator's result is worked out by
    hand: the translation-only and rotation cases, a grandchild that is
    placed by its own translation only, and the consequences of the two
    placement conventions (translate before rotate; row vector times matrix)
    and of measuring only the points `bounding_limits` yields. Each tree is
    split into its placed points (`...Shape`), the size measured from those
    points (`...Size`), and the whole call. The trees are given by the fields
    that matter: the names are any names, as long as no descendant shares the
    target's, and the target's own placement and box are anything. */
module Scenarios {
  import opened Geometry
  import opened VolumeTree
  import opened BBox
  import opened SmallTrees


  /** A box with corners (-1,-1,-1) and (1,1,1) moved by (5,0,0) and not
      rotated: its corners are placed at (4,-1,-1) and (6,1,1). */
  lemma BoxShape(box: Node)
    requires box.translation == Vec3(5.0, 0.0, 0.0) && box.rotation == Identity
    ensures Place(box, Vec3(-1.0, -1.0, -1.0)) == Vec3(4.0, -1.0, -1.0) && Place(box, Vec3(1.0, 1.0, 1.0)) == Vec3(6.0, 1.0, 1.0)
  {
  }


  lemma BoxSize(p: Vec3, q: Vec3)
    requires p == Vec3(4.0, -1.0, -1.0) && q == Vec3(6.0, 1.0, 1.0)
    ensures PairSize(p, q) == Vec3(12.0, 2.0, 2.0)
  {
  }

  /** One daughter with corners (-1,-1,-1) and (1,1,1), moved by (5,0,0) and not
      rotated: the farthest x is 6 and the others 1, so the size is (12, 2, 2). */
  lemma TranslationOnly(box: Node, world: Node)
    requires box.translation == Vec3(5.0, 0.0, 0.0) && box.rotation == Identity && box.limits == [Vec3(-1.0, -1.0, -1.0), Vec3(1.0, 1.0, 1.0)]
    requires world.children == [box] && box.children == [] && box.name != world.name
    ensures MaxBBoxForChild(world, world.name) == Success(Vec3(12.0, 2.0, 2.0))
  {
    var p, q := Vec3(4.0, -1.0, -1.0), Vec3(6.0, 1.0, 1.0);
    BoxShape(box);
    OneLeafOfTwo(world, box, Vec3(-1.0, -1.0, -1.0), Vec3(1.0, 1.0, 1.0), p, q);
    BoxSize(p, q);
  }


  /** A bar from (-1,0,0) to (1,0,0), not moved, under the quarter turn that
      sends x to y: its ends are placed at (0,-1,0) and (0,1,0). */
  lemma BarShape(bar: Node)
    requires bar.translation == Zero && bar.rotation == QuarterTurnZ
    ensures Place(bar, Vec3(-1.0, 0.0, 0.0)) == Vec3(0.0, -1.0, 0.0) && Place(bar, Vec3(1.0, 0.0, 0.0)) == Vec3(0.0, 1.0, 0.0)
  {
  }


  lemma BarSize(p: Vec3, q: Vec3)
    requires p == Vec3(0.0, -1.0, 0.0) && q == Vec3(0.0, 1.0, 0.0)
    ensures PairSize(p, q) == Vec3(0.0, 2.0, 0.0)
  {
  }

  /** One daughter with corners (-1,0,0) and (1,0,0), not moved, turned so
      that x goes to y: the size is (0, 2, 0). */
  lemma RotationSwapsAxes(bar: Node, world: Node)
    requires bar.translation == Zero && bar.rotation == QuarterTurnZ && bar.limits == [Vec3(-1.0, 0.0, 0.0), Vec3(1.0, 0.0, 0.0)]
    requires world.children == [bar] && bar.children == [] && bar.name != world.name
    ensures MaxBBoxForChild(world, world.name) == Success(Vec3(0.0, 2.0, 0.0))
  {
    var p, q := Vec3(0.0, -1.0, 0.0), Vec3(0.0, 1.0, 0.0);
    BarShape(bar);
    OneLeafOfTwo(world, bar, Vec3(-1.0, 0.0, 0.0), Vec3(1.0, 0.0, 0.0), p, q);
    BarSize(p, q);
  }


  /** A daughter at (1,0,0) and a granddaughter at (3,0,0), unrotated, each
      with the single bounding-limit point at its origin: each is placed by its
      own translation only, at (1,0,0) and (3,0,0). */
  lemma NestedShape(outer: Node, inner: Node)
    requires outer.translation == Vec3(1.0, 0.0, 0.0) && outer.rotation == Identity
    requires inner.translation == Vec3(3.0, 0.0, 0.0) && inner.rotation == Identity
    ensures Place(outer, Zero) == Vec3(1.0, 0.0, 0.0) && Place(inner, Zero) == Vec3(3.0, 0.0, 0.0)
  {
  }


  lemma NestedSize(p: Vec3, q: Vec3)
    requires p == Vec3(1.0, 0.0, 0.0) && q == Vec3(3.0, 0.0, 0.0)
    ensures PairSize(p, q) == Vec3(6.0, 0.0, 0.0)
  {
  }

  /** A grandchild counts, and it is placed by its own translation (3,0,0)
      only, not composed with its mother's (1,0,0): the size on x is 6, not 8.
      The target's own box, here far larger, is ignored. */
  lemma GrandchildUsesOwnTransformOnly(inner: Node, outer: Node, world: Node)
    requires outer.translation == Vec3(1.0, 0.0, 0.0) && outer.rotation == Identity && outer.limits == [Zero]
    requires inner.translation == Vec3(3.0, 0.0, 0.0) && inner.rotation == Identity && inner.limits == [Zero]
    requires world.limits == [Vec3(100.0, 100.0, 100.0)]
    requires world.children == [outer] && outer.children == [inner] && inner.children == []
    requires outer.name != world.name && inner.name != world.name
    ensures MaxBBoxForChild(world, world.name) == Success(Vec3(6.0, 0.0, 0.0))
  {
    var p, q := Vec3(1.0, 0.0, 0.0), Vec3(3.0, 0.0, 0.0);
    NestedShape(outer, inner);
    ChainOfOnePoints(world, outer, inner, Zero, Zero, p, q);
    NestedSize(p, q);
  }


  /** Translating before rotating is not rotating before translating: a node
      at (1,0,0) turned a quarter about z places its origin at (0,1,0), where
      the other order would give (1,0,0). */
  lemma PlacementOrderMatters()
    ensures var n := Leaf("n", Vec3(1.0, 0.0, 0.0), QuarterTurnZ, [Zero]);
      Place(n, Zero) == Vec3(0.0, 1.0, 0.0) && Place(n, Zero) != Add(RowMul(Zero, n.rotation), n.translation)
  {
  }

  /** `p @ m` is not the usual `m p`: the quarter turn sends x to y as a row
      vector but to -y as a column vector. */
  lemma RowVectorIsNotColumnVector()
    ensures RowMul(Vec3(1.0, 0.0, 0.0), QuarterTurnZ) == Vec3(0.0, 1.0, 0.0)
    ensures Apply(QuarterTurnZ, Vec3(1.0, 0.0, 0.0)) == Vec3(0.0, -1.0, 0.0)
  {
  }

  lemma ThreeFourFiveIsRotation()
    ensures Orthonormal(ThreeFourFive)
  {
  }

  /** A plate with corners (-1,-1,0) and (1,1,0), not moved, under the 3-4-5
      rotation: the two measured corners are placed at (0.2,-1.4,0) and
      (-0.2,1.4,0), and the unmeasured corner (1,-1,0) at (1.4,0.2,0). */
  lemma PlateShape(plate: Node)
    requires plate.translation == Zero && plate.rotation == ThreeFourFive
    ensures Place(plate, Vec3(-1.0, -1.0, 0.0)) == Vec3(0.2, -1.4, 0.0) && Place(plate, Vec3(1.0, 1.0, 0.0)) == Vec3(-0.2, 1.4, 0.0)
    ensures Place(plate, Vec3(1.0, -1.0, 0.0)) == Vec3(1.4, 0.2, 0.0)
  {
  }


  lemma PlateSize(p: Vec3, q: Vec3)
    requires p == Vec3(0.2, -1.4, 0.0) && q == Vec3(-0.2, 1.4, 0.0)
    ensures PairSize(p, q) == Vec3(0.4, 2.8, 0.0)
  {
  }

  lemma TurnedPlateMeasured(plate: Node, world: Node)
    requires plate.translation == Zero && plate.rotation == ThreeFourFive && plate.limits == [Vec3(-1.0, -1.0, 0.0), Vec3(1.0, 1.0, 0.0)]
    requires world.children == [plate] && plate.children == [] && plate.name != world.name
    ensures MaxBBoxForChild(world, world.name) == Success(Vec3(0.4, 2.8, 0.0))
    ensures Place(plate, Vec3(1.0, -1.0, 0.0)) == Vec3(1.4, 0.2, 0.0)
  {
    var p, q := Vec3(0.2, -1.4, 0.0), Vec3(-0.2, 1.4, 0.0);
    PlateShape(plate);
    OneLeafOfTwo(world, plate, Vec3(-1.0, -1.0, 0.0), Vec3(1.0, 1.0, 0.0), p, q);
    PlateSize(p, q);
  }


  /** The corner at (1.4, 0.2, 0) lies beyond half of the size (0.4, 2.8, 0) on x. */
  lemma CornerBeyondHalfSize(corner: Vec3, r: Result<Vec3>)
    requires corner == Vec3(1.4, 0.2, 0.0) && r == Success(Vec3(0.4, 2.8, 0.0))
    ensures 2.0 * Abs(corner.x) > r.value.x
  {
  }

  /** Only the points `bounding_limits` yields are measured. A box with
      corners (-1,-1,0) and (1,1,0) under a genuine rotation (orthonormal,
      cosine 3/5) measures (0.4, 2.8, 0), so half its size on x is 0.2; yet
      its corner (1,-1,0), which is never measured, lands at x = 1.4: the
      result does not contain the whole rotated box. */
  lemma UnmeasuredCornerEscapes(plate: Node, world: Node)
    requires plate.translation == Zero && plate.rotation == ThreeFourFive && plate.limits == [Vec3(-1.0, -1.0, 0.0), Vec3(1.0, 1.0, 0.0)]
    requires world.children == [plate] && plate.children == [] && plate.name != world.name
    ensures Orthonormal(plate.rotation)
    ensures MaxBBoxForChild(world, world.name) == Success(Vec3(0.4, 2.8, 0.0))
    ensures Place(plate, Vec3(1.0, -1.0, 0.0)) == Vec3(1.4, 0.2, 0.0)
    ensures 2.0 * Abs(Place(plate, Vec3(1.0, -1.0, 0.0)).x) > MaxBBoxForChild(world, world.name).value.x
  {
    TurnedPlateMeasured(plate, world);
    ThreeFourFiveIsRotation();
    CornerBeyondHalfSize(Place(plate, Vec3(1.0, -1.0, 0.0)), MaxBBoxForChild(world, world.name));
  }
}
