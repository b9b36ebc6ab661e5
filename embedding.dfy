/** Embedding of volume trees: the same tree with nodes added, or children
    reordered, at any depth. The aggregator's result never shrinks when the
    target's subtree grows this way, and is unchanged by reordering. */
module Embedding {
  import opened Geometry
  import opened VolumeTree
  import opened BBox

  /** `a` embeds in `b`: both carry the same name and placement, and every
      child of `a` embeds in some child of `b`. */
  ghost predicate Embeds(a: Node, b: Node)
    decreases a
  {
    a.name == b.name && a.translation == b.translation && a.rotation == b.rotation && a.limits == b.limits &&
    forall c :: c in a.children ==> exists d :: d in b.children && Embeds(c, d)
  }

  /** Every point the walk of `a` feeds in is fed in by the walk of any tree
      `a` embeds in. */
  lemma {:induction false} EmbedsContributions(a: Node, b: Node, t: string)
    requires Embeds(a, b)
    ensures forall q :: q in Contributions(PreOrder(a), t) ==> q in Contributions(PreOrder(b), t)
    decreases a
  {
    ContributionsOfPreOrder(a, t);
    ContributionsOfPreOrder(b, t);
    assert Placed(a) == Placed(b);
    forall q | q in Contributions(Descendants(a), t)
      ensures q in Contributions(PreOrder(b), t)
    {
      ContributionsComeFrom(Descendants(a), t, q);
      var n, j :| n in Descendants(a) && n.name != t && 0 <= j < |n.limits| && q == Place(n, n.limits[j]);
      ForestMembers(a.children, n);
      var c :| c in a.children && n in PreOrder(c);
      var d :| d in b.children && Embeds(c, d);
      ContributionsInclude(PreOrder(c), n, t);
      assert q == Placed(n)[j];
      EmbedsContributions(c, d, t);
      ContributionsComeFrom(PreOrder(d), t, q);
      var m, i :| m in PreOrder(d) && m.name != t && 0 <= i < |m.limits| && q == Place(m, m.limits[i]);
      ForestMembers(b.children, m);
      assert m in PreOrder(b);
      ContributionsInclude(PreOrder(b), m, t);
      assert q == Placed(m)[i];
    }
  }

  /** Adding nodes anywhere below the target, at any depth, never decreases
      any component of the result. */
  lemma EmbeddedTreeNeverShrinks(a: Node, b: Node, t: string)
    requires Embeds(a, b)
    ensures LessEq(SubtreeExtent(a, t), SubtreeExtent(b, t))
  {
    EmbedsContributions(a, b, t);
    FarthestMonotone(Contributions(PreOrder(a), t), Contributions(PreOrder(b), t));
  }

  /** Trees that embed in each other, for example by reordering children at
      any depth, yield the same result. */
  lemma MutuallyEmbeddedSameExtent(a: Node, b: Node, t: string)
    requires Embeds(a, b) && Embeds(b, a)
    ensures SubtreeExtent(a, t) == SubtreeExtent(b, t)
  {
    EmbeddedTreeNeverShrinks(a, b, t);
    EmbeddedTreeNeverShrinks(b, a, t);
    LessEqAntisymmetric(SubtreeExtent(a, t), SubtreeExtent(b, t));
  }

  /** Every tree embeds in itself. */
  lemma {:induction false} EmbedsReflexive(a: Node)
    ensures Embeds(a, a)
    decreases a
  {
    forall c | c in a.children
      ensures exists d :: d in a.children && Embeds(c, d)
    {
      EmbedsReflexive(c);
    }
  }

  /** A node embeds in a node with the same name, placement and limits whose
      children include all of its own. */
  lemma EmbedsIntoMoreChildren(a: Node, b: Node)
    requires a.name == b.name && a.translation == b.translation && a.rotation == b.rotation && a.limits == b.limits
    requires forall c :: c in a.children ==> c in b.children
    ensures Embeds(a, b)
  {
    forall c | c in a.children
      ensures exists d :: d in b.children && Embeds(c, d)
    {
      EmbedsReflexive(c);
    }
  }

  /** Replacing one child by a tree it embeds in (or that embeds in it)
      carries the embedding up to the parent. */
  lemma EmbedsThroughChild(a: Node, k: nat, c: Node)
    requires k < |a.children|
    ensures Embeds(a.children[k], c) ==> Embeds(a, a.(children := a.children[k := c]))
    ensures Embeds(c, a.children[k]) ==> Embeds(a.(children := a.children[k := c]), a)
  {
    var a' := a.(children := a.children[k := c]);
    if Embeds(a.children[k], c) {
      forall e | e in a.children
        ensures exists d :: d in a'.children && Embeds(e, d)
      {
        var i :| 0 <= i < |a.children| && a.children[i] == e;
        if i == k {
          assert a'.children[k] == c;
        } else {
          EmbedsReflexive(e);
          assert a'.children[i] == e;
        }
      }
    }
    if Embeds(c, a.children[k]) {
      forall e | e in a'.children
        ensures exists d :: d in a.children && Embeds(e, d)
      {
        var i :| 0 <= i < |a'.children| && a'.children[i] == e;
        if i == k {
          assert a.children[k] in a.children;
        } else {
          EmbedsReflexive(e);
          assert a.children[i] == e;
        }
      }
    }
  }
  /** Giving one child of the target more children of its own (keeping the
      old ones) never decreases any component of the result. */
  lemma MoreGrandchildrenNeverShrink(sub: Node, k: nat, grandchildren: seq<Node>, target: string)
    requires k < |sub.children|
    requires forall g :: g in sub.children[k].children ==> g in grandchildren
    ensures LessEq(SubtreeExtent(sub, target),
                   SubtreeExtent(sub.(children := sub.children[k := sub.children[k].(children := grandchildren)]), target))
  {
    EmbedsIntoMoreChildren(sub.children[k], sub.children[k].(children := grandchildren));
    EmbedsThroughChild(sub, k, sub.children[k].(children := grandchildren));
    EmbeddedTreeNeverShrinks(sub, sub.(children := sub.children[k := sub.children[k].(children := grandchildren)]), target);
  }

  /** Two sequences with the same multiset have the same members. */
  lemma SameMembers(xs: seq<Node>, ys: seq<Node>)
    requires multiset(xs) == multiset(ys)
    ensures forall g :: g in xs ==> g in ys
  {
    forall g | g in xs ensures g in ys {
      assert g in multiset(xs);
    }
  }

  /** A node and the same node with its children permuted embed in each other. */
  lemma PermutedChildrenEmbedBothWays(c: Node, children: seq<Node>)
    requires multiset(children) == multiset(c.children)
    ensures Embeds(c, c.(children := children)) && Embeds(c.(children := children), c)
  {
    SameMembers(children, c.children);
    SameMembers(c.children, children);
    EmbedsIntoMoreChildren(c, c.(children := children));
    EmbedsIntoMoreChildren(c.(children := children), c);
  }

  /** Permuting the children of one child of the target leaves the result unchanged. */
  lemma GrandchildOrderIrrelevant(sub: Node, k: nat, grandchildren: seq<Node>, target: string)
    requires k < |sub.children|
    requires multiset(grandchildren) == multiset(sub.children[k].children)
    ensures SubtreeExtent(sub.(children := sub.children[k := sub.children[k].(children := grandchildren)]), target)
         == SubtreeExtent(sub, target)
  {
    var c' := sub.children[k].(children := grandchildren);
    PermutedChildrenEmbedBothWays(sub.children[k], grandchildren);
    EmbedsThroughChild(sub, k, c');
    MutuallyEmbeddedSameExtent(sub.(children := sub.children[k := c']), sub, target);
  }
}
