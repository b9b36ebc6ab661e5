/** The volume hierarchy the aggregator walks: a rooted tree of named,
    placed volumes, its pre-order traversal (anytree's `PreOrderIter`) and
    the lookup of a node by name (anytree's `find` with a name filter). */
module VolumeTree {
  import opened Geometry

  /** A placed volume: its own translation and rotation relative to its
      mother volume, the points its `bounding_limits` yields (for a box, the
      minimum and maximum corners), and its daughter volumes. */
  datatype Node = Node(
    name: string,
    translation: Vec3,
    rotation: Mat3,
    limits: seq<Vec3>,
    children: seq<Node>)

  /** What the lookup raises: no node carries the name (anytree's `find`
      returns `None`, and the walk then fails on `None.name`), or more than
      one does (anytree's `find` raises `CountError`). */
  datatype LookupError = NotFound | Ambiguous

  datatype Result<+T> = Success(value: T) | Failure(error: LookupError)

  /** Pre-order traversal: a node, then each child's subtree from left to right. */
  function PreOrder(n: Node): (r: seq<Node>)
    ensures |r| >= 1 && r[0] == n
    decreases n, 1
  {
    [n] + Forest(n.children)
  }

  /** Pre-order traversal of a sequence of sibling subtrees. */
  function Forest(cs: seq<Node>): seq<Node>
    decreases cs, 0
  {
    if cs == [] then [] else PreOrder(cs[0]) + Forest(cs[1..])
  }

  /** The strict descendants of `n`, in pre-order. */
  function Descendants(n: Node): seq<Node> {
    Forest(n.children)
  }

  /** A node lies in the traversal of a forest exactly when it lies in the
      traversal of one of the forest's trees. */
  lemma {:induction false} ForestMembers(cs: seq<Node>, n: Node)
    ensures n in Forest(cs) <==> exists c :: c in cs && n in PreOrder(c)
    decreases cs
  {
    if cs != [] {
      ForestMembers(cs[1..], n);
      assert Forest(cs) == PreOrder(cs[0]) + Forest(cs[1..]);
      if n in PreOrder(cs[0]) {
        assert cs[0] in cs;
      } else if n in Forest(cs[1..]) {
        var c :| c in cs[1..] && n in PreOrder(c);
        assert c in cs;
      }
      if exists c :: c in cs && n in PreOrder(c) {
        var c :| c in cs && n in PreOrder(c);
        assert c == cs[0] || c in cs[1..];
      }
    }
  }

  /** The traversal of a forest depends, as a set of nodes, only on the set of its trees. */
  lemma ForestMembersBySet(cs: seq<Node>, ds: seq<Node>)
    requires forall c :: c in cs ==> c in ds
    ensures forall n :: n in Forest(cs) ==> n in Forest(ds)
  {
    forall n | n in Forest(cs)
      ensures n in Forest(ds)
    {
      ForestMembers(cs, n);
      ForestMembers(ds, n);
    }
  }

  /** The nodes of `ns` that carry `name`, in order. */
  function Named(ns: seq<Node>, name: string): (r: seq<Node>)
    ensures |r| <= |ns|
    ensures forall n :: n in r <==> n in ns && n.name == name
  {
    if ns == [] then []
    else (if ns[0].name == name then [ns[0]] else []) + Named(ns[1..], name)
  }

  lemma {:induction false} NamedNone(ns: seq<Node>, name: string)
    requires forall n :: n in ns ==> n.name != name
    ensures Named(ns, name) == []
    decreases ns
  {
    if ns != [] {
      assert ns[0] in ns;
      assert forall n :: n in ns[1..] ==> n in ns;
      NamedNone(ns[1..], name);
    }
  }

  lemma {:induction false} NamedConcat(a: seq<Node>, b: seq<Node>, name: string)
    ensures Named(a + b, name) == Named(a, name) + Named(b, name)
    decreases a
  {
    if a == [] {
      assert a + b == b;
    } else {
      assert (a + b)[1..] == a[1..] + b;
      NamedConcat(a[1..], b, name);
    }
  }

  /** anytree's `find(root, lambda node: node.name == name)`: search the whole
      tree in pre-order; fail when no node or more than one node matches. */
  function Find(root: Node, name: string): (r: Result<Node>)
    ensures r.Success? <==> |Named(PreOrder(root), name)| == 1
    ensures r == Failure(NotFound) <==> forall n :: n in PreOrder(root) ==> n.name != name
    ensures r.Success? ==> r.value in PreOrder(root) && r.value.name == name
    ensures r.Success? ==> forall n :: n in PreOrder(root) && n.name == name ==> n == r.value
  {
    var matches := Named(PreOrder(root), name);
    if |matches| == 0 then
      assert forall n :: n in PreOrder(root) && n.name == name ==> n in matches;
      Failure(NotFound)
    else if |matches| > 1 then
      assert matches[0] in matches;
      Failure(Ambiguous)
    else
      assert matches == [matches[0]];
      Success(matches[0])
  }

  /** A subtree never holds more nodes carrying a name than the whole tree does. */
  lemma {:induction false} SubtreeNamedBound(root: Node, n: Node, name: string)
    requires n in PreOrder(root)
    ensures |Named(PreOrder(n), name)| <= |Named(PreOrder(root), name)|
    decreases root, 1
  {
    NamedConcat([root], Forest(root.children), name);
    if n != root {
      ForestNamedBound(root.children, n, name);
    }
  }

  lemma {:induction false} ForestNamedBound(cs: seq<Node>, n: Node, name: string)
    requires n in Forest(cs)
    ensures |Named(PreOrder(n), name)| <= |Named(Forest(cs), name)|
    decreases cs, 0
  {
    NamedConcat(PreOrder(cs[0]), Forest(cs[1..]), name);
    if n in PreOrder(cs[0]) {
      SubtreeNamedBound(cs[0], n, name);
    } else {
      ForestNamedBound(cs[1..], n, name);
    }
  }

  /** When the lookup succeeds, the name is unique in the whole tree, so no
      descendant of the found node carries it: the walk's name test skips the
      found node and nothing else. */
  lemma FoundHasNoNamesakeBelow(root: Node, name: string)
    requires Find(root, name).Success?
    ensures forall d :: d in Descendants(Find(root, name).value) ==> d.name != name
  {
    var sub := Find(root, name).value;
    SubtreeNamedBound(root, sub, name);
    NamedConcat([sub], Descendants(sub), name);
  }
}
