/**
 The parentless iterator of `src/util/rbtree.c` on values: the stack is the way from the root to the parent of the
 current node, and a traversal step moves to the neighbouring cell.
 */
module RbWalk {
  import opened RbShape
  import opened RbDescent
  import opened RbNodes
  import opened RbCourse

  /** The nodes of a path from the root inwards: what the iterator's stack holds. */
  ghost function Spine<K, V>(p: Path<Cell<K, V>>): seq<RbNode<K, V>> {
    if p.Top? then [] else Spine(p.up) + [p.item.node]
  }

  /** The position of the neighbour in direction `dir`. */
  ghost function Beside(i: int, dir: bool): int {
    if dir then i + 1 else i - 1
  }

  /** The outermost position of `t` in direction `dir`. */
  ghost function Edge<T>(p: Path<T>, t: Tree<T>, dir: bool): int {
    if dir then End(p, t) - 1 else |Before(p)|
  }

  lemma StepUpSituated<K, V>(p: Path<Cell<K, V>>, t: Tree<Cell<K, V>>, n: RbNode?<K, V>)
    requires p.Down? && Situated(p, t, n)
    ensures Situated(p.up, Build(p.red, p.dir, t, p.item, p.sib), p.item.node)
    ensures Plug(p, t) == Plug(p.up, Build(p.red, p.dir, t, p.item, p.sib))
  {
    WholeBuild(p, t);
    CloseRep(p.red, p.dir, t, p.item, p.sib);
  }

  /** Going up from the side we want to leave arrives right beside the subtree. */
  lemma UpIsBeside<T>(p: Path<T>, t: Tree<T>)
    requires p.Down?
    ensures Here(p.up, Build(p.red, p.dir, t, p.item, p.sib)) == Beside(Edge(p, t, !p.dir), !p.dir)
  {
    InBuild(p.red, p.dir, t, p.item, p.sib);
  }

  /** Going up from the other side stays at the same edge. */
  lemma UpKeepsEdge<T>(p: Path<T>, t: Tree<T>)
    requires p.Down?
    ensures Edge(p.up, Build(p.red, p.dir, t, p.item, p.sib), p.dir) == Edge(p, t, p.dir)
  {
    InBuild(p.red, p.dir, t, p.item, p.sib);
  }

  /** A node without a child at `dir` is at its own edge. */
  lemma AtOwnEdge<T>(p: Path<T>, t: Tree<T>, dir: bool)
    requires t.Node? && t.Child(dir).Leaf?
    ensures Here(p, t) == Edge(p, t, dir)
  {
    assert |In(t)| == |In(t.left)| + 1 + |In(t.right)|;
  }

  /** The near edge of the child at `dir` is beside the node. */
  lemma ChildIsBeside<T>(p: Path<T>, t: Tree<T>, dir: bool)
    requires t.Node?
    ensures Edge(Step(p, t, dir), t.Child(dir), !dir) == Beside(Here(p, t), dir)
  {}

  lemma StepKeepsEdge<T>(p: Path<T>, t: Tree<T>, dir: bool)
    requires t.Node?
    ensures Edge(Step(p, t, dir), t.Child(dir), dir) == Edge(p, t, dir)
    ensures Plug(Step(p, t, dir), t.Child(dir)) == Plug(p, t)
  {
    assert |In(t)| == |In(t.left)| + 1 + |In(t.right)|;
    assert Build(t.red, dir, t.Child(dir), t.item, t.Child(!dir)) == t;
  }

  /** The link of the innermost node that leads to the current node tells the path's direction. */
  lemma LinkSide<K, V>(p: Path<Cell<K, V>>, t: Tree<Cell<K, V>>, n: RbNode<K, V>, d: bool)
    requires p.Down? && Situated(p, t, n)
    ensures (p.item.node.link.At(d) == n) == (p.dir == d)
  {
    SeparatePath(p, t);
    if p.sib.Node? { assert p.sib.item.node in Nodes(p.sib); }
  }

  // ----- A position determines the way to it

  /** The way down from `t` to the cell at position `i`. */
  ghost function Locate<T>(p: Path<T>, t: Tree<T>, i: int): (Path<T>, Tree<T>)
    requires t.Node? && |Before(p)| <= i < End(p, t)
    decreases t
  {
    assert |In(t)| == |In(t.left)| + 1 + |In(t.right)|;
    if i == Here(p, t) then (p, t)
    else if i < Here(p, t) then Locate(Step(p, t, false), t.left, i)
    else Locate(Step(p, t, true), t.right, i)
  }

  lemma {:induction false} LocateFromTop<T>(p: Path<T>, t: Tree<T>, i: int)
    requires t.Node? && |Before(p)| <= i < End(p, t)
    ensures Plug(p, t).Node? && i < |In(Plug(p, t))| && Locate(Top, Plug(p, t), i) == Locate(p, t, i)
    decreases p
  {
    if p.Down? {
      var u := Build(p.red, p.dir, t, p.item, p.sib);
      InBuild(p.red, p.dir, t, p.item, p.sib);
      LocateFromTop(p.up, u, i);
    }
  }

  /** Two ways into the same tree that reach the same position are the same, stack and all. */
  lemma PositionIsUnique<T>(p: Path<T>, t: Tree<T>, q: Path<T>, u: Tree<T>)
    requires t.Node? && u.Node? && Plug(p, t) == Plug(q, u) && Here(p, t) == Here(q, u)
    ensures p == q && t == u
  {
    LocateFromTop(p, t, Here(p, t));
    LocateFromTop(q, u, Here(q, u));
  }
}
