/**
 The loop body of the top-down removal in memory: each branch of `rb_tree_remove_node`'s colour repair carries out
 `RepairPath` and `RepairTree`.
 */
module RbRepair {
  import opened RbShape
  import opened RbDescent
  import opened RbNodes

  /** A red child on the far side: rotate the current node under it. */
  method RotateCurrent<K, V>(p: RbNode<K, V>, q: RbNode<K, V>, last: bool, dir: bool,
                             ghost path: Path<Cell<K, V>>, ghost t: Tree<Cell<K, V>>) returns (r: RbNode<K, V>)
    requires path.Down? && t.Node? && Situated(path, t, q) && Choose(path, t, dir).RotateQ?
    requires p == path.item.node && last == path.dir
    modifies p, t.item.node, t.Child(!dir).item.node
    ensures Situated(RepairPath(path, t, dir), RepairTree(path, t, dir), q)
    ensures r == RepairPath(path, t, dir).item.node
  {
    ghost var rot := RbShape.RotateSingle(t, dir);
    SeparatePath(path, t);
    RotateSingleKeepsOrder(t, dir);
    SameOrderSameNodes(rot, t);
    assert t.Child(!dir).item.node in Nodes(t);
    r := RbNodes.RotateSingle(q, dir, t);
    assert PathRep(path, q);
    p.link := p.link.With(last, r);
    assert PathRep(path, r) && Rep(rot, r);
    RepairKeepsOrder(path, t, dir);
  }

  /** A black sibling with black children: push the black of parent, sibling and current node up by recolouring. */
  method FlipColours<K, V>(p: RbNode<K, V>, q: RbNode<K, V>, s: RbNode<K, V>, dir: bool,
                           ghost path: Path<Cell<K, V>>, ghost t: Tree<Cell<K, V>>)
    requires path.Down? && t.Node? && Situated(path, t, q) && Choose(path, t, dir).Flip?
    requires p == path.item.node && s == path.sib.item.node
    modifies p, q, s
    ensures Situated(RepairPath(path, t, dir), RepairTree(path, t, dir), q)
  {
    SeparatePath(path, t);
    Separate(t, dir);
    Separate(path.sib, dir);
    p.red := false;
    s.red := true;
    q.red := true;
    RepairKeepsOrder(path, t, dir);
  }

  /** The tree that a rotation over the parent leaves behind, coloured as the removal wants it. */
  ghost function Lifted<T>(last: bool, t: Tree<T>, pi: T, near: Tree<T>, x: T, far: Tree<T>): (r: Tree<T>)
    requires t.Node? && far.Node?
  {
    Build(true, last, Build(false, last, Paint(t, true), pi, near), x, Paint(far, false))
  }

  /** The recolouring that follows the rotation over the parent. */
  method ColourLifted<K, V>(n: RbNode<K, V>, q: RbNode<K, V>, ghost last: bool, ghost colours: (bool, bool),
                            ghost t: Tree<Cell<K, V>>, ghost pi: Cell<K, V>, ghost near: Tree<Cell<K, V>>,
                            ghost x: Cell<K, V>, ghost far: Tree<Cell<K, V>>)
    requires t.Node? && far.Node? && q == t.item.node
    requires var v := Build(colours.0, last, Build(colours.1, last, t, pi, near), x, far);
             Rep(v, n) && Distinct(In(v))
    modifies n, q, pi.node, far.item.node
    ensures Rep(Lifted(last, t, pi, near, x, far), n)
  {
    hide Rep, Nodes, In, Distinct;
    SeparateLifted(last, colours, t, pi, near, x, far);
    OpenRep(colours.0, last, Build(colours.1, last, t, pi, near), x, far, n);
    OpenRep(colours.1, last, t, pi, near, n.link.At(last));
    OpenNode(t, pi.node.link.At(last));
    OpenNode(far, n.link.At(!last));
    q.red := true;
    n.red := true;
    n.link.left.red := false;
    n.link.right.red := false;
    ClosePainted(t, q);
    ClosePainted(far, far.item.node);
    CloseRep(false, last, Paint(t, true), pi, near);
    CloseRep(true, last, Build(false, last, Paint(t, true), pi, near), x, Paint(far, false));
  }

  ghost predicate Spared<K, V>(s: Tree<Cell<K, V>>, a: Cell<K, V>, b: Cell<K, V>, c: Cell<K, V>, d: Cell<K, V>) {
    a.node !in Nodes(s) && b.node !in Nodes(s) && c.node !in Nodes(s) && d.node !in Nodes(s)
  }

  lemma SeparateLifted<K, V>(last: bool, colours: (bool, bool), t: Tree<Cell<K, V>>, pi: Cell<K, V>,
                             near: Tree<Cell<K, V>>, x: Cell<K, V>, far: Tree<Cell<K, V>>)
    requires t.Node? && far.Node?
    requires Distinct(In(Build(colours.0, last, Build(colours.1, last, t, pi, near), x, far)))
    ensures x.node !in {t.item.node, pi.node, far.item.node} && pi.node !in {t.item.node, far.item.node}
    ensures t.item.node != far.item.node
    ensures Spared(t.left, x, t.item, pi, far.item) && Spared(t.right, x, t.item, pi, far.item)
    ensures Spared(far.left, x, t.item, pi, far.item) && Spared(far.right, x, t.item, pi, far.item)
    ensures Spared(near, x, t.item, pi, far.item)
  {
    var low := Build(colours.1, last, t, pi, near);
    Separate(Build(colours.0, last, low, x, far), last);
    Separate(low, last);
    Separate(t, last);
    Separate(far, last);
  }

  /** The link of the innermost node that leads to the hole is the one in the path's direction. */
  lemma HoleSide<K, V>(up: Path<Cell<K, V>>, p: RbNode<K, V>)
    requires up.Down? && PathRep(up, p) && p !in Nodes(up.sib)
    ensures (up.item.node.link.right == p) == up.dir
  {
    if up.sib.Node? { assert up.sib.item.node in Nodes(up.sib); }
  }

  /** Hangs the rotated tree below the grandparent and colours it. */
  method HookLifted<K, V>(g: RbNode<K, V>, p: RbNode<K, V>, n: RbNode<K, V>, q: RbNode<K, V>, dir2: bool, ghost last: bool,
                          ghost up: Path<Cell<K, V>>, ghost t: Tree<Cell<K, V>>, ghost pi: Cell<K, V>,
                          ghost near: Tree<Cell<K, V>>, ghost x: Cell<K, V>, ghost far: Tree<Cell<K, V>>)
    requires up.Down? && g == up.item.node && dir2 == up.dir && PathRep(up, p)
    requires t.Node? && far.Node? && q == t.item.node
    requires var v := Build(false, last, Build(true, last, t, pi, near), x, far);
             Rep(v, n) && Distinct(Whole(up, v))
    modifies g, n, q, pi.node, far.item.node
    ensures PathRep(up, n) && Rep(Lifted(last, t, pi, near, x, far), n)
  {
    hide In, Distinct, Before, After, Lifted;
    ghost var low := Build(true, last, t, pi, near);
    ghost var v := Build(false, last, low, x, far);
    SeparatePath(up, v);
    assert x.node in Nodes(v) && pi.node in Nodes(low) && q in Nodes(t) && far.item.node in Nodes(far);
    assert Nodes(low) <= Nodes(v) && Nodes(t) <= Nodes(low) && Nodes(far) <= Nodes(v);
    g.link := g.link.With(dir2, n);
    assert PathRep(up, n) && Rep(v, n);
    ColourLifted(n, q, last, (false, true), t, pi, near, x, far);
  }

  lemma LiftedSituated<K, V>(up: Path<Cell<K, V>>, n: RbNode<K, V>, last: bool, t: Tree<Cell<K, V>>, pi: Cell<K, V>,
                             near: Tree<Cell<K, V>>, x: Cell<K, V>, far: Tree<Cell<K, V>>)
    requires t.Node? && far.Node? && PathRep(up, n) && Rep(Lifted(last, t, pi, near, x, far), n)
    ensures PathRep(Down(Down(up, true, last, x, Paint(far, false)), false, last, pi, near), t.item.node)
    ensures Rep(Paint(t, true), t.item.node)
  {
    var low := Build(false, last, Paint(t, true), pi, near);
    OpenRep(true, last, low, x, Paint(far, false), n);
    OpenRep(false, last, Paint(t, true), pi, near, pi.node);
    assert PathRep(Down(up, true, last, x, Paint(far, false)), pi.node);
  }

  lemma NephewInside<K, V>(red: bool, last: bool, t: Tree<Cell<K, V>>, pi: Cell<K, V>, sib: Tree<Cell<K, V>>)
    requires sib.Node? && sib.Child(last).Node?
    ensures sib.item.node in Nodes(Build(red, last, t, pi, sib))
    ensures sib.Child(last).item.node in Nodes(Build(red, last, t, pi, sib))
  {
    assert sib.Child(last).item.node in Nodes(sib);
  }

  /** The inner nephew is red: it is rotated over the parent. */
  method LiftNephew<K, V>(g: RbNode<K, V>, p: RbNode<K, V>, q: RbNode<K, V>, last: bool, ghost dir: bool,
                           ghost path: Path<Cell<K, V>>, ghost t: Tree<Cell<K, V>>)
    requires path.Down? && path.up.Down? && t.Node? && Situated(path, t, q) && Choose(path, t, dir).DoubleP?
    requires g == path.up.item.node && p == path.item.node && last == path.dir
    modifies g, p, q, path.sib.item.node, path.sib.Child(path.dir).item.node
    ensures Situated(RepairPath(path, t, dir), RepairTree(path, t, dir), q)
  {
    hide Distinct, Before, After, In;
    ghost var u := Build(path.red, last, t, path.item, path.sib);
    ghost var up, pi, sib := path.up, path.item, path.sib;
    WholeBuild(path, t);
    SeparatePath(up, u);
    CloseRep(path.red, last, t, pi, sib);
    HoleSide(up, p);
    RepairKeepsOrder(path, t, dir);
    RotateDoubleKeepsOrder(u, last);
    NephewInside(path.red, last, t, pi, sib);
    ghost var m := sib.Child(last);
    ghost var far := Build(true, last, m.Child(!last), sib.item, sib.Child(!last));
    var dir2 := g.link.right == p;
    var n := RbNodes.RotateDouble(p, last, u);
    HookLifted(g, p, n, q, dir2, last, up, t, pi, m.Child(last), m.item, far);
    LiftedSituated(up, n, last, t, pi, m.Child(last), m.item, far);
  }

  /** Only the outer nephew is red: the sibling is rotated over the parent. */
  method LiftSibling<K, V>(g: RbNode<K, V>, p: RbNode<K, V>, q: RbNode<K, V>, last: bool, ghost dir: bool,
                           ghost path: Path<Cell<K, V>>, ghost t: Tree<Cell<K, V>>)
    requires path.Down? && path.up.Down? && t.Node? && Situated(path, t, q) && Choose(path, t, dir).SingleP?
    requires g == path.up.item.node && p == path.item.node && last == path.dir
    modifies g, p, q, path.sib.item.node, path.sib.Child(!path.dir).item.node
    ensures Situated(RepairPath(path, t, dir), RepairTree(path, t, dir), q)
  {
    hide Distinct, Before, After, In;
    ghost var u := Build(path.red, last, t, path.item, path.sib);
    ghost var up, pi, sib := path.up, path.item, path.sib;
    WholeBuild(path, t);
    SeparatePath(up, u);
    CloseRep(path.red, last, t, pi, sib);
    HoleSide(up, p);
    RepairKeepsOrder(path, t, dir);
    RotateSingleKeepsOrder(u, last);
    ghost var far := sib.Child(!last);
    var dir2 := g.link.right == p;
    var n := RbNodes.RotateSingle(p, last, u);
    HookLifted(g, p, n, q, dir2, last, up, t, pi, sib.Child(last), sib.item, far);
    LiftedSituated(up, n, last, t, pi, sib.Child(last), sib.item, far);
  }
}
