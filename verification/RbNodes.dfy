/**
 The nodes of `src/util/rbtree.c` in memory, what shape they spell out, and the pointer surgery on them.
 Every method is specified by the function on shapes that it carries out.
 */
module RbNodes {
  import opened RbShape
  import opened RbDescent

  /** The C code's `link[2]`, indexed by a truth value. */
  datatype Links<K, V> = Links(left: RbNode?<K, V>, right: RbNode?<K, V>) {
    function At(dir: bool): RbNode?<K, V> {
      if dir then right else left
    }

    function With(dir: bool, n: RbNode?<K, V>): (r: Links<K, V>)
      ensures r.At(dir) == n && r.At(!dir) == At(!dir)
    {
      if dir then Links(left, n) else Links(n, right)
    }
  }

  class RbNode<K, V> {
    var key: K
    var value: V
    var red: bool
    var link: Links<K, V>

    constructor (key: K, value: V)
      ensures this.key == key && this.value == value && red && link == Links(null, null)
    {
      this.key, this.value, red, link := key, value, true, Links(null, null);
    }
  }

  /** A node's identity together with what it stores. */
  datatype Cell<K, V> = Cell(node: RbNode<K, V>, key: K, value: V)

  predicate RedPtr<K, V>(n: RbNode?<K, V>)
    reads n
  {
    n != null && n.red
  }

  // ----- Shapes in memory

  ghost function Nodes<K, V>(t: Tree<Cell<K, V>>): set<RbNode<K, V>> {
    match t
    case Leaf => {}
    case Node(_, l, c, r) => {c.node} + Nodes(l) + Nodes(r)
  }

  /** The links, colours and contents reachable from `n` spell out `t`. */
  ghost predicate Rep<K, V>(t: Tree<Cell<K, V>>, n: RbNode?<K, V>)
    reads Nodes(t)
  {
    match t
    case Leaf => n == null
    case Node(red, l, c, r) =>
      && n == c.node
      && n.red == red && n.key == c.key && n.value == c.value
      && Rep(l, n.link.left) && Rep(r, n.link.right)
  }

  ghost function PathNodes<K, V>(p: Path<Cell<K, V>>): set<RbNode<K, V>> {
    match p
    case Top => {}
    case Down(up, _, _, c, sib) => {c.node} + Nodes(sib) + PathNodes(up)
  }

  /** The memory around the link `hole` spells out `p`. */
  ghost predicate PathRep<K, V>(p: Path<Cell<K, V>>, hole: RbNode?<K, V>)
    reads PathNodes(p)
    decreases p
  {
    match p
    case Top => true
    case Down(up, red, dir, c, sib) =>
      && c.node.red == red && c.node.key == c.key && c.node.value == c.value
      && c.node.link.At(dir) == hole
      && Rep(sib, c.node.link.At(!dir))
      && PathRep(up, c.node)
  }

  /** No node occurs twice: the condition under which a shape in memory is a tree. */
  ghost predicate Distinct<K, V>(s: seq<Cell<K, V>>) {
    forall i, j :: 0 <= i < j < |s| ==> s[i].node != s[j].node
  }

  /** Node `q` is the root of `t`, which sits at the end of `p`. */
  ghost predicate Situated<K, V>(p: Path<Cell<K, V>>, t: Tree<Cell<K, V>>, q: RbNode?<K, V>)
    reads PathNodes(p), Nodes(t)
  {
    PathRep(p, q) && Rep(t, q) && Distinct(Whole(p, t))
  }

  // ----- Separation, from distinctness alone

  lemma NodesAllocated<K, V>(t: Tree<Cell<K, V>>)
    ensures forall o <- Nodes(t) :: allocated(o)
  {}

  lemma PathNodesAllocated<K, V>(p: Path<Cell<K, V>>)
    ensures forall o <- PathNodes(p) :: allocated(o)
  {
    if p.Down? { NodesAllocated(p.sib); }
  }

  ghost function Owners<K, V>(s: seq<Cell<K, V>>): set<RbNode<K, V>> {
    set c <- s :: c.node
  }

  lemma DistinctSplit<K, V>(a: seq<Cell<K, V>>, b: seq<Cell<K, V>>)
    ensures Owners(a + b) == Owners(a) + Owners(b)
    ensures Distinct(a + b) ==> Distinct(a) && Distinct(b) && Owners(a) !! Owners(b)
  {
    var s := a + b;
    forall i | 0 <= i < |a| ensures s[i] == a[i] {}
    forall i | 0 <= i < |b| ensures s[|a| + i] == b[i] {}
    assert forall c :: c in s <==> c in a || c in b;
    if Distinct(s) {
      forall i, j | 0 <= i < |a| && 0 <= j < |b| ensures a[i].node != b[j].node {
        assert s[i].node != s[|a| + j].node;
      }
      forall i, j | 0 <= i < j < |b| ensures b[i].node != b[j].node {
        assert s[|a| + i].node != s[|a| + j].node;
      }
    }
  }

  lemma DistinctJoin<K, V>(a: seq<Cell<K, V>>, c: Cell<K, V>, b: seq<Cell<K, V>>)
    requires Distinct(a) && Distinct(b) && Owners(a) !! Owners(b) && c.node !in Owners(a) && c.node !in Owners(b)
    ensures Distinct(a + [c] + b)
  {
    var s := a + [c] + b;
    forall i, j | 0 <= i < j < |s| ensures s[i].node != s[j].node {
      var x, y := s[i], s[j];
      assert x == if i < |a| then a[i] else if i == |a| then c else b[i - |a| - 1];
      assert y == if j < |a| then a[j] else if j == |a| then c else b[j - |a| - 1];
      assert x in a ==> x.node in Owners(a);
      assert x in b ==> x.node in Owners(b);
      assert y in a ==> y.node in Owners(a);
      assert y in b ==> y.node in Owners(b);
    }
  }

  lemma DistinctSplit3<K, V>(a: seq<Cell<K, V>>, c: Cell<K, V>, b: seq<Cell<K, V>>)
    ensures Owners(a + [c] + b) == {c.node} + Owners(a) + Owners(b)
    ensures Distinct(a + [c] + b) ==>
      Distinct(a) && Distinct(b) && Owners(a) !! Owners(b) && c.node !in Owners(a) && c.node !in Owners(b)
  {
    DistinctSplit(a, [c]);
    DistinctSplit(a + [c], b);
    assert c.node in Owners([c]);
  }

  /** The nodes of a shape are those of its cells. */
  lemma {:induction false} NodesAreOwners<K, V>(t: Tree<Cell<K, V>>)
    ensures Nodes(t) == Owners(In(t))
  {
    if t.Node? {
      NodesAreOwners(t.left);
      NodesAreOwners(t.right);
      DistinctSplit3(In(t.left), t.item, In(t.right));
    }
  }

  lemma SameOrderSameNodes<K, V>(t: Tree<Cell<K, V>>, u: Tree<Cell<K, V>>)
    requires In(t) == In(u)
    ensures Nodes(t) == Nodes(u)
  {
    NodesAreOwners(t);
    NodesAreOwners(u);
  }

  lemma {:induction false} PathNodesAreOwners<K, V>(p: Path<Cell<K, V>>)
    ensures PathNodes(p) == Owners(Before(p)) + Owners(After(p))
  {
    if p.Down? {
      PathNodesAreOwners(p.up);
      NodesAreOwners(p.sib);
      if p.dir {
        assert Before(p) == Before(p.up) + In(p.sib) + [p.item] + [];
        DistinctSplit(Before(p.up), In(p.sib));
        DistinctSplit3(Before(p.up) + In(p.sib), p.item, []);
      } else {
        assert After(p) == [] + [p.item] + (In(p.sib) + After(p.up));
        DistinctSplit(In(p.sib), After(p.up));
        DistinctSplit3([], p.item, In(p.sib) + After(p.up));
      }
    }
  }

  lemma Separate<K, V>(t: Tree<Cell<K, V>>, dir: bool)
    requires t.Node? && Distinct(In(t))
    ensures Distinct(In(t.Child(dir))) && Distinct(In(t.Child(!dir)))
    ensures t.item.node !in Nodes(t.Child(dir)) && t.item.node !in Nodes(t.Child(!dir))
    ensures Nodes(t.Child(dir)) !! Nodes(t.Child(!dir))
    ensures forall o <- Nodes(t.left) :: allocated(o)
    ensures forall o <- Nodes(t.right) :: allocated(o)
  {
    NodesAreOwners(t.left);
    NodesAreOwners(t.right);
    DistinctSplit3(In(t.left), t.item, In(t.right));
    NodesAllocated(t.left);
    NodesAllocated(t.right);
  }

  lemma SeparateWhole<K, V>(p: Path<Cell<K, V>>, t: Tree<Cell<K, V>>)
    requires Distinct(Whole(p, t))
    ensures Distinct(In(t)) && PathNodes(p) !! Nodes(t)
    ensures forall o <- PathNodes(p) :: allocated(o)
    ensures forall o <- Nodes(t) :: allocated(o)
  {
    PathNodesAreOwners(p);
    NodesAreOwners(t);
    DistinctSplit(Before(p), In(t));
    DistinctSplit(Before(p) + In(t), After(p));
    NodesAllocated(t);
    PathNodesAllocated(p);
  }

  /** The innermost node of the path, its sibling, the rest of the path and the subtree share no node. */
  lemma SeparatePath<K, V>(p: Path<Cell<K, V>>, t: Tree<Cell<K, V>>)
    requires p.Down? && Distinct(Whole(p, t))
    ensures p.item.node !in Nodes(p.sib) && p.item.node !in PathNodes(p.up) && p.item.node !in Nodes(t)
    ensures Nodes(p.sib) !! PathNodes(p.up) && Nodes(p.sib) !! Nodes(t) && PathNodes(p.up) !! Nodes(t)
    ensures Distinct(In(p.sib)) && Distinct(In(t))
    ensures forall o <- PathNodes(p.up) :: allocated(o)
    ensures forall o <- Nodes(p.sib) :: allocated(o)
    ensures forall o <- Nodes(t) :: allocated(o)
  {
    var u := Build(p.red, p.dir, t, p.item, p.sib);
    WholeBuild(p, t);
    SeparateWhole(p.up, u);
    Separate(u, p.dir);
    assert Nodes(u) == {p.item.node} + Nodes(t) + Nodes(p.sib);
  }

  // ----- Opening and closing a shape in a direction

  lemma RedPtrIsRed<K, V>(t: Tree<Cell<K, V>>, n: RbNode?<K, V>)
    requires Rep(t, n)
    ensures RedPtr(n) == IsRed(t)
  {}

  lemma OpenRep<K, V>(red: bool, dir: bool, near: Tree<Cell<K, V>>, c: Cell<K, V>, far: Tree<Cell<K, V>>, n: RbNode?<K, V>)
    requires Rep(Build(red, dir, near, c, far), n)
    ensures n == c.node && n.red == red && n.key == c.key && n.value == c.value
    ensures Rep(near, n.link.At(dir)) && Rep(far, n.link.At(!dir))
  {}

  lemma CloseRep<K, V>(red: bool, dir: bool, near: Tree<Cell<K, V>>, c: Cell<K, V>, far: Tree<Cell<K, V>>)
    requires c.node.red == red && c.node.key == c.key && c.node.value == c.value
    requires Rep(near, c.node.link.At(dir)) && Rep(far, c.node.link.At(!dir))
    ensures Rep(Build(red, dir, near, c, far), c.node)
  {}

  lemma OpenNode<K, V>(t: Tree<Cell<K, V>>, n: RbNode?<K, V>)
    requires t.Node? && Rep(t, n)
    ensures n == t.item.node && n.key == t.item.key && n.value == t.item.value
    ensures Rep(t.left, n.link.left) && Rep(t.right, n.link.right)
  {}

  /** The shape below a node that was given a colour. */
  lemma ClosePainted<K, V>(t: Tree<Cell<K, V>>, n: RbNode<K, V>)
    requires t.Node? && n == t.item.node && n.key == t.item.key && n.value == t.item.value
    requires Rep(t.left, n.link.left) && Rep(t.right, n.link.right)
    ensures Rep(Paint(t, n.red), n)
  {}

  // ----- Rotations

  method RotateSingle<K, V>(node: RbNode<K, V>, dir: bool, ghost t: Tree<Cell<K, V>>) returns (other: RbNode<K, V>)
    requires t.Node? && t.Child(!dir).Node? && Rep(t, node) && Distinct(In(t))
    modifies t.item.node, t.Child(!dir).item.node
    ensures Rep(RbShape.RotateSingle(t, dir), other)
  {
    other := node.link.At(!dir);
    ghost var o := t.Child(!dir);
    ghost var a, b, c := t.Child(dir), o.Child(dir), o.Child(!dir);
    SeparateRotation(t, dir);
    node.link := node.link.With(!dir, other.link.At(dir));
    other.link := other.link.With(dir, node);
    node.red := true;
    other.red := false;
    assert Rep(Build(true, dir, a, t.item, b), node);
  }

  lemma SeparateRotation<K, V>(t: Tree<Cell<K, V>>, dir: bool)
    requires t.Node? && t.Child(!dir).Node? && Distinct(In(t))
    ensures var o := t.Child(!dir);
            && t.item.node != o.item.node
            && forall s <- [t.Child(dir), o.Child(dir), o.Child(!dir)] :: t.item.node !in Nodes(s) && o.item.node !in Nodes(s)
  {
    Separate(t, dir);
    Separate(t.Child(!dir), dir);
  }

  method RotateDouble<K, V>(node: RbNode<K, V>, dir: bool, ghost t: Tree<Cell<K, V>>) returns (other: RbNode<K, V>)
    requires t.Node? && t.Child(!dir).Node? && t.Child(!dir).Child(dir).Node? && Rep(t, node) && Distinct(In(t))
    modifies t.item.node, t.Child(!dir).item.node, t.Child(!dir).Child(dir).item.node
    ensures Rep(RbShape.RotateDouble(t, dir), other)
  {
    ghost var inner := RbShape.RotateSingle(t.Child(!dir), !dir);
    Separate(t, dir);
    RotateSingleKeepsOrder(t.Child(!dir), !dir);
    SameOrderSameNodes(inner, t.Child(!dir));
    ghost var a, pa, o := t.Child(dir), node.link.At(dir), t.Child(!dir);
    assert o.item.node !in Nodes(a) && o.Child(dir).item.node in Nodes(o);
    var n := RotateSingle(node.link.At(!dir), !dir, o);
    assert Rep(a, pa) && pa == node.link.At(dir);
    node.link := node.link.With(!dir, n);
    assert Rep(a, pa) && Rep(inner, n);
    ghost var u := Build(t.red, dir, t.Child(dir), t.item, inner);
    InBuild(t.red, dir, t.Child(dir), t.item, inner);
    assert Rep(u, node);
    other := RotateSingle(node, dir, u);
  }
}
