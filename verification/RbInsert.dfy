/** `rb_tree_insert_r` in memory: the recursive insertion carries out `InsertAt`. */
module RbInsert {
  import opened RbShape
  import opened RbNodes
  import opened RbOrder

  /** Two red children: the node turns red and its children black. */
  method SplitColours<K, V>(node: RbNode<K, V>, dir: bool, ghost t: Tree<Cell<K, V>>)
    requires t.Node? && t.left.Node? && t.right.Node? && Rep(t, node) && Distinct(In(t))
    modifies t.item.node, t.left.item.node, t.right.item.node
    ensures Rep(Build(true, dir, Paint(t.Child(dir), false), t.item, Paint(t.Child(!dir), false)), node)
  {
    hide In, Distinct;
    SeparateRotation(t, false);
    SeparateRotation(t, true);
    ChildrenInside(t.left);
    ChildrenInside(t.right);
    node.red := true;
    node.link.left.red := false;
    node.link.right.red := false;
    CloseRep(true, dir, Paint(t.Child(dir), false), t.item, Paint(t.Child(!dir), false));
  }

  /** The repair on the way back up: `t` has just received a new subtree at `dir`. */
  method RepairInsertion<K, V>(node: RbNode<K, V>, dir: bool, ghost t: Tree<Cell<K, V>>) returns (r: RbNode<K, V>)
    requires t.Node? && Rep(t, node) && Distinct(In(t))
    modifies Nodes(t)
    ensures Rep(InsertRepair(t, dir), r)
  {
    r := node;
    ghost var c := t.Child(dir);
    RedPtrIsRed(c, node.link.At(dir));
    RedPtrIsRed(t.Child(!dir), node.link.At(!dir));
    ChildrenInside(t);
    if RedPtr(node.link.At(dir)) {
      ChildrenInside(c);
      RedPtrIsRed(c.Child(dir), node.link.At(dir).link.At(dir));
      RedPtrIsRed(c.Child(!dir), node.link.At(dir).link.At(!dir));
      if RedPtr(node.link.At(!dir)) {
        SplitColours(node, dir, t);
      } else if RedPtr(node.link.At(dir).link.At(dir)) {
        r := RbNodes.RotateSingle(node, !dir, t);
      } else if RedPtr(node.link.At(dir).link.At(!dir)) {
        r := RbNodes.RotateDouble(node, !dir, t);
      }
    }
  }

  lemma ChildrenInside<K, V>(t: Tree<Cell<K, V>>)
    requires t.Node?
    ensures t.item.node in Nodes(t) && Nodes(t.left) <= Nodes(t) && Nodes(t.right) <= Nodes(t)
    ensures t.left.Node? ==> t.left.item.node in Nodes(t)
    ensures t.right.Node? ==> t.right.item.node in Nodes(t)
  {}

  /** The order of the cells in a subtree is cut where the whole is cut. */
  lemma CutInside<K, V>(cmp: (K, K) -> int, a: seq<Cell<K, V>>, x: Cell<K, V>, b: seq<Cell<K, V>>, key: K, i: nat)
    requires Cut(cmp, a + [x] + b, key, i) && !AtCut(cmp, a + [x] + b, key, i)
    ensures cmp(x.key, key) >= 0 ==> Cut(cmp, a, key, i) && !AtCut(cmp, a, key, i)
    ensures cmp(x.key, key) < 0 ==> i > |a| && Cut(cmp, b, key, i - |a| - 1) && !AtCut(cmp, b, key, i - |a| - 1)
  {
    var s, n := a + [x] + b, |a|;
    assert s[n] == x;
    if cmp(x.key, key) >= 0 {
      assert forall k :: 0 <= k < |a| ==> a[k] == s[k];
    } else {
      assert forall k :: 0 <= k < |b| ==> b[k] == s[n + 1 + k];
    }
  }

  lemma InsertedDistinct<K, V>(t: Tree<Cell<K, V>>, j: nat, c: Cell<K, V>)
    requires Distinct(In(t)) && c.node !in Nodes(t) && j <= |In(t)|
    ensures Distinct(In(InsertAt(t, j, c))) && Nodes(InsertAt(t, j, c)) == Nodes(t) + {c.node}
  {
    hide In;
    var s := In(t);
    InsertAtOrder(t, j, c);
    NodesAreOwners(t);
    NodesAreOwners(InsertAt(t, j, c));
    assert s == s[..j] + s[j..];
    DistinctSplit(s[..j], s[j..]);
    DistinctSplit3(s[..j], c, s[j..]);
    DistinctJoin(s[..j], c, s[j..]);
  }

  /** A subtree that has gained one node of its own still shares nothing with the rest. */
  lemma InsertedInside<K, V>(t: Tree<Cell<K, V>>, dir: bool, j: nat, c: Cell<K, V>)
    requires t.Node? && Distinct(In(t)) && c.node !in Nodes(t) && j <= |In(t.Child(dir))|
    ensures var d := InsertAt(t.Child(dir), j, c);
            var u := Build(t.red, dir, d, t.item, t.Child(!dir));
            && Distinct(In(u)) && Nodes(u) == Nodes(t) + {c.node} && t.item.node !in Nodes(d)
  {
    var d := InsertAt(t.Child(dir), j, c);
    Separate(t, dir);
    InsertedDistinct(t.Child(dir), j, c);
    NodesAreOwners(t.Child(!dir));
    NodesAreOwners(d);
    InBuild(t.red, dir, d, t.item, t.Child(!dir));
    if dir {
      DistinctJoin(In(t.left), t.item, In(d));
    } else {
      DistinctJoin(In(d), t.item, In(t.right));
    }
  }

  /** Hooks the subtree `d`, which has gained a node, into its parent and repairs. */
  method Attach<K, V>(node: RbNode<K, V>, dir: bool, n: RbNode<K, V>, ghost t: Tree<Cell<K, V>>, ghost d: Tree<Cell<K, V>>)
    returns (r: RbNode<K, V>)
    requires t.Node? && node == t.item.node && node.red == t.red && node.key == t.item.key && node.value == t.item.value
    requires Rep(d, n) && Rep(t.Child(!dir), node.link.At(!dir)) && node !in Nodes(d) && node !in Nodes(t.Child(!dir))
    requires Distinct(In(Build(t.red, dir, d, t.item, t.Child(!dir))))
    modifies Nodes(Build(t.red, dir, d, t.item, t.Child(!dir)))
    ensures Rep(InsertRepair(Build(t.red, dir, d, t.item, t.Child(!dir)), dir), r)
  {
    ghost var u := Build(t.red, dir, d, t.item, t.Child(!dir));
    NodesAllocated(u);
    node.link := node.link.With(dir, n);
    CloseRep(t.red, dir, d, t.item, t.Child(!dir));
    r := RepairInsertion(node, dir, u);
  }

  lemma InsertBelow<K, V>(t: Tree<Cell<K, V>>, i: nat, dir: bool, j: nat, c: Cell<K, V>)
    requires t.Node? && i <= |In(t)| && j <= |In(t.Child(dir))|
    requires i == if dir then |In(t.left)| + 1 + j else j
    ensures InsertAt(t, i, c) == InsertRepair(Build(t.red, dir, InsertAt(t.Child(dir), j, c), t.item, t.Child(!dir)), dir)
  {}

  method InsertR<K, V>(cmp: (K, K) -> int, node: RbNode?<K, V>, key: K, value: V,
                       ghost t: Tree<Cell<K, V>>, ghost i: nat) returns (r: RbNode<K, V>, ghost c: Cell<K, V>)
    requires Rep(t, node) && Distinct(In(t)) && Cut(cmp, In(t), key, i) && !AtCut(cmp, In(t), key, i)
    modifies Nodes(t)
    ensures fresh(c.node) && c.key == key && c.value == value
    ensures Rep(InsertAt(t, i, c), r)
    decreases t
  {
    if node == null {
      r := new RbNode(key, value);
      c := Cell(r, key, value);
      return;
    }
    var res := cmp(node.key, key);
    var dir := res < 0;
    ghost var j := if dir then i - |In(t.left)| - 1 else i;
    CutInside(cmp, In(t.left), t.item, In(t.right), key, i);
    Separate(t, dir);
    NodesAllocated(t);
    ghost var a, pa := t.Child(!dir), node.link.At(!dir);
    var n;
    n, c := InsertR(cmp, node.link.At(dir), key, value, t.Child(dir), j);
    InsertedInside(t, dir, j, c);
    assert Rep(a, pa);
    InsertBelow(t, i, dir, j, c);
    r := Attach(node, dir, n, t, InsertAt(t.Child(dir), j, c));
  }
}
