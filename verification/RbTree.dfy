/** `struct rb_tree` of `src/util/rbtree.c`: an ordered map held in a red-black tree of mutable nodes. */
module RbTree {
  import opened Options
  import opened Powers
  import opened RbShape
  import opened RbDescent
  import opened RbNodes
  import opened RbOrder
  import opened RbCourse
  import opened RbWalk
  import RbInsert
  import RbRemove

  /** The key, if it is there, is still among the cells of `t`, which stand at the end of `p`. */
  ghost predicate Around<K, V>(cmp: (K, K) -> int, w: seq<Cell<K, V>>, key: K, i: nat, p: Path<Cell<K, V>>, t: Tree<Cell<K, V>>) {
    && Whole(p, t) == w && |Before(p)| <= i <= |Before(p)| + |In(t)|
    && (AtCut(cmp, w, key, i) ==> i < |Before(p)| + |In(t)|)
  }

  /** A comparison either finds the key or leads to the child that can hold it. */
  lemma SearchStep<K, V>(cmp: (K, K) -> int, w: seq<Cell<K, V>>, key: K, i: nat, p: Path<Cell<K, V>>, t: Tree<Cell<K, V>>)
    requires Cut(cmp, w, key, i) && t.Node? && Around(cmp, w, key, i, p, t)
    ensures var res := cmp(t.item.key, key);
            if res == 0 then AtCut(cmp, w, key, i) && w[i] == t.item && t.item.key == key
            else Around(cmp, w, key, i, Step(p, t, res < 0), t.Child(res < 0))
  {
    assert Whole(p, t)[|Before(p)| + |In(t.left)|] == t.item;
    StepOrder(p, t, cmp(t.item.key, key) < 0);
  }

  /** The walk of `tree_search` */
  method SearchFrom<K, V>(cmp: (K, K) -> int, start: RbNode?<K, V>, key: K, ghost t0: Tree<Cell<K, V>>, ghost i: nat)
    returns (node: RbNode?<K, V>, ghost steps: nat)
    requires Rep(t0, start) && Cut(cmp, In(t0), key, i)
    ensures node == null <==> !AtCut(cmp, In(t0), key, i)
    ensures node != null ==> node in Nodes(t0) && node.value == In(t0)[i].value && node.key == key
    ensures steps <= Height(t0)
  {
    hide In, Cut, Around, AtCut;
    node, steps := start, 0;
    ghost var t, p := t0, Top;
    StartAround(cmp, key, i, t0);
    while node != null
      invariant Rep(t, node) && Nodes(t) <= Nodes(t0) && Around(cmp, In(t0), key, i, p, t)
      invariant steps + Height(t) <= Height(t0)
      decreases t
    {
      var res := cmp(node.key, key);
      steps := steps + 1;
      SearchStep(cmp, In(t0), key, i, p, t);
      if res == 0 {
        return;
      }
      var dir := res < 0;
      node := node.link.At(dir);
      p, t := Step(p, t, dir), t.Child(dir);
    }
    NowhereElse(cmp, In(t0), key, i, p);
  }

  lemma StartAround<K, V>(cmp: (K, K) -> int, key: K, i: nat, t: Tree<Cell<K, V>>)
    requires Cut(cmp, In(t), key, i)
    ensures Around(cmp, In(t), key, i, Top, t)
  {}

  lemma NowhereElse<K, V>(cmp: (K, K) -> int, w: seq<Cell<K, V>>, key: K, i: nat, p: Path<Cell<K, V>>)
    requires Around(cmp, w, key, i, p, Leaf)
    ensures !AtCut(cmp, w, key, i)
  {}

  /** The walk along the edge of a subtree in direction `dir`, pushing every node that is passed. */
  method Slide<K, V>(dir: bool, n0: RbNode<K, V>, stack0: seq<RbNode<K, V>>, ghost path0: Path<Cell<K, V>>, ghost t0: Tree<Cell<K, V>>)
    returns (n: RbNode<K, V>, stack: seq<RbNode<K, V>>, ghost path: Path<Cell<K, V>>, ghost t: Tree<Cell<K, V>>)
    requires Situated(path0, t0, n0) && t0.Node? && stack0 == Spine(path0)
    ensures t.Node? && Situated(path, t, n) && stack == Spine(path) && Plug(path, t) == Plug(path0, t0)
    ensures Here(path, t) == Edge(path0, t0, dir)
  {
    n, stack, path, t := n0, stack0, path0, t0;
    while n.link.At(dir) != null
      invariant t.Node? && Situated(path, t, n) && Plug(path, t) == Plug(path0, t0)
      invariant stack == Spine(path) && Edge(path, t, dir) == Edge(path0, t0, dir)
      decreases t
    {
      RbRemove.LinkTellsChild(t, n, dir);
      stack := stack + [n];
      RbRemove.StepSituated(path, t, n, dir);
      StepKeepsEdge(path, t, dir);
      path, t := Step(path, t, dir), t.Child(dir);
      n := n.link.At(dir);
    }
    RbRemove.LinkTellsChild(t, n, dir);
    AtOwnEdge(path, t, dir);
  }

  /** The upward walk of `rb_tree_traverse`: to the first ancestor that is left on the side opposite to `dir`. */
  method Climb<K, V>(dir: bool, n0: RbNode<K, V>, stack0: seq<RbNode<K, V>>, ghost path0: Path<Cell<K, V>>, ghost t0: Tree<Cell<K, V>>)
    returns (p: RbNode?<K, V>, stack: seq<RbNode<K, V>>, ghost path: Path<Cell<K, V>>, ghost t: Tree<Cell<K, V>>)
    requires Situated(path0, t0, n0) && t0.Node? && stack0 == Spine(path0)
    ensures stack == Spine(path) && Plug(path, t) == Plug(path0, t0) && |Whole(path, t)| == |Whole(path0, t0)|
    ensures p == null ==> path.Top? && Edge(path, t, dir) == Edge(path0, t0, dir)
    ensures p != null ==> t.Node? && Situated(path, t, p) && Here(path, t) == Beside(Edge(path0, t0, dir), dir)
  {
    var n := n0;
    stack, path, t, p := stack0, path0, t0, null;
    while stack != []
      invariant t.Node? && Situated(path, t, n) && Plug(path, t) == Plug(path0, t0) && |Whole(path, t)| == |Whole(path0, t0)|
      invariant stack == Spine(path) && Edge(path, t, dir) == Edge(path0, t0, dir)
      decreases path
    {
      p := stack[|stack| - 1];
      stack := stack[..|stack| - 1];
      LinkSide(path, t, n, dir);
      StepUpSituated(path, t, n);
      WholeBuild(path, t);
      UpKeepsEdge(path, t);
      UpIsBeside(path, t);
      path, t := path.up, Build(path.red, path.dir, t, path.item, path.sib);
      if p.link.At(dir) != n {
        return;
      }
      n := p;
    }
    p := null;
  }

  class RbTree<K(!new), V> {
    const cmp: (K, K) -> int
    var root: RbNode?<K, V>
    var elements: nat
    var itNode: RbNode?<K, V>
    var itStack: seq<RbNode<K, V>>
    ghost var shape: Tree<Cell<K, V>>
    ghost var itPath: Path<Cell<K, V>>
    ghost var itTree: Tree<Cell<K, V>>

    ghost predicate Valid()
      reads this`root, this`elements, this`shape, Nodes(shape)
    {
      Linked() && Ordered()
    }

    /** The nodes in memory spell out the shape. */
    ghost predicate Linked()
      reads this`root, this`shape, Nodes(shape)
    {
      Rep(shape, root) && Distinct(In(shape))
    }

    /** The shape is a red-black tree in key order. */
    ghost predicate Ordered()
      reads this`elements, this`shape
    {
      TotalOrder(cmp) && RedBlack(shape) && Sorted(cmp, In(shape)) && elements == |In(shape)|
    }

    /** The map the tree stands for. */
    ghost function Model(): map<K, V>
      reads this`shape
    {
      Assoc(In(shape))
    }

    constructor (cmp: (K, K) -> int)
      requires TotalOrder(cmp)
      ensures Valid() && Model() == map[] && Nodes(shape) == {} && this.cmp == cmp
    {
      this.cmp := cmp;
      root, elements, shape := null, 0, Leaf;
      itNode, itStack, itPath, itTree := null, [], Top, Leaf;
    }

    /** `tree_search`: the node with the key, if there is one, after at most `2 * log2(elements + 1)` comparisons. */
    method Search(key: K) returns (node: RbNode?<K, V>, ghost steps: nat)
      requires Valid()
      ensures node == null <==> key !in Model()
      ensures node != null ==> node in Nodes(shape) && node.key == key && Model()[key] == node.value
      ensures Pow2(steps) <= (elements + 1) * (elements + 1)
    {
      ghost var i := FindCut(cmp, In(shape), key);
      node, steps := SearchFrom(cmp, root, key, shape, i);
      HeightIsLogarithmic(shape, BlackHeight(shape));
      Pow2Monotone(steps, Height(shape));
    }

    /** `rb_tree_get` */
    method Get(key: K) returns (r: Option<V>)
      requires Valid()
      ensures r == if key in Model() then Some(Model()[key]) else None
    {
      var node, _ := Search(key);
      r := if node == null then None else Some(node.value);
    }

    /** `rb_tree_insert`: a new key is added, a key that is already there leaves the tree alone. */
    method Insert(key: K, value: V) returns (inserted: bool)
      requires Valid()
      modifies this, Nodes(shape)
      ensures Valid() && fresh(Nodes(shape) - old(Nodes(shape)))
      ensures inserted == (key !in old(Model()))
      ensures Model() == if inserted then old(Model())[key := value] else old(Model())
      ensures elements == old(elements) + if inserted then 1 else 0
    {
      hide Rep, Distinct, RedBlack, Sorted, Cut, AtCut, TotalOrder, Assoc, In;
      NodesAllocated(shape);
      var node, _ := Search(key);
      if node != null {
        return false;
      }
      ghost var i := FindCut(cmp, In(shape), key);
      ghost var c, r;
      var top;
      top, c, r := InsertInto(cmp, root, key, value, shape, i);
      SortedInsert(cmp, In(shape), i, c);
      AssocInsert(In(shape), i, c);
      Foreign(Top, r);
      root, shape, elements := top, r, elements + 1;
      inserted := true;
    }

    /** `rb_tree_remove_node`: exactly the key is taken out, and the result says whether it was there. */
    method Remove(key: K) returns (removed: bool)
      requires Valid()
      modifies this, Nodes(shape)
      ensures Valid() && Nodes(shape) <= old(Nodes(shape))
      ensures removed == (key in old(Model()))
      ensures Model() == old(Model()) - {key}
      ensures elements == old(elements) - if removed then 1 else 0
    {
      hide Rep, Distinct, RedBlack, Sorted, Cut, AtCut, SameContents, TotalOrder, Assoc, In, Drop;
      RootTellsShape();
      if root == null {
        return false;
      }
      ghost var i := FindCut(cmp, In(shape), key);
      ghost var r;
      var top;
      removed, top, r := RbRemove.RemoveFrom(cmp, root, key, shape, i);
      RemovedContents(cmp, In(shape), In(r), key, i);
      Foreign(Top, r);
      if removed {
        elements := elements - 1;
      }
      root, shape := top, r;
    }

    // ----- The iterator

    /** The iterator stands at the `i`-th key, and its stack holds the way from the root to the parent of that node. */
    ghost predicate At(i: int)
      reads this, PathNodes(itPath), Nodes(itTree), Nodes(shape)
    {
      && Linked() && itTree.Node? && Situated(itPath, itTree, itNode) && Plug(itPath, itTree) == shape
      && itStack == Spine(itPath) && i == Here(itPath, itTree)
    }

    /** The iterator has run off the tree. */
    ghost predicate Off()
      reads this
    {
      itNode == null && itStack == []
    }

    /** `rb_tree_first`, for a tree that is not empty. */
    method First()
      requires Linked() && root != null
      modifies this`itNode, this`itStack, this`itPath, this`itTree
      ensures At(0)
    {
      ghost var path, t;
      var n, stack;
      NodesAllocated(shape);
      n, stack, path, t := Slide(false, root, [], Top, shape);
      Foreign(Top, shape);
      Foreign(path, t);
      itNode, itStack, itPath, itTree := n, stack, path, t;
    }

    lemma RootTellsShape()
      requires Linked()
      ensures root == null <==> shape.Leaf?
      ensures shape.Leaf? ==> Model() == map[]
    {}

    /** No node is the tree object itself. */
    lemma Foreign(p: Path<Cell<K, V>>, t: Tree<Cell<K, V>>)
      ensures forall o <- Nodes(t) :: o as object != this
      ensures forall o <- PathNodes(p) :: o as object != this
    {}

    /** The child at `dir` stands at the end of the longer stack, and its other edge is the neighbouring position. */
    lemma ToChild(dir: bool, i: int)
      requires At(i) && itTree.Child(dir).Node?
      ensures itNode != null && itNode.link.At(dir) != null
      ensures var path, t := Step(itPath, itTree, dir), itTree.Child(dir);
              && Situated(path, t, itNode.link.At(dir)) && itStack + [itNode] == Spine(path)
              && Plug(path, t) == shape && Edge(path, t, !dir) == Beside(i, dir)
    {
      RbRemove.StepSituated(itPath, itTree, itNode, dir);
      StepKeepsEdge(itPath, itTree, dir);
      ChildIsBeside(itPath, itTree, dir);
    }

    /** Down to the child at `dir` and then along its other edge. */
    method Inwards(dir: bool, ghost i: int)
      requires At(i) && itTree.Child(dir).Node?
      modifies this`itNode, this`itStack, this`itPath, this`itTree
      ensures At(Beside(i, dir))
    {
      hide Situated, Edge, Here, Plug, Spine, Rep, In, Distinct;
      ghost var path, t := Step(itPath, itTree, dir), itTree.Child(dir);
      ToChild(dir, i);
      var n, stack := itNode.link.At(dir), itStack + [itNode];
      NodesAllocated(shape);
      n, stack, path, t := Slide(!dir, n, stack, path, t);
      Foreign(path, t);
      Foreign(Top, shape);
      itNode, itStack, itPath, itTree := n, stack, path, t;
    }

    /** Up until the walk comes from the side opposite to `dir`. */
    method Outwards(dir: bool, ghost i: int)
      requires At(i) && itTree.Child(dir).Leaf?
      modifies this`itNode, this`itStack, this`itPath, this`itTree
      ensures Linked()
      ensures if 0 <= Beside(i, dir) < |In(shape)| then At(Beside(i, dir)) else Off()
    {
      hide Before, After, Distinct;
      Foreign(Top, shape);
      NodesAllocated(shape);
      ghost var path, t;
      var n, stack;
      AtOwnEdge(itPath, itTree, dir);
      PlugOrder(itPath, itTree);
      n, stack, path, t := Climb(dir, itNode, itStack, itPath, itTree);
      Foreign(path, t);
      itNode, itStack, itPath, itTree := n, stack, path, t;
    }

    /** `rb_tree_traverse`: `dir` leads to the next key, `!dir` to the one before. */
    method Traverse(dir: bool, ghost i: int)
      requires At(i)
      modifies this`itNode, this`itStack, this`itPath, this`itTree
      ensures Linked()
      ensures if 0 <= Beside(i, dir) < |In(shape)| then At(Beside(i, dir)) else Off()
    {
      RbRemove.LinkTellsChild(itTree, itNode, dir);
      if itNode.link.At(dir) != null {
        Inwards(dir, i);
        PlugOrder(itPath, itTree);
        HereIsRoot(itPath, itTree);
      } else {
        Outwards(dir, i);
      }
    }

    /** A step there and back leads to the same node with the same stack. */
    method ThereAndBack(dir: bool, ghost i: int)
      requires At(i) && 0 <= Beside(i, dir) < |In(shape)|
      modifies this`itNode, this`itStack, this`itPath, this`itTree
      ensures At(i) && itNode == old(itNode) && itStack == old(itStack)
    {
      PlugOrder(itPath, itTree);
      HereIsRoot(itPath, itTree);
      Traverse(dir, i);
      Traverse(!dir, Beside(i, dir));
      PositionIsUnique(itPath, itTree, old(itPath), old(itTree));
    }

    /** The walk of the header's example: from the first key, next after next, until the iterator is off the tree. */
    method Keys() returns (keys: seq<K>)
      requires Valid() && root != null
      modifies this`itNode, this`itStack, this`itPath, this`itTree
      ensures Valid() && Off() && |keys| == elements
      ensures forall i, j :: 0 <= i < j < |keys| ==> cmp(keys[i], keys[j]) < 0
      ensures forall k :: k in keys <==> k in Model()
    {
      hide Before, After, Plug, Spine, RedBlack;
      First();
      keys := [];
      while itNode != null
        invariant Linked() && if itNode != null then At(|keys|) else Off() && |keys| == |In(shape)|
        invariant |keys| <= |In(shape)| && forall j :: 0 <= j < |keys| ==> keys[j] == In(shape)[j].key
        decreases |In(shape)| - |keys| + if itNode != null then 1 else 0
      {
        PlugOrder(itPath, itTree);
        HereIsRoot(itPath, itTree);
        keys := keys + [itNode.key];
        Traverse(true, |keys| - 1);
      }
      forall k ensures k in keys <==> k in Model() {
        AssocAt(In(shape), k);
      }
    }
  }

  lemma RemovedContents<K(!new), V>(cmp: (K, K) -> int, s: seq<Cell<K, V>>, r: seq<Cell<K, V>>, key: K, i: nat)
    requires TotalOrder(cmp) && Sorted(cmp, s) && Cut(cmp, s, key, i) && (AtCut(cmp, s, key, i) <==> key in Assoc(s))
    requires if AtCut(cmp, s, key, i) then SameContents(r, Drop(s, i)) else r == s
    ensures Sorted(cmp, r) && Assoc(r) == Assoc(s) - {key} && |r| == |s| - if key in Assoc(s) then 1 else 0
  {
    if AtCut(cmp, s, key, i) {
      SortedKeysAreDistinct(cmp, s);
      SortedDrop(cmp, s, i);
      AssocDrop(s, i);
      AssocIgnoresNodes(r, Drop(s, i));
    }
  }

  /** The recursive insertion and the blackening of the root. */
  method InsertInto<K, V>(cmp: (K, K) -> int, root: RbNode?<K, V>, key: K, value: V, ghost t: Tree<Cell<K, V>>, ghost i: nat)
    returns (top: RbNode<K, V>, ghost c: Cell<K, V>, ghost r: Tree<Cell<K, V>>)
    requires Rep(t, root) && Distinct(In(t)) && RedBlack(t) && Cut(cmp, In(t), key, i) && !AtCut(cmp, In(t), key, i)
    modifies Nodes(t)
    ensures fresh(c.node) && c.key == key && c.value == value
    ensures Rep(r, top) && Distinct(In(r)) && RedBlack(r) && In(r) == RbOrder.Insert(In(t), i, c)
    ensures Nodes(r) == Nodes(t) + {c.node}
  {
    NodesAllocated(t);
    top, c := RbInsert.InsertR(cmp, root, key, value, t, i);
    r := InsertAt(t, i, c);
    InsertAtOrder(t, i, c);
    InsertAtBalance(t, i, c, BlackHeight(t));
    RbInsert.InsertedDistinct(t, i, c);
    ghost var u := RbRemove.Blacken(top, r, BlackHeight(t));
    SameOrderSameNodes(u, r);
    r := u;
  }
}
