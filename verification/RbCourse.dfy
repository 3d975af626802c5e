/**
 The search that runs along with the top-down removal: where the sought key stands relative to the current node,
 and what the found node has to do with the node at which the descent ends.
 */
module RbCourse {
  import opened RbShape
  import opened RbDescent
  import opened RbNodes
  import opened RbOrder

  /** `Cut` for the cells of the tree with the false root's cell in front of them. */
  ghost predicate HeadedCut<K, V>(cmp: (K, K) -> int, w: seq<Cell<K, V>>, key: K, k: nat) {
    && 1 <= k <= |w|
    && (forall j :: 1 <= j < k ==> cmp(w[j].key, key) < 0)
    && (forall j :: k <= j < |w| ==> cmp(w[j].key, key) >= 0 && (cmp(w[j].key, key) == 0 ==> j == k))
  }

  /** The position of the root of `t` among all cells. */
  ghost function Here<T>(p: Path<T>, t: Tree<T>): nat
    requires t.Node?
  {
    |Before(p)| + |In(t.left)|
  }

  ghost function End<T>(p: Path<T>, t: Tree<T>): nat {
    |Before(p)| + |In(t)|
  }

  /**
   At the current node `t`: the cut `k` lies within or right behind `t`; the search continues on the cut's side; `f` is
   the node with the key once that has been passed, and then it is `t`'s own root or the next cell behind `t`.
   */
  ghost predicate OnCourse<K, V>(cmp: (K, K) -> int, w: seq<Cell<K, V>>, key: K, k: nat,
                                 p: Path<Cell<K, V>>, t: Tree<Cell<K, V>>, dir: bool, f: RbNode?<K, V>)
  {
    && t.Node? && Whole(p, t) == w
    && |Before(p)| <= k <= End(p, t)
    && dir == (Here(p, t) < k)
    && (f != null ==> AtCut(cmp, w, key, k) && f == w[k].node && (k == Here(p, t) || k == End(p, t)))
    && (f == null && AtCut(cmp, w, key, k) ==> if dir then k < End(p, t) else k < Here(p, t))
  }

  lemma HereIsRoot<T>(p: Path<T>, t: Tree<T>)
    requires t.Node?
    ensures Whole(p, t)[Here(p, t)] == t.item
  {}

  /** One step down and one comparison keep the course. */
  lemma StepOnCourse<K, V>(cmp: (K, K) -> int, w: seq<Cell<K, V>>, key: K, k: nat,
                           p: Path<Cell<K, V>>, t: Tree<Cell<K, V>>, dir: bool, f: RbNode?<K, V>)
    requires HeadedCut(cmp, w, key, k) && OnCourse(cmp, w, key, k, p, t, dir, f) && t.Child(dir).Node?
    requires |Before(Step(p, t, dir))| >= 1
    ensures var c := t.Child(dir);
            var res := cmp(c.item.key, key);
            OnCourse(cmp, w, key, k, Step(p, t, dir), c, res < 0, if res == 0 then c.item.node else f)
  {
    StepOrder(p, t, dir);
    HereIsRoot(Step(p, t, dir), t.Child(dir));
  }

  /** The colour repair keeps the course. */
  lemma RepairOnCourse<K, V>(cmp: (K, K) -> int, w: seq<Cell<K, V>>, key: K, k: nat,
                             p: Path<Cell<K, V>>, t: Tree<Cell<K, V>>, dir: bool, f: RbNode?<K, V>)
    requires p.Down? && OnCourse(cmp, w, key, k, p, t, dir, f)
    ensures OnCourse(cmp, w, key, k, RepairPath(p, t, dir), RepairTree(p, t, dir), dir, f)
  {
    RepairKeepsOrder(p, t, dir);
    assert |Whole(p, t)| == End(p, t) + |After(p)|;
    assert |Whole(RepairPath(p, t, dir), RepairTree(p, t, dir))|
        == End(RepairPath(p, t, dir), RepairTree(p, t, dir)) + |After(RepairPath(p, t, dir))|;
  }

  /** The cells that are left once the last node is taken out and, if need be, its content moved to the found node. */
  ghost function Rest<K, V>(p: Path<Cell<K, V>>, t: Tree<Cell<K, V>>, k: nat): (r: Path<Cell<K, V>>)
    requires t.Node? && |Before(p)| <= k < |Whole(p, t)| && (k == Here(p, t) || k == End(p, t))
  {
    if k == Here(p, t) then p
    else SetNext(p, Cell(Whole(p, t)[k].node, t.item.key, t.item.value))
  }

  ghost predicate SameContents<K, V>(s: seq<Cell<K, V>>, r: seq<Cell<K, V>>) {
    |s| == |r| && forall i :: 0 <= i < |s| ==> s[i].key == r[i].key && s[i].value == r[i].value
  }

  /** At the end of the descent the found node, or its predecessor, is taken out: exactly the key is gone. */
  lemma RestLacksTheKey<K, V>(p: Path<Cell<K, V>>, t: Tree<Cell<K, V>>, k: nat)
    requires t.Node? && t.left.Leaf? && t.right.Leaf? && |Before(p)| <= k < |Whole(p, t)|
    requires k == Here(p, t) || k == End(p, t)
    ensures var r, w := Whole(Rest(p, t, k), Leaf), Whole(p, t);
            && SameContents(r, Drop(w, k))
            && forall j :: 0 <= j < |r| ==> r[j].node == w[if j < |Before(p)| then j else j + 1].node
  {
    var w, r := Whole(p, t), Whole(Rest(p, t, k), Leaf);
    if k == Here(p, t) {
      assert r == Drop(w, k);
    } else {
      var x := Cell(w[k].node, t.item.key, t.item.value);
      SetNextOrder(p, x);
      assert r == Before(p) + [x] + After(p)[1..];
    }
  }

  /** Cells whose nodes are those of `w` with one left out share no node either. */
  lemma RestIsDistinct<K, V>(w: seq<Cell<K, V>>, r: seq<Cell<K, V>>, b: nat)
    requires |r| == |w| - 1 && forall j :: 0 <= j < |r| ==> r[j].node == w[if j < b then j else j + 1].node
    ensures Distinct(w) ==> Distinct(r)
    ensures Owners(r) <= Owners(w)
  {
    forall o | o in Owners(r) ensures o in Owners(w) {
      var c :| c in r && c.node == o;
      var j :| 0 <= j < |r| && r[j] == c;
      assert w[if j < b then j else j + 1] in w;
    }
  }
}
