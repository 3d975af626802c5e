/** `rb_tree_remove_node` in memory. */
module RbRemove {
  import opened RbShape
  import opened RbDescent
  import opened RbNodes
  import opened RbOrder
  import opened RbRepair
  import opened RbCourse

  lemma StepSituated<K, V>(p: Path<Cell<K, V>>, t: Tree<Cell<K, V>>, q: RbNode<K, V>, dir: bool)
    requires t.Node? && Situated(p, t, q)
    ensures Situated(Step(p, t, dir), t.Child(dir), q.link.At(dir))
  {
    StepOrder(p, t, dir);
  }

  /** The colour repair of one step. */
  method PushRedDown<K, V>(g: RbNode?<K, V>, p0: RbNode<K, V>, q: RbNode<K, V>, last: bool, dir: bool,
                           ghost path: Path<Cell<K, V>>, ghost t: Tree<Cell<K, V>>) returns (p: RbNode<K, V>)
    requires path.Down? && t.Node? && Situated(path, t, q) && p0 == path.item.node && last == path.dir
    requires path.up.Down? ==> g == path.up.item.node
    requires path.up.Top? ==> path.sib.Leaf?
    modifies PathNodes(path), Nodes(t)
    ensures Situated(RepairPath(path, t, dir), RepairTree(path, t, dir), q)
    ensures p == RepairPath(path, t, dir).item.node
  {
    hide Whole, Before, After, In, Distinct;
    p := p0;
    NodesWithin(path, t, dir);
    RedPtrIsRed(t.Child(dir), q.link.At(dir));
    RedPtrIsRed(t.Child(!dir), q.link.At(!dir));
    if !RedPtr(q) && !RedPtr(q.link.At(dir)) {
      if RedPtr(q.link.At(!dir)) {
        p := RotateCurrent(p, q, last, dir, path, t);
      } else {
        var s := p.link.At(!last);
        if s != null {
          RedPtrIsRed(path.sib.Child(last), s.link.At(last));
          RedPtrIsRed(path.sib.Child(!last), s.link.At(!last));
          if !RedPtr(s.link.At(!last)) && !RedPtr(s.link.At(last)) {
            FlipColours(p, q, s, dir, path, t);
          } else if RedPtr(s.link.At(last)) {
            LiftNephew(g, p, q, last, dir, path, t);
          } else {
            LiftSibling(g, p, q, last, dir, path, t);
          }
        }
      }
    }
  }

  lemma NodesWithin<K, V>(path: Path<Cell<K, V>>, t: Tree<Cell<K, V>>, dir: bool)
    requires path.Down? && t.Node?
    ensures t.item.node in Nodes(t) && path.item.node in PathNodes(path)
    ensures t.Child(!dir).Node? ==> t.Child(!dir).item.node in Nodes(t)
    ensures path.up.Down? ==> path.up.item.node in PathNodes(path)
    ensures path.sib.Node? ==>
      && path.sib.item.node in PathNodes(path)
      && (path.sib.left.Node? ==> path.sib.left.item.node in PathNodes(path))
      && (path.sib.right.Node? ==> path.sib.right.item.node in PathNodes(path))
  {
    if path.sib.Node? { assert path.sib.left.Node? ==> path.sib.left.item.node in Nodes(path.sib); }
    if path.sib.Node? { assert path.sib.right.Node? ==> path.sib.right.item.node in Nodes(path.sib); }
  }

  lemma NodesOfWhole<K, V>(p: Path<Cell<K, V>>, t: Tree<Cell<K, V>>)
    ensures PathNodes(p) + Nodes(t) == Owners(Whole(p, t))
  {
    PathNodesAreOwners(p);
    NodesAreOwners(t);
    DistinctSplit(Before(p), In(t));
    DistinctSplit(Before(p) + In(t), After(p));
  }

  /** The balance that the descent keeps; at the false root it is the balance of the whole tree. */
  ghost predicate InBalance<T>(p: Path<T>, t: Tree<T>, dir: bool, h: nat) {
    && t.Node?
    && if p.Top? then !t.red && t.left.Leaf? && Rb(t.right, h) && !IsRed(t.right) && dir
       else PathRb(p, h) && Rb(t, h) && !(p.red && IsRed(t)) && RedInHand(p, t, dir)
  }

  /** One step of the descent keeps the balance. */
  lemma StepInBalance<T>(p: Path<T>, t: Tree<T>, dir: bool, h: nat, next: bool) returns (k: nat)
    requires InBalance(p, t, dir, h) && t.Child(dir).Node?
    ensures var p', c := Step(p, t, dir), t.Child(dir);
            InBalance(RepairPath(p', c, next), RepairTree(p', c, next), next, k)
  {
    var p', c := Step(p, t, dir), t.Child(dir);
    if p.Top? {
      k := RepairBalance(p', c, next, h);
    } else {
      k := StepBalance(p, t, dir, h);
      k := RepairBalance(p', c, next, k);
    }
  }

  /** One turn of the loop, from a node `q` that has a child on the way of the search. */
  method Turn<K, V>(cmp: (K, K) -> int, key: K, g: RbNode<K, V>, q0: RbNode<K, V>, last: bool, f0: RbNode?<K, V>,
                    ghost w: seq<Cell<K, V>>, ghost k: nat, ghost path0: Path<Cell<K, V>>, ghost t0: Tree<Cell<K, V>>, ghost h0: nat)
    returns (p: RbNode<K, V>, q: RbNode<K, V>, dir: bool, f: RbNode?<K, V>, ghost h: nat)
    requires t0.Node? && t0.Child(last).Node? && Situated(path0, t0, q0) && InBalance(path0, t0, last, h0)
    requires HeadedCut(cmp, w, key, k) && OnCourse(cmp, w, key, k, path0, t0, last, f0)
    requires path0.Down? ==> g == path0.item.node
    modifies PathNodes(path0), Nodes(t0)
    ensures var path, t := StepPath(path0, t0, last, dir), StepTree(path0, t0, last, dir);
            && p == path.item.node && Situated(path, t, q) && InBalance(path, t, dir, h)
            && OnCourse(cmp, w, key, k, path, t, dir, f)
  {
    hide OnCourse, HeadedCut, RepairPath, RepairTree;
    ghost var path', t' := Step(path0, t0, last), t0.Child(last);
    StepSituated(path0, t0, q0, last);
    assert |Before(path')| >= 1 by { HeadBefore(path0, t0, last, h0); }
    StepOnCourse(cmp, w, key, k, path0, t0, last, f0);
    q := q0.link.At(last);
    var res := cmp(q.key, key);
    dir := res < 0;
    f := if res == 0 then q else f0;
    h := StepInBalance(path0, t0, last, h0, dir);
    RepairOnCourse(cmp, w, key, k, path', t', dir, f);
    StepNodes(path0, t0, last);
    p := PushRedDown(g, q0, q, last, dir, path', t');
  }

  lemma StepNodes<K, V>(p: Path<Cell<K, V>>, t: Tree<Cell<K, V>>, dir: bool)
    requires t.Node?
    ensures PathNodes(Step(p, t, dir)) <= PathNodes(p) + Nodes(t) && Nodes(t.Child(dir)) <= Nodes(t)
  {}

  /** Below the false root its cell stands in front of everything. */
  lemma {:induction false} HeadFirst<T>(p: Path<T>, h: nat)
    requires PathRb(p, h)
    ensures |Before(p)| >= 1
  {
    if !p.up.Top? { HeadFirst(p.up, if p.red then h else h + 1); }
  }

  lemma HeadBefore<T>(p: Path<T>, t: Tree<T>, dir: bool, h: nat)
    requires InBalance(p, t, dir, h)
    ensures |Before(Step(p, t, dir))| >= 1
  {
    if p.Down? { HeadFirst(p, h); }
  }

  ghost function StepPath<T>(p: Path<T>, t: Tree<T>, last: bool, dir: bool): (r: Path<T>)
    requires t.Node? && t.Child(last).Node?
    ensures r.Down?
  {
    RepairPath(Step(p, t, last), t.Child(last), dir)
  }

  ghost function StepTree<T>(p: Path<T>, t: Tree<T>, last: bool, dir: bool): (r: Tree<T>)
    requires t.Node? && t.Child(last).Node?
    ensures r.Node? && r.Child(dir) == t.Child(last).Child(dir)
  {
    RepairTree(Step(p, t, last), t.Child(last), dir)
  }

  /** The loop: from the false root down to the node that is to be taken out. */
  method Descend<K, V>(cmp: (K, K) -> int, key: K, head: RbNode<K, V>, ghost t0: Tree<Cell<K, V>>, ghost k: nat)
    returns (p: RbNode<K, V>, q: RbNode<K, V>, f: RbNode?<K, V>, ghost path: Path<Cell<K, V>>, ghost t: Tree<Cell<K, V>>,
             ghost dir: bool, ghost h: nat)
    requires t0.Node? && t0.right.Node? && Situated(Top, t0, head) && InBalance(Top, t0, true, BlackHeight(t0.right))
    requires HeadedCut(cmp, In(t0), key, k)
    modifies Nodes(t0)
    ensures path.Down? && p == path.item.node && Situated(path, t, q)
    ensures InBalance(path, t, dir, h) && t.Child(dir).Leaf?
    ensures OnCourse(cmp, In(t0), key, k, path, t, dir, f)
  {
    hide InBalance, OnCourse, HeadedCut, PathRep, Nodes, PathNodes, Owners, Whole, Before, After, In, BlackHeight;
    q, p, f := head, head, null;
    var d := true;
    path, t, h := Top, t0, BlackHeight(t0.right);
    StartOnCourse(cmp, t0, key, k);
    OrderOnCourse(cmp, In(t0), key, k, path, t, d, f);
    while q.link.At(d) != null
      invariant Situated(path, t, q) && Owners(Whole(path, t)) == Nodes(t0)
      invariant InBalance(path, t, d, h)
      invariant OnCourse(cmp, In(t0), key, k, path, t, d, f)
      invariant path.Down? ==> p == path.item.node
      invariant path.Top? ==> t == t0 && d
      decreases t.Child(d)
    {
      ghost var last := d;
      LinkTellsChild(t, q, d);
      NodesOfWhole(path, t);
      p, q, d, f, h := Turn(cmp, key, p, q, d, f, In(t0), k, path, t, h);
      path, t := StepPath(path, t, last, d), StepTree(path, t, last, d);
      OrderOnCourse(cmp, In(t0), key, k, path, t, d, f);
    }
    LinkTellsChild(t, q, d);
    dir := d;
  }

  lemma LinkTellsChild<K, V>(t: Tree<Cell<K, V>>, q: RbNode<K, V>, d: bool)
    requires t.Node? && Rep(t, q)
    ensures q.link.At(d) == null <==> t.Child(d).Leaf?
  {}

  lemma OrderOnCourse<K, V>(cmp: (K, K) -> int, w: seq<Cell<K, V>>, key: K, k: nat,
                            p: Path<Cell<K, V>>, t: Tree<Cell<K, V>>, dir: bool, f: RbNode?<K, V>)
    requires OnCourse(cmp, w, key, k, p, t, dir, f)
    ensures Whole(p, t) == w
  {}

  lemma StartOnCourse<K, V>(cmp: (K, K) -> int, t: Tree<Cell<K, V>>, key: K, k: nat)
    requires t.Node? && InBalance(Top, t, true, BlackHeight(t.right)) && HeadedCut(cmp, In(t), key, k)
    ensures OnCourse(cmp, In(t), key, k, Top, t, true, null) && Owners(Whole(Top, t)) == Nodes(t)
  {
    NodesOfWhole(Top, t);
    assert PathNodes<K, V>(Top) == {};
  }

  /** Replaces the link of the innermost node that leads to `q`. */
  method Relink<K, V>(p: RbNode<K, V>, q: RbNode<K, V>, n: RbNode?<K, V>, ghost path: Path<Cell<K, V>>)
    requires path.Down? && p == path.item.node && PathRep(path, q)
    requires q !in Nodes(path.sib) && p !in Nodes(path.sib) && p !in PathNodes(path.up)
    modifies p
    ensures PathRep(path, n)
  {
    HoleSide(path, q);
    p.link := p.link.With(p.link.right == q, n);
  }

  /** `PathRep` up to the content of the node `f`, which stands next to the hole. */
  ghost predicate PathRepBut<K, V>(p: Path<Cell<K, V>>, hole: RbNode?<K, V>, f: RbNode<K, V>)
    requires After(p) != []
    reads PathNodes(p) - {f}, PathNodes(p)`red, PathNodes(p)`link
    decreases p
  {
    var n := p.item.node;
    && n.red == p.red && n.link.At(p.dir) == hole
    && f !in Nodes(p.sib) && Rep(p.sib, n.link.At(!p.dir))
    && if p.dir then n != f && n.key == p.item.key && n.value == p.item.value && PathRepBut(p.up, n, f)
       else n == f && f !in PathNodes(p.up) && PathRep(p.up, n)
  }

  lemma {:induction false} LeaveOut<K, V>(p: Path<Cell<K, V>>, hole: RbNode?<K, V>)
    requires After(p) != [] && PathRep(p, hole) && Distinct(Whole(p, Leaf))
    ensures PathRepBut(p, hole, After(p)[0].node)
    decreases p
  {
    SeparatePath(p, Leaf);
    if p.dir {
      FirstAfter(p.up);
      WholeBuild(p, Leaf);
      var u := Build(p.red, true, Leaf, p.item, p.sib);
      DistinctSplit(Before(p.up), In(u));
      assert Distinct(Whole(p.up, Leaf)) by { DistinctWithout(Before(p.up), In(u), After(p.up)); }
      LeaveOut(p.up, p.item.node);
    }
  }

  lemma DistinctWithout<K, V>(a: seq<Cell<K, V>>, b: seq<Cell<K, V>>, c: seq<Cell<K, V>>)
    requires Distinct(a + b + c)
    ensures Distinct(a + [] + c)
  {
    var s, r := a + b + c, a + [] + c;
    assert forall i :: 0 <= i < |r| ==> r[i] == s[if i < |a| then i else i + |b|];
  }

  lemma {:induction false} PutBack<K, V>(p: Path<Cell<K, V>>, hole: RbNode?<K, V>, x: Cell<K, V>)
    requires After(p) != [] && PathRepBut(p, hole, x.node) && x.node.key == x.key && x.node.value == x.value
    ensures PathRep(SetNext(p, x), hole)
    decreases p
  {
    if p.dir { PutBack(p.up, p.item.node, x); }
  }

  lemma FirstAfter<K, V>(p: Path<Cell<K, V>>)
    requires After(p) != []
    ensures After(p)[0].node in PathNodes(p)
  {
    PathNodesAreOwners(p);
    assert After(p)[0] in After(p);
  }

  /** The found node takes over the content of the last node, which is unlinked. */
  method TakeOut<K, V>(p: RbNode<K, V>, q: RbNode<K, V>, f: RbNode<K, V>,
                       ghost path: Path<Cell<K, V>>, ghost t: Tree<Cell<K, V>>, ghost k: nat)
    requires t.Node? && t.left.Leaf? && t.right.Leaf? && Situated(path, t, q) && path.Down? && p == path.item.node
    requires |Before(path)| <= k < |Whole(path, t)| && (k == Here(path, t) || k == End(path, t))
    requires f == Whole(path, t)[k].node
    modifies p, f
    ensures PathRep(Rest(path, t, k), null)
  {
    hide Distinct;
    SeparatePath(path, t);
    LinkTellsChild(t, q, false);
    LinkTellsChild(t, q, true);
    ghost var x := Cell(f, t.item.key, t.item.value);
    if k == Here(path, t) {
      HereIsRoot(path, t);
    } else {
      assert After(path)[0] == Whole(path, t)[k];
      DistinctWithout(Before(path), In(t), After(path));
      LeaveOut(path, q);
      SetNextNodes(path, x);
    }
    f.key, f.value := q.key, q.value;
    if k != Here(path, t) {
      PutBack(path, q, x);
    }
    Relink(p, q, q.link.At(q.link.left == null), Rest(path, t, k));
  }

  lemma {:induction false} SetNextNodes<K, V>(p: Path<Cell<K, V>>, x: Cell<K, V>)
    requires After(p) != [] && x.node == After(p)[0].node
    ensures PathNodes(SetNext(p, x)) == PathNodes(p)
    ensures SetNext(p, x).item.node == p.item.node && SetNext(p, x).sib == p.sib
    ensures PathNodes(SetNext(p, x).up) == PathNodes(p.up)
  {
    if p.dir { SetNextNodes(p.up, x); }
  }

  lemma {:induction false} PlugRep<K, V>(p: Path<Cell<K, V>>, t: Tree<Cell<K, V>>, q: RbNode?<K, V>) returns (n: RbNode?<K, V>)
    requires PathRep(p, q) && Rep(t, q)
    ensures Rep(Plug(p, t), n)
    decreases p
  {
    if p.Top? {
      n := q;
    } else {
      CloseRep(p.red, p.dir, t, p.item, p.sib);
      n := PlugRep(p.up, Build(p.red, p.dir, t, p.item, p.sib), p.item.node);
    }
  }

  /** With the hole filled again, the false root's right link leads to a red-black tree with the cells behind it. */
  lemma Refill<K, V>(p: Path<Cell<K, V>>, t: Tree<Cell<K, V>>, q: RbNode?<K, V>, h: nat, head: RbNode<K, V>)
    returns (root: Tree<Cell<K, V>>, k: nat)
    requires PathRep(p, q) && Rep(t, q) && Distinct(Whole(p, t))
    requires PathRb(p, h) && Rb(t, h) && !(p.red && IsRed(t)) && |Whole(p, t)| > 0 && Whole(p, t)[0].node == head
    ensures Rep(root, head.link.right) && Distinct(In(root)) && Rb(root, k) && In(root) == Whole(p, t)[1..]
    ensures head !in Nodes(root)
  {
    root, k := PlugBalance(p, t, h);
    var n := PlugRep(p, t, q);
    PlugOrder(p, t);
    var u := Plug(p, t);
    assert In(u) == [u.item] + In(root);
    Separate(u, true);
  }

  method Blacken<K, V>(n: RbNode?<K, V>, ghost t: Tree<Cell<K, V>>, ghost h: nat) returns (ghost u: Tree<Cell<K, V>>)
    requires Rep(t, n) && Distinct(In(t)) && Rb(t, h)
    modifies Nodes(t)
    ensures Rep(u, n) && In(u) == In(t) && RedBlack(u)
  {
    u := t;
    if n != null {
      Separate(t, true);
      n.red := false;
      u := Paint(t, false);
      BlackRoot(t, h);
    }
    BlackHeightIsUnique(u, if t.Node? && t.red then h + 1 else h);
  }

  lemma HeadedCutOf<K, V>(cmp: (K, K) -> int, hd: Cell<K, V>, s: seq<Cell<K, V>>, key: K, i: nat)
    requires Cut(cmp, s, key, i)
    ensures HeadedCut(cmp, [hd] + s, key, i + 1)
    ensures AtCut(cmp, [hd] + s, key, i + 1) == AtCut(cmp, s, key, i)
  {
    var w := [hd] + s;
    assert forall j :: 1 <= j < |w| ==> w[j] == s[j - 1];
  }

  /** The false root in front of the tree. */
  method Headed<K, V>(root: RbNode<K, V>, ghost t: Tree<Cell<K, V>>) returns (head: RbNode<K, V>, ghost u: Tree<Cell<K, V>>)
    requires t.Node? && Rep(t, root) && Distinct(In(t))
    ensures fresh(head) && u == Node(false, Leaf, Cell(head, root.key, root.value), t)
    ensures Rep(u, head) && Distinct(In(u)) && In(u) == [u.item] + In(t) && Nodes(u) == {head} + Nodes(t)
  {
    NodesAllocated(t);
    head := new RbNode(root.key, root.value);
    head.red := false;
    head.link := Links(null, root);
    u := Node(false, Leaf, Cell(head, root.key, root.value), t);
    NodesAreOwners(t);
    DistinctJoin([], u.item, In(t));
    assert In(u) == [] + [u.item] + In(t);
  }

  /** At the end of the descent the key has been met exactly if it is in the tree. */
  lemma EndOfCourse<K, V>(cmp: (K, K) -> int, w: seq<Cell<K, V>>, key: K, k: nat,
                          p: Path<Cell<K, V>>, t: Tree<Cell<K, V>>, dir: bool, f: RbNode?<K, V>)
    requires OnCourse(cmp, w, key, k, p, t, dir, f) && t.Child(dir).Leaf?
    ensures f != null <==> AtCut(cmp, w, key, k)
  {
    assert |In(t)| == |In(t.left)| + 1 + |In(t.right)|;
  }

  /** What the taking out leaves is a red-black tree below the false root, and lacks exactly the cell at `k`. */
  lemma RestIsSound<K, V>(path: Path<Cell<K, V>>, t: Tree<Cell<K, V>>, dir: bool, h0: nat, k: nat) returns (h: nat)
    requires path.Down? && Distinct(Whole(path, t)) && InBalance(path, t, dir, h0) && t.Child(dir).Leaf?
    requires |Before(path)| > 0
    requires |Before(path)| <= k < |Whole(path, t)| && (k == Here(path, t) || k == End(path, t))
    ensures t.left.Leaf? && t.right.Leaf?
    ensures PathRb(Rest(path, t, k), h) && Rb<Cell<K, V>>(Leaf, h)
    ensures var w, r := Whole(path, t), Whole(Rest(path, t, k), Leaf);
            && Distinct(r) && Owners(r) <= Owners(w)
            && |r| > 0 && r[0].node == Before(path)[0].node
            && SameContents(r, Drop(w, k))
  {
    h := EndOfDescent(path, t, dir, h0);
    RestBalance(path, t, k, h);
    RestLacksTheKey(path, t, k);
    RestIsDistinct(Whole(path, t), Whole(Rest(path, t, k), Leaf), |Before(path)|);
  }

  lemma SameTails<K, V>(s: seq<Cell<K, V>>, r: seq<Cell<K, V>>)
    requires SameContents(s, r) && |s| > 0
    ensures SameContents(s[1..], r[1..])
  {}

  /** What follows the loop when the key was found. */
  method FinishFound<K, V>(head: RbNode<K, V>, p: RbNode<K, V>, q: RbNode<K, V>, f: RbNode<K, V>,
                           ghost path: Path<Cell<K, V>>, ghost t: Tree<Cell<K, V>>, ghost dir: bool, ghost h0: nat, ghost k: nat)
    returns (ghost r: Tree<Cell<K, V>>, ghost h: nat)
    requires path.Down? && p == path.item.node && Situated(path, t, q) && InBalance(path, t, dir, h0) && t.Child(dir).Leaf?
    requires |Before(path)| > 0 && Before(path)[0].node == head
    requires |Before(path)| <= k < |Whole(path, t)| && (k == Here(path, t) || k == End(path, t)) && f == Whole(path, t)[k].node
    modifies p, f
    ensures Rep(r, head.link.right) && Distinct(In(r)) && Rb(r, h)
    ensures Nodes(r) <= Owners(Whole(path, t)) && head !in Nodes(r)
    ensures SameContents(In(r), Drop(Whole(path, t), k)[1..])
  {
    ghost var w, rest := Whole(path, t), Rest(path, t, k);
    h := RestIsSound(path, t, dir, h0, k);
    TakeOut(p, q, f, path, t, k);
    r, h := Refill(rest, Leaf, null, h, head);
    OwnersOfTail(Whole(rest, Leaf));
    SameTails(Whole(rest, Leaf), Drop(w, k));
    NodesAreOwners(r);
  }

  lemma RestBalance<K, V>(p: Path<Cell<K, V>>, t: Tree<Cell<K, V>>, k: nat, h: nat)
    requires t.Node? && |Before(p)| <= k < |Whole(p, t)| && (k == Here(p, t) || k == End(p, t)) && PathRb(p, h)
    ensures PathRb(Rest(p, t, k), h)
  {
    if k != Here(p, t) { SetNextBalance(p, Cell(Whole(p, t)[k].node, t.item.key, t.item.value), h); }
  }

  lemma OwnersOfTail<K, V>(s: seq<Cell<K, V>>)
    requires |s| > 0
    ensures Owners(s[1..]) <= Owners(s)
  {
    assert forall c :: c in s[1..] ==> c in s;
  }

  /** The loop and what follows it, up to the colour of the root. */
  method RemoveBelow<K, V>(cmp: (K, K) -> int, key: K, head: RbNode<K, V>, ghost u: Tree<Cell<K, V>>, ghost k: nat)
    returns (found: bool, ghost r: Tree<Cell<K, V>>, ghost h: nat)
    requires u.Node? && u.right.Node? && Situated(Top, u, head) && InBalance(Top, u, true, BlackHeight(u.right))
    requires HeadedCut(cmp, In(u), key, k)
    modifies Nodes(u)
    ensures Rep(r, head.link.right) && Distinct(In(r)) && Rb(r, h) && Nodes(r) <= Nodes(u) - {head}
    ensures found == AtCut(cmp, In(u), key, k)
    ensures if found then SameContents(In(r), Drop(In(u), k)[1..]) else In(r) == In(u)[1..]
  {
    hide SameContents, BlackHeight;
    ghost var path, t, dir;
    var p, q, f;
    p, q, f, path, t, dir, h := Descend(cmp, key, head, u, k);
    EndOfCourse(cmp, In(u), key, k, path, t, dir, f);
    HeadFirst(path, h);
    NodesOfWhole(path, t);
    NodesAreOwners(u);
    NodesWithin(path, t, dir);
    assert Before(path)[0] == In(u)[0];
    found := f != null;
    if f != null {
      assert In(u)[k] in In(u);
      r, h := FinishFound(head, p, q, f, path, t, dir, h, k);
    } else {
      r, h := Refill(path, t, q, h, head);
      OwnersOfTail(In(u));
      NodesAreOwners(r);
    }
  }

  /** The removal of a key from a tree with a root. */
  method RemoveFrom<K, V>(cmp: (K, K) -> int, root: RbNode<K, V>, key: K, ghost t0: Tree<Cell<K, V>>, ghost i: nat)
    returns (found: bool, top: RbNode?<K, V>, ghost r: Tree<Cell<K, V>>)
    requires t0.Node? && Rep(t0, root) && Distinct(In(t0)) && RedBlack(t0) && Cut(cmp, In(t0), key, i)
    modifies Nodes(t0)
    ensures Rep(r, top) && Distinct(In(r)) && RedBlack(r) && Nodes(r) <= Nodes(t0)
    ensures found == AtCut(cmp, In(t0), key, i)
    ensures if found then SameContents(In(r), Drop(In(t0), i)) else In(r) == In(t0)
  {
    hide In, Cut, Rep, SameContents;
    ghost var u, h;
    var head;
    head, u := Headed(root, t0);
    HeadedCutOf(cmp, u.item, In(t0), key, i);
    found, r, h := RemoveBelow(cmp, key, head, u, i + 1);
    assert found ==> Drop([u.item] + In(t0), i + 1)[1..] == Drop(In(t0), i);
    top := head.link.right;
    ghost var c := Blacken(top, r, h);
    SameOrderSameNodes(r, c);
    r := c;
  }
}
