/**
 The top-down removal of `src/util/rbtree.c` on values: a path from the false root down to the current subtree,
 and the colour repair that each step of the descent performs.
 */
module RbDescent {
  import opened RbShape

  /**
   The way from the root to a subtree, innermost node first.  `Down(up, red, dir, item, sib)` is a node whose child
   at `dir` is the subtree and whose other child is `sib`.
   */
  datatype Path<T> = Top | Down(up: Path<T>, red: bool, dir: bool, item: T, sib: Tree<T>)

  function Plug<T>(p: Path<T>, t: Tree<T>): Tree<T>
    decreases p
  {
    match p
    case Top => t
    case Down(up, red, dir, item, sib) => Plug(up, Build(red, dir, t, item, sib))
  }

  /** What stands to the left of the hole. */
  function Before<T>(p: Path<T>): seq<T> {
    match p
    case Top => []
    case Down(up, _, dir, item, sib) => if dir then Before(up) + In(sib) + [item] else Before(up)
  }

  /** What stands to the right of the hole. */
  function After<T>(p: Path<T>): seq<T> {
    match p
    case Top => []
    case Down(up, _, dir, item, sib) => if dir then After(up) else [item] + In(sib) + After(up)
  }

  function Whole<T>(p: Path<T>, t: Tree<T>): seq<T> {
    Before(p) + In(t) + After(p)
  }

  lemma WholeBuild<T>(p: Path<T>, t: Tree<T>)
    requires p.Down?
    ensures Whole(p.up, Build(p.red, p.dir, t, p.item, p.sib)) == Whole(p, t)
  {
    hide In;
    InBuild(p.red, p.dir, t, p.item, p.sib);
    var b, a := Before(p.up), After(p.up);
    if p.dir {
      assert b + (In(p.sib) + [p.item] + In(t)) + a == (b + In(p.sib) + [p.item]) + In(t) + a;
    } else {
      assert b + (In(t) + [p.item] + In(p.sib)) + a == b + In(t) + ([p.item] + In(p.sib) + a);
    }
  }

  lemma {:induction false} PlugOrder<T>(p: Path<T>, t: Tree<T>)
    ensures In(Plug(p, t)) == Whole(p, t)
    decreases p
  {
    if p.Down? {
      PlugOrder(p.up, Build(p.red, p.dir, t, p.item, p.sib));
      WholeBuild(p, t);
    }
  }

  /** The path made by stepping from the root of `t` to its child at `dir`. */
  function Step<T>(p: Path<T>, t: Tree<T>, dir: bool): Path<T>
    requires t.Node?
  {
    Down(p, t.red, dir, t.item, t.Child(!dir))
  }

  lemma StepOrder<T>(p: Path<T>, t: Tree<T>, dir: bool)
    requires t.Node?
    ensures Whole(Step(p, t, dir), t.Child(dir)) == Whole(p, t)
  {
    WholeBuild(Step(p, t, dir), t.Child(dir));
    assert Build(t.red, dir, t.Child(dir), t.item, t.Child(!dir)) == t;
  }

  /** The frame of the false root: black, its left child empty, the tree to its right. */
  predicate IsHead<T>(p: Path<T>) {
    p.Down? && p.up.Top? && !p.red && p.dir && p.sib.Leaf?
  }

  /**
   The surroundings are those of a red-black tree once the hole gets a tree of black height `h` (with a black root,
   if the innermost node is red).  The false root takes a tree of any black height.
   */
  ghost predicate PathRb<T>(p: Path<T>, h: nat) {
    match p
    case Top => false
    case Down(up, red, dir, item, sib) =>
      if up.Top? then IsHead(p)
      else
        && Rb(sib, h)
        && (if red then !IsRed(sib) && !up.red && PathRb(up, h) else PathRb(up, h + 1))
  }

  /** Filling the hole gives the false root with a red-black tree to its right. */
  lemma {:induction false} PlugBalance<T>(p: Path<T>, t: Tree<T>, h: nat) returns (root: Tree<T>, k: nat)
    requires PathRb(p, h) && Rb(t, h) && !(p.red && IsRed(t))
    ensures Plug(p, t).Node? && Plug(p, t).right == root && Plug(p, t).left == Leaf && Rb(root, k)
    decreases p
  {
    if p.up.Top? {
      root, k := t, h;
    } else {
      root, k := PlugBalance(p.up, Build(p.red, p.dir, t, p.item, p.sib), if p.red then h else h + 1);
    }
  }

  // ----- The colour repair of one step

  datatype Repair = Nothing | RotateQ | Flip | DoubleP | SingleP

  /** Which branch of the loop body applies to the current node `t` below `p`, when the search goes on at `dir`. */
  function Choose<T>(p: Path<T>, t: Tree<T>, dir: bool): Repair
    requires p.Down? && t.Node?
  {
    if IsRed(t) || IsRed(t.Child(dir)) then Nothing
    else if IsRed(t.Child(!dir)) then RotateQ
    else if p.sib.Leaf? then Nothing
    else if !IsRed(p.sib.Child(!p.dir)) && !IsRed(p.sib.Child(p.dir)) then Flip
    else if IsRed(p.sib.Child(p.dir)) then DoubleP
    else SingleP
  }

  function RepairPath<T>(p: Path<T>, t: Tree<T>, dir: bool): (r: Path<T>)
    requires p.Down? && t.Node?
    ensures r.Down?
  {
    match Choose(p, t, dir)
    case Nothing => p
    case RotateQ =>
      var other := t.Child(!dir);
      Down(p, false, dir, other.item, other.Child(!dir))
    case Flip => p.(red := false, sib := Paint(p.sib, true))
    case DoubleP =>
      var s, m := p.sib, p.sib.Child(p.dir);
      Down(Down(p.up, true, p.dir, m.item, Build(false, p.dir, m.Child(!p.dir), s.item, s.Child(!p.dir))),
           false, p.dir, p.item, m.Child(p.dir))
    case SingleP =>
      var s := p.sib;
      Down(Down(p.up, true, p.dir, s.item, Paint(s.Child(!p.dir), false)),
           false, p.dir, p.item, s.Child(p.dir))
  }

  function RepairTree<T>(p: Path<T>, t: Tree<T>, dir: bool): (r: Tree<T>)
    requires p.Down? && t.Node?
    ensures r.Node? && r.item == t.item && r.Child(dir) == t.Child(dir)
  {
    match Choose(p, t, dir)
    case Nothing => t
    case RotateQ => Build(true, dir, t.Child(dir), t.item, t.Child(!dir).Child(dir))
    case _ => Paint(t, true)
  }

  lemma Regroup3<T>(b: seq<T>, f: seq<T>, x: T, n: seq<T>, y: T)
    ensures (b + f + [x]) + n + [y] == b + (f + [x] + n) + [y]
  {}

  lemma Regroup4<T>(y: T, n: seq<T>, x: T, f: seq<T>, a: seq<T>)
    ensures [y] + n + ([x] + f + a) == [y] + (n + [x] + f) + a
  {}

  lemma RegroupWhole<T>(b: seq<T>, c: seq<T>, x: T, d: seq<T>, y: T, e: seq<T>, a: seq<T>)
    ensures (b + c + [x]) + (d + [y] + e) + a == b + ((c + [x] + d) + [y] + e) + a
    ensures b + (c + [x] + d) + ([y] + e + a) == b + (c + [x] + (d + [y] + e)) + a
  {}

  /** Lifting the root of the sibling over the innermost node leaves both sides of the hole as they read. */
  lemma SidesAfterLift<T>(p: Path<T>, x: T, near: Tree<T>, far: Tree<T>)
    requires p.Down?
    requires In(p.sib) == if p.dir then In(far) + [x] + In(near) else In(near) + [x] + In(far)
    ensures var q := Down(Down(p.up, true, p.dir, x, far), false, p.dir, p.item, near);
            Before(q) == Before(p) && After(q) == After(p)
  {
    if p.dir {
      Regroup3(Before(p.up), In(far), x, In(near), p.item);
    } else {
      Regroup4(p.item, In(near), x, In(far), After(p.up));
    }
  }

  lemma DoubleLiftOrder<T>(s: Tree<T>, d: bool)
    requires s.Node? && s.Child(d).Node?
    ensures var m := s.Child(d);
            var far := Build(false, d, m.Child(!d), s.item, s.Child(!d));
            In(s) == if d then In(far) + [m.item] + In(m.Child(d)) else In(m.Child(d)) + [m.item] + In(far)
  {
    var m := s.Child(d);
    InBuild(false, d, m.Child(!d), s.item, s.Child(!d));
    if d {
      Regroup(In(s.left), s.item, In(m.left), m.item, In(m.right));
    } else {
      Regroup(In(m.left), m.item, In(m.right), s.item, In(s.right));
    }
  }

  /** No repair changes what the whole tree reads, nor the position of the current node in it. */
  lemma RepairKeepsOrder<T>(p: Path<T>, t: Tree<T>, dir: bool)
    requires p.Down? && t.Node?
    ensures var q, u := RepairPath(p, t, dir), RepairTree(p, t, dir);
            && Whole(q, u) == Whole(p, t)
            && |Before(q)| + |In(u.left)| == |Before(p)| + |In(t.left)|
            && (if dir then After(q) == After(p) else Before(q) == Before(p))
  {
    match Choose(p, t, dir)
    case Nothing =>
    case Flip =>
      assert In(Paint(p.sib, true)) == In(p.sib);
    case DoubleP =>
      var s, m := p.sib, p.sib.Child(p.dir);
      DoubleLiftOrder(s, p.dir);
      SidesAfterLift(p, m.item, m.Child(p.dir), Build(false, p.dir, m.Child(!p.dir), s.item, s.Child(!p.dir)));
    case SingleP =>
      var s := p.sib;
      assert In(Paint(s.Child(!p.dir), false)) == In(s.Child(!p.dir));
      SidesAfterLift(p, s.item, s.Child(p.dir), Paint(s.Child(!p.dir), false));
    case RotateQ =>
      var o := t.Child(!dir);
      if dir {
        RegroupWhole(Before(p), In(o.left), o.item, In(o.right), t.item, In(t.right), After(p));
      } else {
        RegroupWhole(Before(p), In(t.left), t.item, In(o.left), o.item, In(o.right), After(p));
        assert In(t) == In(t.left) + [t.item] + (In(o.left) + [o.item] + In(o.right));
      }
  }

  /**
   What the descent keeps: the current node `t` is red, or its child on the way of the search is, or it is the root
   and has no red child on the other side either.
   */
  ghost predicate RedInHand<T>(p: Path<T>, t: Tree<T>, dir: bool)
    requires p.Down? && t.Node?
  {
    IsRed(t) || IsRed(t.Child(dir)) || (p.up.Top? && !IsRed(t.Child(!dir)))
  }

  /** Stepping down keeps the balance of the surroundings. */
  lemma StepBalance<T>(p: Path<T>, t: Tree<T>, dir: bool, h: nat) returns (k: nat)
    requires PathRb(p, h) && Rb(t, h) && t.Node? && !(p.red && IsRed(t))
    ensures PathRb(Step(p, t, dir), k) && Rb(t.Child(dir), k) && !(t.red && IsRed(t.Child(dir)))
  {
    k := if t.red then h else h - 1;
  }

  /**
   The heart of the removal: below a node that was in hand, the repair re-establishes a red in hand and keeps the
   surroundings balanced.
   */
  lemma RepairBalance<T>(p: Path<T>, t: Tree<T>, dir: bool, h: nat) returns (k: nat)
    requires PathRb(p, h) && Rb(t, h) && t.Node? && !(p.red && IsRed(t))
    requires p.red || IsRed(t) || p.up.Top? || (p.up.up.Top? && !IsRed(p.sib))
    ensures var q, u := RepairPath(p, t, dir), RepairTree(p, t, dir);
            PathRb(q, k) && Rb(u, k) && !(q.red && IsRed(u)) && RedInHand(q, u, dir)
  {
    match Choose(p, t, dir)
    case Nothing =>
      k := h;
    case RotateQ =>
      k := h - 1;
      var o := t.Child(!dir);
      assert Rb(o, k);
      assert PathRb(Down(p, false, dir, o.item, o.Child(!dir)), k);
    case Flip =>
      k := h - 1;
      assert Rb(Paint(p.sib, true), k);
    case DoubleP =>
      k := h - 1;
      var s, m := p.sib, p.sib.Child(p.dir);
      assert Rb(s, h) && Rb(m, k);
      var far := Build(false, p.dir, m.Child(!p.dir), s.item, s.Child(!p.dir));
      assert Rb(far, h);
      assert PathRb(Down(p.up, true, p.dir, m.item, far), h);
    case SingleP =>
      k := h - 1;
      var s := p.sib;
      assert Rb(s, h) && Rb(s.Child(!p.dir), k);
      assert Rb(Paint(s.Child(!p.dir), false), h);
      assert PathRb(Down(p.up, true, p.dir, s.item, Paint(s.Child(!p.dir), false)), h);
  }

  /** When the search can go no further, the current node has no child left, so taking it out disturbs nothing. */
  lemma EndOfDescent<T>(p: Path<T>, t: Tree<T>, dir: bool, h: nat) returns (k: nat)
    requires PathRb(p, h) && Rb(t, h) && t.Node? && RedInHand(p, t, dir) && t.Child(dir).Leaf?
    ensures t.left.Leaf? && t.right.Leaf?
    ensures PathRb(p, k) && Rb<T>(Leaf, k)
  {
    k := 0;
  }

  // ----- Overwriting the found node

  /** The path with `x` in place of the payload that stands immediately to the right of the hole. */
  function SetNext<T>(p: Path<T>, x: T): (r: Path<T>)
    requires After(p) != []
    ensures r.Down?
  {
    if p.dir then p.(up := SetNext(p.up, x)) else p.(item := x)
  }

  lemma {:induction false} SetNextOrder<T>(p: Path<T>, x: T)
    requires After(p) != []
    ensures Before(SetNext(p, x)) == Before(p)
    ensures After(SetNext(p, x)) == [x] + After(p)[1..]
  {
    if p.dir {
      SetNextOrder(p.up, x);
    } else {
      assert After(p)[1..] == In(p.sib) + After(p.up);
    }
  }

  lemma {:induction false} SetNextBalance<T>(p: Path<T>, x: T, h: nat)
    requires After(p) != [] && PathRb(p, h)
    ensures PathRb(SetNext(p, x), h) && SetNext(p, x).red == p.red
  {
    if p.dir {
      SetNextBalance(p.up, x, if p.red then h else h + 1);
    }
  }
}
