/**
 Red-black trees as values: the shape that the node structure of `src/util/rbtree.c` spells out in memory.

 The payload `T` of a node is left open; a tree is read as the sequence of its payloads from left to right
 (`In`), so that nothing here needs to know how keys compare.  `Path` is the way from the root down to a
 subtree, which is what the top-down removal loop holds in `g`, `p` and `q`.
 */
module RbShape {
  import opened Powers

  datatype Tree<T> = Leaf | Node(red: bool, left: Tree<T>, item: T, right: Tree<T>) {
    /** The C code's `link[dir]`, with `dir` as a truth value. */
    function Child(dir: bool): Tree<T>
      requires Node?
    {
      if dir then right else left
    }
  }

  /** A node with subtree `near` at `dir` and subtree `far` at `!dir`. */
  function Build<T>(red: bool, dir: bool, near: Tree<T>, item: T, far: Tree<T>): (t: Tree<T>)
    ensures t.Node? && t.Child(dir) == near && t.Child(!dir) == far
  {
    if dir then Node(red, far, item, near) else Node(red, near, item, far)
  }

  predicate IsRed<T>(t: Tree<T>) {
    t.Node? && t.red
  }

  function Paint<T>(t: Tree<T>, red: bool): Tree<T>
    requires t.Node?
  {
    t.(red := red)
  }

  /** The payloads from left to right. */
  function In<T>(t: Tree<T>): seq<T> {
    match t
    case Leaf => []
    case Node(_, l, x, r) => In(l) + [x] + In(r)
  }

  /** `t` is a red-black tree of black height `h`: no red node has a red child and every way down meets `h` black nodes. */
  ghost predicate Rb<T>(t: Tree<T>, h: nat) {
    match t
    case Leaf => h == 0
    case Node(red, l, _, r) =>
      if red then Rb(l, h) && Rb(r, h) && !IsRed(l) && !IsRed(r)
      else h > 0 && Rb(l, h - 1) && Rb(r, h - 1)
  }

  function BlackHeight<T>(t: Tree<T>): nat {
    if t.Leaf? then 0 else BlackHeight(t.left) + (if t.red then 0 else 1)
  }

  lemma {:induction false} BlackHeightIsUnique<T>(t: Tree<T>, h: nat)
    requires Rb(t, h)
    ensures h == BlackHeight(t)
  {
    if t.Node? { BlackHeightIsUnique(t.left, if t.red then h else h - 1); }
  }

  /** A red-black tree with a black root. */
  ghost predicate RedBlack<T>(t: Tree<T>) {
    Rb(t, BlackHeight(t)) && !IsRed(t)
  }

  /** As `Rb`, except that a red root may have one red child: what insertion below a red node leaves behind. */
  ghost predicate AlmostRb<T>(t: Tree<T>, h: nat) {
    IsRed(t) && Rb(t.left, h) && Rb(t.right, h) && !(IsRed(t.left) && IsRed(t.right))
  }

  // ----- Height

  function Height<T>(t: Tree<T>): nat {
    if t.Leaf? then 0
    else 1 + (if Height(t.left) < Height(t.right) then Height(t.right) else Height(t.left))
  }

  lemma {:induction false} HeightAgainstBlackHeight<T>(t: Tree<T>, h: nat)
    requires Rb(t, h)
    ensures Height(t) <= 2 * h + (if IsRed(t) then 1 else 0)
    ensures Pow2(h) <= |In(t)| + 1
  {
    match t
    case Leaf =>
    case Node(red, l, _, r) =>
      var k := if red then h else h - 1;
      HeightAgainstBlackHeight(l, k);
      HeightAgainstBlackHeight(r, k);
  }

  lemma Square(a: nat, b: nat)
    requires a <= b
    ensures a * a <= b * b
  {
    calc <= { a * a; a * b; b * b; }
  }

  /** A tree with a black root and `n` nodes has height at most `2 * log2(n + 1)`. */
  lemma HeightIsLogarithmic<T>(t: Tree<T>, h: nat)
    requires Rb(t, h) && !IsRed(t)
    ensures Pow2(Height(t)) <= (|In(t)| + 1) * (|In(t)| + 1)
  {
    HeightAgainstBlackHeight(t, h);
    Pow2Monotone(Height(t), h + h);
    Pow2Sum(h, h);
    Square(Pow2(h), |In(t)| + 1);
  }

  // ----- Rotations

  function RotateSingle<T>(t: Tree<T>, dir: bool): (r: Tree<T>)
    requires t.Node? && t.Child(!dir).Node?
    ensures r.Node? && !r.red
  {
    var other := t.Child(!dir);
    Build(false, dir, Build(true, dir, t.Child(dir), t.item, other.Child(dir)), other.item, other.Child(!dir))
  }

  function RotateDouble<T>(t: Tree<T>, dir: bool): (r: Tree<T>)
    requires t.Node? && t.Child(!dir).Node? && t.Child(!dir).Child(dir).Node?
    ensures r.Node? && !r.red
  {
    RotateSingle(Build(t.red, dir, t.Child(dir), t.item, RotateSingle(t.Child(!dir), !dir)), dir)
  }

  lemma InBuild<T>(red: bool, dir: bool, near: Tree<T>, item: T, far: Tree<T>)
    ensures In(Build(red, dir, near, item, far))
         == if dir then In(far) + [item] + In(near) else In(near) + [item] + In(far)
  {}

  lemma Regroup<T>(a: seq<T>, x: T, b: seq<T>, y: T, c: seq<T>)
    ensures a + [x] + (b + [y] + c) == (a + [x] + b) + [y] + c
  {}

  lemma RotateSingleKeepsOrder<T>(t: Tree<T>, dir: bool)
    requires t.Node? && t.Child(!dir).Node?
    ensures In(RotateSingle(t, dir)) == In(t)
  {
    var other := t.Child(!dir);
    var a, b, c := t.Child(dir), other.Child(dir), other.Child(!dir);
    var down := Build(true, dir, a, t.item, b);
    InBuild(true, dir, a, t.item, b);
    InBuild(false, dir, down, other.item, c);
    if dir {
      Regroup(In(c), other.item, In(b), t.item, In(a));
      assert In(other) == In(c) + [other.item] + In(b);
    } else {
      Regroup(In(a), t.item, In(b), other.item, In(c));
      assert In(other) == In(b) + [other.item] + In(c);
    }
  }

  lemma RotateDoubleKeepsOrder<T>(t: Tree<T>, dir: bool)
    requires t.Node? && t.Child(!dir).Node? && t.Child(!dir).Child(dir).Node?
    ensures In(RotateDouble(t, dir)) == In(t)
  {
    RotateSingleKeepsOrder(t.Child(!dir), !dir);
    var u := Build(t.red, dir, t.Child(dir), t.item, RotateSingle(t.Child(!dir), !dir));
    InBuild(t.red, dir, t.Child(dir), t.item, RotateSingle(t.Child(!dir), !dir));
    RotateSingleKeepsOrder(u, dir);
  }

  // ----- Insertion

  /** The repair that follows the recursive call: `t` has just received a new subtree at `dir`. */
  function InsertRepair<T>(t: Tree<T>, dir: bool): (r: Tree<T>)
    requires t.Node?
    ensures r.Node?
  {
    if !IsRed(t.Child(dir)) then t
    else if IsRed(t.Child(!dir)) then
      Build(true, dir, Paint(t.Child(dir), false), t.item, Paint(t.Child(!dir), false))
    else if IsRed(t.Child(dir).Child(dir)) then RotateSingle(t, !dir)
    else if IsRed(t.Child(dir).Child(!dir)) then RotateDouble(t, !dir)
    else t
  }

  /** Insertion of `x` so that it becomes element `i` of the tree. */
  function InsertAt<T>(t: Tree<T>, i: nat, x: T): (r: Tree<T>)
    requires i <= |In(t)|
    ensures r.Node?
  {
    match t
    case Leaf => Node(true, Leaf, x, Leaf)
    case Node(red, l, y, r) =>
      if i <= |In(l)| then InsertRepair(Node(red, InsertAt(l, i, x), y, r), false)
      else InsertRepair(Node(red, l, y, InsertAt(r, i - |In(l)| - 1, x)), true)
  }

  lemma InsertRepairKeepsOrder<T>(t: Tree<T>, dir: bool)
    requires t.Node?
    ensures In(InsertRepair(t, dir)) == In(t)
  {
    if IsRed(t.Child(dir)) {
      if IsRed(t.Child(!dir)) {
        InBuild(true, dir, Paint(t.Child(dir), false), t.item, Paint(t.Child(!dir), false));
      } else if IsRed(t.Child(dir).Child(dir)) {
        RotateSingleKeepsOrder(t, !dir);
      } else if IsRed(t.Child(dir).Child(!dir)) {
        RotateDoubleKeepsOrder(t, !dir);
      }
    }
  }

  lemma SplitLeft<T>(a: seq<T>, y: T, b: seq<T>, i: nat, x: T)
    requires i <= |a|
    ensures (a + [y] + b)[..i] + [x] + (a + [y] + b)[i..] == (a[..i] + [x] + a[i..]) + [y] + b
  {
    assert (a + [y] + b)[..i] == a[..i];
    assert (a + [y] + b)[i..] == a[i..] + [y] + b;
  }

  lemma SplitRight<T>(a: seq<T>, y: T, b: seq<T>, j: nat, x: T)
    requires j <= |b|
    ensures var i := |a| + 1 + j; (a + [y] + b)[..i] + [x] + (a + [y] + b)[i..] == a + [y] + (b[..j] + [x] + b[j..])
  {
    assert (a + [y] + b)[..|a| + 1 + j] == a + [y] + b[..j];
    assert (a + [y] + b)[|a| + 1 + j..] == b[j..];
  }

  lemma InsertLeftOrder<T>(red: bool, l: Tree<T>, y: T, r: Tree<T>, i: nat, x: T)
    requires i <= |In(l)| && In(InsertAt(l, i, x)) == In(l)[..i] + [x] + In(l)[i..]
    ensures var t := Node(red, l, y, r); In(InsertAt(t, i, x)) == In(t)[..i] + [x] + In(t)[i..]
  {
    InsertRepairKeepsOrder(Node(red, InsertAt(l, i, x), y, r), false);
    SplitLeft(In(l), y, In(r), i, x);
  }

  lemma InsertRightOrder<T>(red: bool, l: Tree<T>, y: T, r: Tree<T>, j: nat, x: T)
    requires j <= |In(r)| && In(InsertAt(r, j, x)) == In(r)[..j] + [x] + In(r)[j..]
    ensures var t, i := Node(red, l, y, r), |In(l)| + 1 + j; In(InsertAt(t, i, x)) == In(t)[..i] + [x] + In(t)[i..]
  {
    hide InsertRepair;
    InsertRepairKeepsOrder(Node(red, l, y, InsertAt(r, j, x)), true);
    SplitRight(In(l), y, In(r), j, x);
  }

  lemma {:induction false} InsertAtOrder<T>(t: Tree<T>, i: nat, x: T)
    requires i <= |In(t)|
    ensures In(InsertAt(t, i, x)) == In(t)[..i] + [x] + In(t)[i..]
  {
    match t
    case Leaf =>
    case Node(red, l, y, r) =>
      if i <= |In(l)| {
        InsertAtOrder(l, i, x);
        InsertLeftOrder(red, l, y, r, i, x);
      } else {
        InsertAtOrder(r, i - |In(l)| - 1, x);
        InsertRightOrder(red, l, y, r, i - |In(l)| - 1, x);
      }
  }

  lemma InsertRepairBalance<T>(t: Tree<T>, dir: bool, h: nat)
    requires t.Node?
    requires t.red ==> Rb(t.Child(dir), h) && Rb(t.Child(!dir), h) && !IsRed(t.Child(!dir))
    requires !t.red ==> h > 0 && Rb(t.Child(!dir), h - 1) && (Rb(t.Child(dir), h - 1) || AlmostRb(t.Child(dir), h - 1))
    ensures t.red ==> AlmostRb(InsertRepair(t, dir), h)
    ensures !t.red ==> Rb(InsertRepair(t, dir), h)
  {}

  /** Insertion below a black root keeps a red-black tree of the same black height. */
  lemma {:induction false} InsertAtBalance<T>(t: Tree<T>, i: nat, x: T, h: nat)
    requires i <= |In(t)| && Rb(t, h)
    ensures if IsRed(t) then AlmostRb(InsertAt(t, i, x), h) else Rb(InsertAt(t, i, x), h)
  {
    match t
    case Leaf =>
    case Node(red, l, y, r) =>
      var k := if red then h else h - 1;
      if i <= |In(l)| {
        InsertAtBalance(l, i, x, k);
        InsertRepairBalance(Node(red, InsertAt(l, i, x), y, r), false, h);
      } else {
        InsertAtBalance(r, i - |In(l)| - 1, x, k);
        InsertRepairBalance(Node(red, l, y, InsertAt(r, i - |In(l)| - 1, x)), true, h);
      }
  }

  /** Blackening the root of what insertion returns restores the red-black tree. */
  lemma BlackRoot<T>(t: Tree<T>, h: nat)
    requires t.Node? && (Rb(t, h) || AlmostRb(t, h))
    ensures Rb(Paint(t, false), if t.red then h + 1 else h)
    ensures In(Paint(t, false)) == In(t)
  {}
}
