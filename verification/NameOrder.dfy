/** `uman_map_compare` of `src/core/usermanager.c`: the order in which the nick and CID trees keep their keys. */
module NameOrder {
  import opened RbNodes
  import opened RbOrder
  import RbTree

  /** `strcmp` on strings without NUL. */
  function Strcmp(a: string, b: string): int {
    if a == [] && b == [] then 0
    else if a == [] then -1
    else if b == [] then 1
    else if a[0] != b[0] then a[0] as int - b[0] as int
    else Strcmp(a[1..], b[1..])
  }

  lemma {:induction false} StrcmpZero(a: string, b: string)
    ensures Strcmp(a, b) == 0 <==> a == b
  {
    if a != [] && b != [] && a[0] == b[0] {
      StrcmpZero(a[1..], b[1..]);
      assert a == [a[0]] + a[1..] && b == [b[0]] + b[1..];
    }
  }

  lemma {:induction false} StrcmpAntisymmetric(a: string, b: string)
    ensures Strcmp(a, b) < 0 <==> Strcmp(b, a) > 0
  {
    if a != [] && b != [] && a[0] == b[0] { StrcmpAntisymmetric(a[1..], b[1..]); }
  }

  lemma {:induction false} StrcmpTransitive(a: string, b: string, c: string)
    requires Strcmp(a, b) < 0 && Strcmp(b, c) < 0
    ensures Strcmp(a, c) < 0
  {
    if a != [] && a[0] == b[0] == c[0] { StrcmpTransitive(a[1..], b[1..], c[1..]); }
  }

  /** The order of a dictionary: a proper start comes first, and otherwise the first difference decides. */
  lemma {:induction false} StrcmpIsLexicographic(a: string, b: string)
    ensures Strcmp(a, b) < 0 <==> exists k: nat :: Precedes(a, b, k)
  {
    if a != [] && b != [] && a[0] == b[0] {
      StrcmpIsLexicographic(a[1..], b[1..]);
      PrecedesStep(a, b);
    } else if a == [] && b != [] {
      assert Precedes(a, b, 0);
    } else if a != [] && b != [] && a[0] < b[0] {
      assert Precedes(a, b, 0);
    }
  }

  /** The two agree up to `k`, where `a` ends or has the smaller character. */
  predicate Precedes(a: string, b: string, k: nat) {
    k <= |a| && k < |b| && a[..k] == b[..k] && (k == |a| || a[k] < b[k])
  }

  lemma PrecedesStep(a: string, b: string)
    requires a != [] && b != [] && a[0] == b[0]
    ensures (exists k: nat :: Precedes(a, b, k)) <==> exists k: nat :: Precedes(a[1..], b[1..], k)
  {
    forall k: nat | Precedes(a, b, k) ensures k > 0 && Precedes(a[1..], b[1..], k - 1) {
      assert k > 0;
      assert a[1..][..k - 1] == a[..k][1..] && b[1..][..k - 1] == b[..k][1..];
    }
    forall k: nat | Precedes(a[1..], b[1..], k) ensures Precedes(a, b, k + 1) {
      assert a[..k + 1] == [a[0]] + a[1..][..k] && b[..k + 1] == [b[0]] + b[1..][..k];
    }
  }

  /** The trees of the user manager meet what the tree demands of its comparison. */
  lemma StrcmpIsTotalOrder()
    ensures TotalOrder(Strcmp)
  {
    forall a: string, b: string ensures (Strcmp(a, b) == 0 <==> a == b) && (Strcmp(a, b) < 0 <==> Strcmp(b, a) > 0) {
      StrcmpZero(a, b);
      StrcmpAntisymmetric(a, b);
    }
    forall a: string, b: string, c: string ensures Strcmp(a, b) < 0 && Strcmp(b, c) < 0 ==> Strcmp(a, c) < 0 {
      if Strcmp(a, b) < 0 && Strcmp(b, c) < 0 { StrcmpTransitive(a, b, c); }
    }
  }

  /** `rb_tree_create(uman_map_compare, ...)`: an empty index by name. */
  method NewIndex<V>() returns (t: RbTree.RbTree<string, V>)
    ensures fresh(t) && t.Valid() && t.Model() == map[] && Nodes(t.shape) == {}
  {
    StrcmpIsTotalOrder();
    t := new RbTree.RbTree(Strcmp);
  }
}
