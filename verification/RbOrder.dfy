/** What a sequence of cells in key order stands for: a finite map. */
module RbOrder {
  import opened RbNodes

  /** What the tree demands of its comparison function. */
  ghost predicate TotalOrder<K(!new)>(cmp: (K, K) -> int) {
    && (forall a, b :: cmp(a, b) == 0 <==> a == b)
    && (forall a, b {:trigger cmp(a, b), cmp(b, a)} :: cmp(a, b) < 0 <==> cmp(b, a) > 0)
    && (forall a, b, c {:trigger cmp(a, b), cmp(b, c), cmp(a, c)} :: cmp(a, b) < 0 && cmp(b, c) < 0 ==> cmp(a, c) < 0)
  }

  ghost predicate Sorted<K, V>(cmp: (K, K) -> int, s: seq<Cell<K, V>>) {
    forall i, j :: 0 <= i < j < |s| ==> cmp(s[i].key, s[j].key) < 0
  }

  /** The first `i` cells lie below `key`, the others do not, and only the first of these can carry `key` itself. */
  ghost predicate Cut<K, V>(cmp: (K, K) -> int, s: seq<Cell<K, V>>, key: K, i: nat) {
    && i <= |s|
    && (forall j :: 0 <= j < i ==> cmp(s[j].key, key) < 0)
    && (forall j :: i <= j < |s| ==> cmp(s[j].key, key) >= 0 && (cmp(s[j].key, key) == 0 ==> j == i && s[j].key == key))
  }

  /** The key is present, right behind the cut. */
  ghost predicate AtCut<K, V>(cmp: (K, K) -> int, s: seq<Cell<K, V>>, key: K, i: nat) {
    i < |s| && cmp(s[i].key, key) == 0
  }

  /** The map that the cells spell out. */
  ghost function Assoc<K, V>(s: seq<Cell<K, V>>): map<K, V> {
    if s == [] then map[] else Assoc(s[..|s| - 1])[s[|s| - 1].key := s[|s| - 1].value]
  }

  lemma {:induction false} AssocAt<K, V>(s: seq<Cell<K, V>>, k: K)
    ensures k in Assoc(s) <==> exists i :: 0 <= i < |s| && s[i].key == k
  {
    if s != [] {
      var r := s[..|s| - 1];
      AssocAt(r, k);
      if k in Assoc(r) {
        var i :| 0 <= i < |r| && r[i].key == k;
        assert s[i].key == k;
      }
    }
  }

  /** Without repeated keys, a map is told by its cells one by one. */
  ghost predicate DistinctKeys<K, V>(s: seq<Cell<K, V>>) {
    forall i, j :: 0 <= i < j < |s| ==> s[i].key != s[j].key
  }

  lemma {:induction false} AssocValue<K, V>(s: seq<Cell<K, V>>, i: nat)
    requires DistinctKeys(s) && i < |s|
    ensures s[i].key in Assoc(s) && Assoc(s)[s[i].key] == s[i].value
  {
    if i < |s| - 1 { AssocValue(s[..|s| - 1], i); }
  }

  ghost function Insert<T>(s: seq<T>, i: nat, x: T): seq<T>
    requires i <= |s|
  {
    s[..i] + [x] + s[i..]
  }

  ghost function Drop<T>(s: seq<T>, i: nat): seq<T>
    requires i < |s|
  {
    s[..i] + s[i + 1..]
  }

  lemma {:induction false} AssocInsert<K, V>(s: seq<Cell<K, V>>, i: nat, c: Cell<K, V>)
    requires i <= |s| && forall j :: 0 <= j < |s| ==> s[j].key != c.key
    ensures Assoc(Insert(s, i, c)) == Assoc(s)[c.key := c.value]
  {
    var r := Insert(s, i, c);
    if i == |s| {
      assert r[..|r| - 1] == s;
    } else {
      assert r[..|r| - 1] == Insert(s[..|s| - 1], i, c) && r[|r| - 1] == s[|s| - 1];
      AssocInsert(s[..|s| - 1], i, c);
    }
  }

  lemma {:induction false} AssocDrop<K, V>(s: seq<Cell<K, V>>, i: nat)
    requires DistinctKeys(s) && i < |s|
    ensures Assoc(Drop(s, i)) == Assoc(s) - {s[i].key}
  {
    var r := Drop(s, i);
    var f := s[..|s| - 1];
    if i == |s| - 1 {
      assert r == f;
      AssocAt(f, s[i].key);
      assert s[i].key !in Assoc(f);
    } else {
      assert r[..|r| - 1] == Drop(f, i) && r[|r| - 1] == s[|s| - 1];
      AssocDrop(f, i);
    }
  }

  lemma SortedKeysAreDistinct<K(!new), V>(cmp: (K, K) -> int, s: seq<Cell<K, V>>)
    requires TotalOrder(cmp) && Sorted(cmp, s)
    ensures DistinctKeys(s)
  {
    forall i, j | 0 <= i < j < |s| ensures s[i].key != s[j].key {
      assert cmp(s[i].key, s[j].key) < 0;
    }
  }

  /** In key order the cells below a key come first; behind them stands the key itself, if it is there at all. */
  lemma FindCut<K(!new), V>(cmp: (K, K) -> int, s: seq<Cell<K, V>>, key: K) returns (i: nat)
    requires TotalOrder(cmp) && Sorted(cmp, s)
    ensures Cut(cmp, s, key, i)
    ensures AtCut(cmp, s, key, i) ==> key in Assoc(s) && Assoc(s)[key] == s[i].value
    ensures !AtCut(cmp, s, key, i) ==> key !in Assoc(s) && forall j :: 0 <= j < |s| ==> s[j].key != key
  {
    i := 0;
    while i < |s| && cmp(s[i].key, key) < 0
      invariant 0 <= i <= |s|
      invariant forall j :: 0 <= j < i ==> cmp(s[j].key, key) < 0
    {
      i := i + 1;
    }
    forall j | i <= j < |s|
      ensures cmp(s[j].key, key) >= 0 && (cmp(s[j].key, key) == 0 ==> j == i && s[j].key == key)
    {
      assert i < j ==> cmp(s[i].key, s[j].key) < 0;
    }
    SortedKeysAreDistinct(cmp, s);
    if AtCut(cmp, s, key, i) {
      AssocValue(s, i);
    } else {
      forall j | 0 <= j < |s| ensures s[j].key != key {
        assert cmp(s[j].key, key) != 0;
      }
      AssocAt(s, key);
    }
  }

  lemma SortedInsert<K(!new), V>(cmp: (K, K) -> int, s: seq<Cell<K, V>>, i: nat, c: Cell<K, V>)
    requires TotalOrder(cmp) && Sorted(cmp, s) && Cut(cmp, s, c.key, i)
    requires forall j :: 0 <= j < |s| ==> s[j].key != c.key
    ensures Sorted(cmp, Insert(s, i, c))
  {
    var r := Insert(s, i, c);
    forall j | i <= j < |s| ensures cmp(c.key, s[j].key) < 0 {
      assert cmp(s[j].key, c.key) > 0;
    }
    forall j, k | 0 <= j < k < |r| ensures cmp(r[j].key, r[k].key) < 0 {
      assert r[j] == if j < i then s[j] else if j == i then c else s[j - 1];
      assert r[k] == if k < i then s[k] else if k == i then c else s[k - 1];
    }
  }

  lemma SortedDrop<K, V>(cmp: (K, K) -> int, s: seq<Cell<K, V>>, i: nat)
    requires Sorted(cmp, s) && i < |s|
    ensures Sorted(cmp, Drop(s, i))
  {
    var r := Drop(s, i);
    forall j, k | 0 <= j < k < |r| ensures cmp(r[j].key, r[k].key) < 0 {
      assert r[j] == s[if j < i then j else j + 1] && r[k] == s[if k < i then k else k + 1];
    }
  }

  /** What a map reads depends on the keys and values of the cells, not on the nodes that hold them. */
  lemma {:induction false} AssocIgnoresNodes<K, V>(s: seq<Cell<K, V>>, r: seq<Cell<K, V>>)
    requires |s| == |r| && forall i :: 0 <= i < |s| ==> s[i].key == r[i].key && s[i].value == r[i].value
    ensures Assoc(s) == Assoc(r)
  {
    if s != [] { AssocIgnoresNodes(s[..|s| - 1], r[..|r| - 1]); }
  }
}
