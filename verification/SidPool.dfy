/** The pool of session identifiers, `src/adc/sid.c`. */
module SidPool {

  /** A slot of the pool's table: slot 0 is reserved for the hub. */
  datatype Slot<U> = Empty | Reserved | Held(user: U)

  /** A pool as a value: the table, whose length is the C code's `max`, and the running count. */
  datatype Pool<U> = Pool(count: nat, slots: seq<Slot<U>>)

  /** The number of slots in use by users. */
  ghost function Occupied<U>(slots: seq<Slot<U>>): nat {
    if slots == [] then 0 else Occupied(slots[..|slots| - 1]) + if slots[|slots| - 1].Held? then 1 else 0
  }

  ghost predicate WellFormed<U>(p: Pool<U>) {
    && |p.slots| >= 1
    && p.slots[0].Reserved?
    && (forall i :: 1 <= i < |p.slots| ==> !p.slots[i].Reserved?)
    && p.count == Occupied(p.slots)
  }

  lemma {:induction false} HeldUpdate<U>(slots: seq<Slot<U>>, i: nat, x: Slot<U>)
    requires i < |slots|
    ensures Occupied(slots[i := x]) == Occupied(slots) - (if slots[i].Held? then 1 else 0) + (if x.Held? then 1 else 0)
  {
    var n := |slots| - 1;
    if i == n {
      assert slots[i := x][..n] == slots[..n];
    } else {
      assert slots[i := x][..n] == slots[..n][i := x];
      HeldUpdate(slots[..n], i, x);
    }
  }

  /** If no slot behind the first is empty, all of them are held. */
  lemma {:induction false} HeldBound<U>(slots: seq<Slot<U>>)
    requires |slots| >= 1 && slots[0].Reserved? && forall i :: 1 <= i < |slots| ==> !slots[i].Reserved?
    ensures Occupied(slots) <= |slots| - 1
    ensures Occupied(slots) == |slots| - 1 <==> forall i :: 1 <= i < |slots| ==> slots[i].Held?
  {
    var n := |slots| - 1;
    if n == 0 {
      assert Occupied(slots[..0]) == 0;
    } else {
      HeldBound(slots[..n]);
    }
  }

  // ----- The probe

  /** The probe that starts at `n` stops at `m`: the first index from `n` on whose slot, modulo the table size, is empty. */
  ghost predicate ProbeStops<U>(slots: seq<Slot<U>>, n: nat, m: nat)
    requires |slots| >= 1
  {
    && n <= m && slots[m % |slots|].Empty?
    && forall j :: n <= j < m ==> !slots[j % |slots|].Empty?
  }

  /** There is an empty slot between `n` and the end of the table: the condition under which the probe does not wrap. */
  predicate RoomFrom<U>(slots: seq<Slot<U>>, n: nat) {
    exists j :: n <= j < |slots| && slots[j].Empty?
  }

  lemma Window(n: nat, max: nat, e: nat) returns (j: nat)
    requires e < max
    ensures n <= j < n + max && j % max == e
  {
    var q, r := n / max, n % max;
    assert n == max * q + r;
    var k := if e >= r then q else q + 1;
    j := max * k + e;
    assert max * (q + 1) == max * q + max;
    assert j % max == e by { ModOfSum(max, k, e); }
  }

  lemma MulMonotone(m: nat, a: nat, b: nat)
    requires a <= b
    ensures m * a <= m * b
  {}

  lemma ModOfSum(max: nat, k: nat, e: nat)
    requires e < max
    ensures (max * k + e) % max == e
  {
    var j := max * k + e;
    var q, r := j / max, j % max;
    assert j == max * q + r;
    if q < k {
      MulMonotone(max, q + 1, k);
    } else if q > k {
      MulMonotone(max, k + 1, q);
    }
  }

  /** Whenever the count leaves room, some slot other than the hub's is empty. */
  lemma RoomSomewhere<U>(p: Pool<U>) returns (e: nat)
    requires WellFormed(p) && p.count < |p.slots| - 1
    ensures 1 <= e < |p.slots| && p.slots[e].Empty?
  {
    HeldBound(p.slots);
    e :| 1 <= e < |p.slots| && !p.slots[e].Held?;
  }

  /** Whenever the count leaves room, the probe ends within one round of the table, at an empty slot other than 0. */
  method Probe<U>(table: array<Slot<U>>, ghost p: Pool<U>, n0: nat) returns (n: nat)
    requires p.slots == table[..] && WellFormed(p) && p.count < |p.slots| - 1
    ensures ProbeStops(p.slots, n0, n) && n < n0 + |p.slots| && n % |p.slots| != 0
  {
    n := n0;
    ghost var e := RoomSomewhere(p);
    ghost var stop := Window(n0, |p.slots|, e);
    while !table[n % table.Length].Empty?
      invariant n0 <= n <= stop
      invariant forall j :: n0 <= j < n ==> !p.slots[j % |p.slots|].Empty?
      decreases stop - n
    {
      n := n + 1;
    }
  }

  lemma InsideTable(j: nat, size: nat)
    requires j < size
    ensures j % size == j
  {}

  /**
   The probe tests the slot modulo the table size but the caller stores at the index itself.  The two agree exactly when
   there is room between the starting point and the end of the table.
   */
  lemma ProbeStaysInTable<U>(slots: seq<Slot<U>>, n: nat, m: nat)
    requires |slots| >= 1 && ProbeStops(slots, n, m)
    ensures m < |slots| <==> RoomFrom(slots, n)
    ensures m < |slots| ==> slots[m].Empty? && forall j :: n <= j < m ==> !slots[j].Empty?
  {
    if m < |slots| {
      InsideTable(m, |slots|);
      forall j | n <= j < m ensures !slots[j].Empty? { InsideTable(j, |slots|); }
    }
    if RoomFrom(slots, n) {
      var j :| n <= j < |slots| && slots[j].Empty?;
      InsideTable(j, |slots|);
    }
  }

  /**
   The probe does leave the table.  With three users' slots, taking two, freeing the first and taking another, each at the index where
   the probe stops, leads to a pool whose next probe stops at 5, outside the table of four, although a slot is free.
   */
  lemma ProbeLeavesTable<U>(a: U, b: U, c: U)
    ensures var p0 := Fresh<U>(3);
            var p1 := Take(p0, 1, a);
            var p2 := Take(p1, 2, b);
            var p3 := Release(p2, 1);
            var p4 := Take(p3, 3, c);
            && ProbeStops(p0.slots, p0.count + 1, 1) && ProbeStops(p1.slots, p1.count + 1, 2) && ProbeStops(p3.slots, p3.count + 1, 3)
            && p4 == Pool(2, [Reserved, Empty, Held(b), Held(c)])
            && p4.count < |p4.slots| - 1 && ProbeStops(p4.slots, p4.count + 1, 5) && 5 >= |p4.slots|
  {
    var p0 := Fresh<U>(3);
    assert p0.slots == [Reserved, Empty, Empty, Empty];
    var p1 := Take(p0, 1, a);
    assert p1.slots == [Reserved, Held(a), Empty, Empty];
    var p2 := Take(p1, 2, b);
    var p3 := Release(p2, 1);
    assert p3.slots == [Reserved, Empty, Held(b), Empty];
    var p4 := Take(p3, 3, c);
    assert p4.slots == [Reserved, Empty, Held(b), Held(c)];
    assert 1 % 4 == 1 && 2 % 4 == 2 && 3 % 4 == 3 && 4 % 4 == 0 && 5 % 4 == 1;
  }

  // ----- The pool's operations on values

  function Fresh<U>(max: nat): (p: Pool<U>)
    ensures |p.slots| == max + 1
  {
    Pool(0, [Reserved] + seq(max, _ => Empty))
  }

  /** What `sid_alloc` leaves behind when its probe stops at `n` inside the table. */
  function Take<U>(p: Pool<U>, n: nat, user: U): Pool<U>
    requires n < |p.slots|
  {
    Pool(p.count + 1, p.slots[n := Held(user)])
  }

  function Release<U>(p: Pool<U>, sid: nat): Pool<U>
    requires sid < |p.slots| && p.count > 0
  {
    Pool(p.count - 1, p.slots[sid := Empty])
  }

  lemma {:induction false} FreshHoldsNobody<U>(n: nat)
    ensures Occupied([Reserved] + seq(n, _ => Slot<U>.Empty)) == 0
  {
    var s := [Reserved] + seq(n, _ => Slot<U>.Empty);
    if n > 0 {
      FreshHoldsNobody<U>(n - 1);
      assert s[..n] == [Reserved] + seq(n - 1, _ => Slot<U>.Empty);
    } else {
      assert s[..0] == [];
    }
  }

  lemma FreshIsWellFormed<U>(max: nat)
    ensures WellFormed(Fresh<U>(max))
  {
    FreshHoldsNobody<U>(max);
  }

  lemma TakeKeepsWellFormed<U>(p: Pool<U>, n: nat, user: U)
    requires WellFormed(p) && 1 <= n < |p.slots| && p.slots[n].Empty?
    ensures WellFormed(Take(p, n, user))
  {
    HeldUpdate(p.slots, n, Held(user));
  }

  lemma {:induction false} SomebodyHeld<U>(slots: seq<Slot<U>>, i: nat)
    requires i < |slots| && slots[i].Held?
    ensures Occupied(slots) >= 1
  {
    if i < |slots| - 1 { SomebodyHeld(slots[..|slots| - 1], i); }
  }

  lemma ReleaseKeepsWellFormed<U>(p: Pool<U>, sid: nat)
    requires WellFormed(p) && 1 <= sid < |p.slots| && p.slots[sid].Held?
    ensures p.count > 0 && WellFormed(Release(p, sid))
  {
    SomebodyHeld(p.slots, sid);
    HeldUpdate(p.slots, sid, Empty);
  }

  /** Freeing leaves the pool in order if and only if the slot was in use. */
  lemma ReleaseExactly<U>(p: Pool<U>, sid: nat)
    requires WellFormed(p) && sid < |p.slots| && p.count > 0
    ensures WellFormed(Release(p, sid)) <==> p.slots[sid].Held?
  {
    HeldUpdate(p.slots, sid, Empty);
  }

  // ----- The pool in memory

  class SidTable<U> {
    var count: nat
    const table: array<Slot<U>>

    ghost function Value(): Pool<U>
      reads this, table
    {
      Pool(count, table[..])
    }

    constructor (max: nat)
      ensures fresh(table) && Value() == Fresh<U>(max) && WellFormed(Value())
    {
      count := 0;
      var initial := new Slot<U>[max + 1](_ => Empty);
      initial[0] := Reserved;
      table := initial;
      new;
      assert table[..] == Fresh<U>(max).slots;
      FreshIsWellFormed<U>(max);
    }

    /** `sid_alloc`: 0 when the pool is full; the probe must not wrap, since the index is used without the modulo. */
    method Alloc(user: U) returns (sid: nat)
      requires WellFormed(Value())
      requires count < table.Length - 1 ==> RoomFrom(table[..], count + 1)
      modifies this`count, table
      ensures WellFormed(Value())
      ensures old(count) >= table.Length - 1 ==> sid == 0 && Value() == old(Value())
      ensures old(count) < table.Length - 1 ==>
        && old(count) + 1 <= sid < table.Length && old(table[sid]).Empty? && Value() == Take(old(Value()), sid, user)
        && forall j :: old(count) + 1 <= j < sid ==> !old(table[j]).Empty?
    {
      if count >= table.Length - 1 {
        return 0;
      }
      ghost var p := Value();
      sid := Probe(table, p, count + 1);
      ProbeStaysInTable(p.slots, count + 1, sid);
      TakeKeepsWellFormed(p, sid, user);
      count := count + 1;
      table[sid] := Held(user);
    }

    /** `sid_free`: the slot is emptied and counted off, whether or not it was in use. */
    method Free(sid: nat)
      requires WellFormed(Value()) && sid < table.Length && count > 0
      modifies this`count, table
      ensures Value() == Release(old(Value()), sid)
      ensures WellFormed(Value()) <==> old(table[sid]).Held?
    {
      ReleaseExactly(Value(), sid);
      table[sid] := Empty;
      count := count - 1;
    }

    /** `sid_lookup` */
    method Lookup(sid: nat) returns (r: Slot<U>)
      requires WellFormed(Value())
      ensures r == if 1 <= sid < table.Length then table[sid] else Empty
      ensures !r.Reserved?
    {
      if sid == 0 || sid >= table.Length {
        return Empty;
      }
      r := table[sid];
    }
  }
}
