/** The timing wheel of `src/network/timeout.c`. */
module TimeoutQueue {
  import opened TimeoutList

  /** Two numbers less than `m` apart with the same residue are the same. */
  lemma SameResidue(a: nat, b: nat, m: nat)
    requires m > 0 && a % m == b % m && a <= b < a + m
    ensures a == b
  {
    var p, q := a / m, b / m;
    assert a == m * p + a % m && b == m * q + b % m;
    var d := q - p;
    assert b - a == m * d;
    assert d >= 1 ==> m * d >= m;
    assert d <= -1 ==> m * d < 0;
  }

  /** What a callback does to the queue: stop an event, or set it to fire some seconds from now. */
  datatype Op = Cancel(evt: TimeoutEvt) | Renew(evt: TimeoutEvt, seconds: nat)

  ghost function Touched(ops: seq<Op>): set<TimeoutEvt> {
    set o <- ops :: o.evt
  }

  /** Deadlines of events. */
  type Stamps = map<TimeoutEvt, nat>

  /** What a single op at the time `now` makes of the deadlines that wait. */
  ghost function Changed(m: Stamps, o: Op, now: nat): Stamps {
    if o.Cancel? then m - {o.evt} else m[o.evt := now + o.seconds]
  }

  /** The deadlines that wait after `ops`, if those of `m` waited before. */
  ghost function Renewed(m: Stamps, ops: seq<Op>, now: nat): Stamps {
    if ops == [] then m else Changed(Renewed(m, ops[..|ops| - 1], now), ops[|ops| - 1], now)
  }

  lemma {:induction false} RenewedConcat(m: Stamps, a: seq<Op>, b: seq<Op>, now: nat)
    ensures Renewed(m, a + b, now) == Renewed(Renewed(m, a, now), b, now)
  {
    if b == [] {
      assert a + b == a;
    } else {
      assert (a + b)[..|a + b| - 1] == a + b[..|b| - 1];
      RenewedConcat(m, a, b[..|b| - 1], now);
    }
  }

  lemma TouchedConcat(a: seq<Op>, b: seq<Op>)
    ensures Touched(a + b) == Touched(a) + Touched(b)
  {}

  /** What the `k`-th callback of a call does, given the script for the call. */
  function Script(script: seq<seq<Op>>, k: nat): seq<Op> {
    if k < |script| then script[k] else []
  }

  /** What the first `k` callbacks do, in order. */
  ghost function Log(script: seq<seq<Op>>, k: nat): seq<Op> {
    if k == 0 then [] else Log(script, k - 1) + Script(script, k - 1)
  }

  /** The fired events were scheduled, are due by `pos`, in the order of their deadlines, and each is there once. */
  ghost predicate InTurn(fired: seq<TimeoutEvt>, before: Stamps, pos: int) {
    && Distinct(fired)
    && (forall k :: 0 <= k < |fired| ==> fired[k] in before && before[fired[k]] <= pos)
    && (forall j, k :: 0 <= j < k < |fired| && fired[j] in before && fired[k] in before ==> before[fired[j]] <= before[fired[k]])
  }

  /** No event fired after a callback had stopped or renewed it. */
  ghost predicate Untouched(fired: seq<TimeoutEvt>, script: seq<seq<Op>>) {
    forall k :: 0 <= k < |fired| ==> fired[k] !in Touched(Log(script, k))
  }

  /** Every event that callbacks may touch. */
  ghost function Cast(script: seq<seq<Op>>): set<TimeoutEvt> {
    set k, o | 0 <= k < |script| && o in script[k] :: o.evt
  }

  class TimeoutQueue {
    var last: nat
    const max: nat
    var locked: bool
    const lock: TimeoutEvt
    const events: array<TimeoutEvt?>
    /** What the buckets and the waiting list hold, in order. */
    ghost var buckets: seq<seq<TimeoutEvt>>
    ghost var waiting: seq<TimeoutEvt>
    /** The events in the buckets, and every event the queue has to do with. */
    ghost var wheel: set<TimeoutEvt>
    ghost var members: set<TimeoutEvt>
    /** All deadlines in the wheel lie from `floor` up to, but not including, `ceiling`. */
    ghost var floor: nat
    ghost var ceiling: nat

    /** The buckets `b` hold the events `w`, each in the bucket of its deadline. */
    ghost predicate Filed(b: seq<seq<TimeoutEvt>>, w: set<TimeoutEvt>)
      reads this`floor, this`ceiling, w`timestamp
    {
      && max > 0 && |b| == max
      && (forall i :: 0 <= i < max ==> Elems(b[i]) <= w)
      && (forall i, e :: 0 <= i < max && e in b[i] ==> e.timestamp % max == i)
      && (forall e :: e in w ==> e in b[e.timestamp % max] && floor <= e.timestamp < ceiling)
    }

    ghost predicate WheelOk()
      reads this`buckets, this`wheel, this`floor, this`ceiling, events, wheel
    {
      && events.Length == max
      && Filed(buckets, wheel)
      && (forall i :: 0 <= i < max ==> ListAt(i))
    }

    /** The list of bucket `i` is linked as it should be. */
    ghost predicate ListAt(i: nat)
      requires i < |buckets| == events.Length
      reads this`buckets, events, Elems(buckets[i])
    {
      Bucket(buckets[i], events[i])
    }

    ghost predicate WaitOk()
      reads this`waiting, this`last, lock, Elems(waiting)
    {
      Waiting(waiting, lock) && forall e :: e in waiting ==> last <= e.timestamp < last + max
    }

    /** Every linked event is in the wheel or waits, and the deadlines fit around the time of the last call. */
    ghost predicate ClockOk()
      reads this, members
    {
      && wheel <= members && Elems(waiting) <= members && lock !in members && wheel !! Elems(waiting)
      && (forall e :: e in members && e.prev != null ==> e in wheel || e in waiting)
      && floor <= last + 1 && ceiling <= floor + max && ceiling <= last + max
      && (!locked ==> waiting == [] && floor == last && ceiling == last + max)
    }

    ghost predicate Valid()
      reads this, events, lock, members
    {
      ClockOk() && WheelOk() && WaitOk()
    }

    /** The deadlines of the wheel. */
    ghost function Deadlines(): Stamps
      reads this`wheel, wheel`timestamp
    {
      map e | e in wheel :: e.timestamp
    }

    /** The deadlines that wait. */
    ghost function Postponed(): Stamps
      reads this`waiting, Elems(waiting)`timestamp
    {
      map e | e in Elems(waiting) :: e.timestamp
    }

    lemma Sizes()
      requires WheelOk()
      ensures max > 0 && events.Length == |buckets| == max
    {}

    lemma Places()
      requires ClockOk()
      ensures wheel <= members && Elems(waiting) <= members && lock !in members && wheel !! Elems(waiting)
    {}

    lemma Lined()
      requires WaitOk()
      ensures Distinct(waiting) && lock !in waiting
    {}

    lemma Settled()
      requires ClockOk() && !locked
      ensures floor == last && ceiling == last + max && waiting == []
    {}

    lemma DeadlinesAre(m: Stamps)
      requires m.Keys == wheel && forall e :: e in wheel ==> e.timestamp == m[e]
      ensures Deadlines() == m
    {}

    lemma PostponedAre(m: Stamps)
      requires m.Keys == Elems(waiting) && forall e :: e in m ==> e.timestamp == m[e]
      ensures Postponed() == m
    {}

    /** `timeout_queue_initialize` */
    constructor (now: nat, max: nat)
      requires max > 0
      ensures Valid() && !locked && last == now && this.max == max && wheel == {} && members == {} && fresh(lock) && fresh(events)
    {
      last, locked := now, false;
      this.max := max;
      lock := new TimeoutEvt();
      events := new TimeoutEvt?[max](_ => null);
      buckets, waiting, wheel, members := seq(max, _ => []), [], {}, {};
      floor, ceiling := now, now + max;
    }

    /** A linked event is found by its `prev`: in the wheel it leads to another event, in the waiting list to the sentinel. */
    lemma Where(e: TimeoutEvt)
      requires Valid() && e in members
      ensures e in wheel ==> e.prev != null && e.prev != lock && events[e.timestamp % max] != null
      ensures e in waiting <==> e.prev == lock
      ensures e in wheel || e in waiting <==> e.prev != null
    {
      if e in wheel {
        var s := buckets[e.timestamp % max];
        assert ListAt(e.timestamp % max);
        var j :| 0 <= j < |s| && s[j] == e;
        assert s[|s| - 1] in s && (j > 0 ==> s[j - 1] in s);
      }
      if e in waiting {
        var j :| 0 <= j < |waiting| && waiting[j] == e;
      }
    }

    lemma FiledAdd(evt: TimeoutEvt, pos: nat)
      requires Filed(buckets, wheel) && evt.timestamp % max == pos && floor <= evt.timestamp < ceiling
      ensures Filed(buckets[pos := buckets[pos] + [evt]], wheel + {evt})
    {}

    lemma FiledDrop(pos: nat, k: nat)
      requires Filed(buckets, wheel) && pos < max && k < |buckets[pos]| && Distinct(buckets[pos])
      ensures Filed(buckets[pos := Drop(buckets[pos], k)], wheel - {buckets[pos][k]})
    {
      DropRemoves(buckets[pos], k);
      var b, evt := buckets[pos := Drop(buckets[pos], k)], buckets[pos][k];
      forall i | 0 <= i < max ensures Elems(b[i]) <= wheel - {evt} {
        if i != pos { FiledApart(i, pos); }
        assert evt in Elems(buckets[pos]);
      }
      forall e | e in wheel - {evt} ensures e in b[e.timestamp % max] {
        assert e.timestamp % max == pos ==> e in Elems(buckets[pos]);
      }
    }

    lemma FiledApart(i: nat, j: nat)
      requires Filed(buckets, wheel) && i < max && j < max && i != j
      ensures Elems(buckets[i]) !! Elems(buckets[j])
    {}

    /** The lists are linked as they should be, and no other bucket shares an event with bucket `pos`. */
    ghost predicate ListsApart(pos: nat)
      reads this`buckets, events, set i, e | 0 <= i < |buckets| && e in buckets[i] :: e
    {
      && pos < |buckets| == events.Length
      && (forall i :: 0 <= i < |buckets| ==> ListAt(i))
      && (forall i :: 0 <= i < |buckets| && i != pos ==> Elems(buckets[i]) !! Elems(buckets[pos]))
    }

    lemma Apart(pos: nat)
      requires WheelOk() && pos < max
      ensures ListsApart(pos)
    {
      forall i | 0 <= i < max && i != pos ensures Elems(buckets[i]) !! Elems(buckets[pos]) {
        FiledApart(i, pos);
      }
    }

    /** No event is the queue or its table. */
    lemma Foreign(s: seq<TimeoutEvt>)
      ensures forall o <- Elems(s) :: o as object != this && o as object != events
    {}

    /** Appending to the list of bucket `pos` leaves the other lists alone. */
    method AppendAt(evt: TimeoutEvt, pos: nat)
      requires ListsApart(pos) && forall i :: 0 <= i < |buckets| ==> evt !in Elems(buckets[i])
      modifies this`buckets, events, Elems(buckets[pos])`prev, Elems(buckets[pos])`next, evt`prev, evt`next
      ensures buckets == old(buckets)[pos := old(buckets)[pos] + [evt]] && evt.prev != null
      ensures forall i :: 0 <= i < |buckets| ==> ListAt(i)
    {
      hide Bucket;
      assert ListAt(pos) && evt !in Elems(buckets[pos]);
      Foreign(buckets[pos] + [evt]);
      var head := Append(events[pos], evt, buckets[pos]);
      events[pos] := head;
      buckets := buckets[pos := buckets[pos] + [evt]];
      forall i | 0 <= i < |buckets| ensures ListAt(i) {
        if i != pos {
          assert old(ListAt(i)) && evt !in old(Elems(buckets[i])) && old(Elems(buckets[i]) !! Elems(buckets[pos]));
          Foreign(buckets[i]);
          assert Bucket(old(buckets[i]), old(events[i]));
        }
      }
    }

    /** Unlinking from the list of bucket `pos` leaves the other lists alone. */
    method UnlinkAt(evt: TimeoutEvt, pos: nat, ghost k: nat)
      requires ListsApart(pos) && k < |buckets[pos]| && buckets[pos][k] == evt
      modifies this`buckets, events, Elems(buckets[pos])`prev, Elems(buckets[pos])`next
      ensures buckets == old(buckets)[pos := Drop(old(buckets)[pos], k)] && evt.prev == null
      ensures forall i :: 0 <= i < |buckets| ==> ListAt(i)
    {
      hide Bucket;
      assert ListAt(pos);
      HeadOf(buckets[pos], events[pos]);
      Foreign(Drop(buckets[pos], k));
      var head := Unlink(events[pos], evt, buckets[pos], k);
      events[pos] := head;
      buckets := buckets[pos := Drop(buckets[pos], k)];
      forall i | 0 <= i < |buckets| ensures ListAt(i) {
        if i != pos {
          assert old(ListAt(i)) && old(Elems(buckets[i]) !! Elems(buckets[pos]));
          Foreign(buckets[i]);
          assert Bucket(old(buckets[i]), old(events[i]));
        }
      }
    }

    /** The buckets hold nothing but the wheel. */
    lemma Within(evt: TimeoutEvt)
      requires Filed(buckets, wheel)
      ensures |buckets| == max > 0 && forall i :: 0 <= i < |buckets| ==> Elems(buckets[i]) <= wheel
      ensures evt !in wheel ==> forall i :: 0 <= i < |buckets| ==> evt !in Elems(buckets[i])
    {}

    /** Adding an event to the wheel. */
    method InsertWheel(evt: TimeoutEvt, pos: nat)
      requires WheelOk() && evt !in wheel && evt.timestamp % max == pos && floor <= evt.timestamp < ceiling
      modifies this`buckets, this`wheel, events, wheel`prev, wheel`next, evt`prev, evt`next
      ensures WheelOk() && wheel == old(wheel) + {evt} && evt.prev != null
    {
      hide Filed, ListAt, ListsApart;
      Within(evt);
      FiledAdd(evt, pos);
      Apart(pos);
      ghost var b, w := buckets[pos := buckets[pos] + [evt]], wheel + {evt};
      AppendAt(evt, pos);
      assert Filed(b, w);
      wheel := w;
      Within(evt);
    }

    lemma Find(evt: TimeoutEvt, pos: nat) returns (k: nat)
      requires WheelOk() && evt in wheel && evt.timestamp % max == pos
      ensures k < |buckets[pos]| && buckets[pos][k] == evt && Distinct(buckets[pos])
    {
      k :| 0 <= k < |buckets[pos]| && buckets[pos][k] == evt;
      assert ListAt(pos);
    }

    /** Taking an event out of the wheel. */
    method RemoveWheel(evt: TimeoutEvt, pos: nat)
      requires WheelOk() && evt in wheel && evt.timestamp % max == pos
      modifies this`buckets, this`wheel, events, wheel`prev, wheel`next
      ensures WheelOk() && wheel == old(wheel) - {evt} && evt.prev == null
    {
      hide Filed, ListAt, ListsApart;
      Within(evt);
      ghost var k := Find(evt, pos);
      FiledDrop(pos, k);
      Apart(pos);
      ghost var b, w := buckets[pos := Drop(buckets[pos], k)], wheel - {evt};
      UnlinkAt(evt, pos, k);
      assert Filed(b, w);
      wheel := w;
      Within(evt);
    }

    /** `timeout_queue_insert` */
    method Insert(evt: TimeoutEvt, seconds: nat)
      requires Valid() && seconds < max && evt != lock && evt.prev == null
      modifies this`buckets, this`waiting, this`wheel, this`members, events, lock, members, evt
      ensures Valid() && evt.timestamp == last + seconds && evt.prev != null
      ensures members == old(members) + {evt}
      ensures forall e :: e in members && e != evt ==> e.timestamp == old(e.timestamp)
      ensures locked ==> wheel == old(wheel) && waiting == old(waiting) + [evt]
      ensures !locked ==> wheel == old(wheel) + {evt} && waiting == old(waiting)
    {
      hide WheelOk, WaitOk;
      Stamp(evt, seconds);
      var pos := (last + seconds) % max;
      if locked {
        InsertLocked(evt);
      } else {
        InsertWheel(evt, pos);
      }
    }

    /** The deadline of an event that is in no list. */
    method Stamp(evt: TimeoutEvt, seconds: nat)
      requires Valid() && evt != lock && evt.prev == null
      modifies this`members, evt`timestamp, evt`next
      ensures Valid() && evt !in wheel && evt !in waiting && members == old(members) + {evt} && evt.timestamp == last + seconds
    {
      hide WheelOk, WaitOk, Filed;
      if evt in members { Where(evt); }
      assert evt !in wheel && evt !in Elems(waiting);
      evt.timestamp := last + seconds;
      evt.next := null;
      members := members + {evt};
      assert old(WheelOk()) && old(WaitOk());
    }

    method InsertLocked(evt: TimeoutEvt)
      requires Valid() && evt in members && evt !in wheel && evt !in waiting && last <= evt.timestamp < last + max && locked
      modifies this`waiting, lock`prev, lock`next, Elems(waiting)`next, evt`prev, evt`next
      ensures Valid() && waiting == old(waiting) + [evt] && evt.prev != null
    {
      hide WheelOk;
      Await(lock, evt, waiting);
      waiting := waiting + [evt];
      assert old(WheelOk());
    }

    method StopWaitingAt(evt: TimeoutEvt, ghost k: nat)
      requires WaitOk() && k < |waiting| && waiting[k] == evt
      modifies this`waiting, lock`prev, lock`next, Elems(waiting)`prev, Elems(waiting)`next
      ensures WaitOk() && waiting == Drop(old(waiting), k) && evt.prev == null
    {
      ghost var w := Drop(waiting, k);
      DropRemoves(waiting, k);
      assert forall e :: e in w ==> e in Elems(w);
      StopWaiting(lock, evt, waiting, k);
      waiting := w;
    }

    /** `timeout_queue_remove` for an event that waits */
    method RemoveLocked(evt: TimeoutEvt) returns (ghost k: nat)
      requires Valid() && evt in waiting
      modifies this`waiting, lock`prev, lock`next, Elems(waiting)`prev, Elems(waiting)`next
      ensures k < |old(waiting)| && old(waiting)[k] == evt && waiting == Drop(old(waiting), k)
      ensures Valid() && Elems(waiting) == old(Elems(waiting)) - {evt} && evt.prev == null
    {
      hide WheelOk, WaitOk;
      k :| 0 <= k < |waiting| && waiting[k] == evt;
      Lined();
      DropRemoves(waiting, k);
      StopWaitingAt(evt, k);
      assert old(WheelOk());
    }

    /** `timeout_queue_remove`: the event is in no list any more, whether or not it was in one. */
    method Remove(evt: TimeoutEvt)
      requires Valid() && evt != lock && (evt in members || evt.prev == null)
      modifies this`buckets, this`waiting, this`wheel, events, lock`prev, lock`next, members`prev, members`next
      ensures Valid() && evt.prev == null
      ensures wheel == old(wheel) - {evt} && Elems(waiting) == old(Elems(waiting)) - {evt}
    {
      hide WheelOk, WaitOk;
      Sizes();
      if evt in members { Where(evt); }
      var pos := evt.timestamp % max;
      var first := events[pos];
      if evt.prev == lock {
        ghost var _ := RemoveLocked(evt);
        return;
      }
      if first == null || evt.prev == null {
        return;
      }
      RemoveWheel(evt, pos);
    }

    /** `timeout_queue_reschedule` */
    method Reschedule(evt: TimeoutEvt, seconds: nat)
      requires Valid() && seconds < max && evt != lock && (evt in members || evt.prev == null)
      modifies this`buckets, this`waiting, this`wheel, this`members, events, lock, members, evt
      ensures Valid() && evt.timestamp == last + seconds && evt.prev != null
      ensures members == old(members) + {evt}
      ensures forall e :: e in members && e != evt ==> e.timestamp == old(e.timestamp)
      ensures locked ==> wheel == old(wheel) - {evt} && Elems(waiting) == old(Elems(waiting)) + {evt}
      ensures !locked ==> wheel == old(wheel) + {evt} && waiting == []
    {
      hide WheelOk, WaitOk, ClockOk;
      if evt in members { Where(evt); }
      Places();
      assert evt.prev == null ==> evt !in wheel && evt !in Elems(waiting);
      if evt.prev != null {
        Remove(evt);
      }
      ElemsAppend(waiting, evt);
      if !locked { Settled(); }
      Insert(evt, seconds);
    }

    // ----- Processing

    /** The rest of the waiting list from position `i` on, as the flush loop finds it. */
    ghost predicate Chain(w: seq<TimeoutEvt>, i: nat, evt: TimeoutEvt?)
      reads Elems(w)
    {
      && i <= |w| && evt == (if i < |w| then w[i] else null)
      && forall j :: i <= j < |w| ==> w[j].next == if j + 1 < |w| then w[j + 1] else null
    }

    /** One turn of the flush loop. */
    method FlushNext(evt: TimeoutEvt, ghost w: seq<TimeoutEvt>, ghost i: nat) returns (next: TimeoutEvt?)
      requires WheelOk() && Distinct(w) && i < |w| && Chain(w, i, evt) && evt !in wheel
      requires forall j :: i < j < |w| ==> w[j] !in wheel
      requires floor <= evt.timestamp < ceiling
      modifies this`buckets, this`wheel, events, wheel`prev, wheel`next, evt`prev, evt`next
      ensures WheelOk() && wheel == old(wheel) + {evt} && Chain(w, i + 1, next)
    {
      next := evt.next;
      var pos := evt.timestamp % max;
      InsertWheel(evt, pos);
    }

    /** The flush loop: the events of `w` enter the wheel one after the other. */
    method Flush(first: TimeoutEvt?, ghost w: seq<TimeoutEvt>)
      requires WheelOk() && Distinct(w) && Chain(w, 0, first) && Elems(w) !! wheel
      requires forall e :: e in w ==> floor <= e.timestamp < ceiling
      modifies this`buckets, this`wheel, events, wheel`prev, wheel`next, Elems(w)`prev, Elems(w)`next
      ensures WheelOk() && wheel == old(wheel) + Elems(w)
    {
      var evt := first;
      ghost var i := 0;
      while evt != null
        invariant WheelOk() && Chain(w, i, evt)
        invariant wheel == old(wheel) + Elems(w[..i])
        decreases |w| - i
      {
        forall j | i <= j < |w| ensures w[j] !in wheel { assert w[j] in Elems(w); }
        assert Elems(w[..i + 1]) == Elems(w[..i]) + {w[i]};
        evt := FlushNext(evt, w, i);
        i := i + 1;
      }
      assert w[..i] == w;
    }

    method FlushWaiting()
      requires Valid() && floor >= last
      modifies this`buckets, this`wheel, this`floor, this`ceiling, events, members`prev, members`next
      ensures WheelOk() && floor == last && ceiling == last + max && wheel == old(wheel) + Elems(waiting)
      ensures wheel <= members && LinkedInWheel()
    {
      hide WheelOk;
      assert Chain(waiting, 0, lock.next);
      Widen();
      Flush(lock.next, waiting);
    }

    ghost predicate LinkedInWheel()
      reads this`members, this`wheel, members`prev
    {
      forall e :: e in members && e.prev != null ==> e in wheel
    }

    /** The flush in terms of deadlines. */
    method Merge()
      requires Valid() && floor >= last
      modifies this`buckets, this`wheel, this`floor, this`ceiling, events, members`prev, members`next
      ensures WheelOk() && floor == last && ceiling == last + max && wheel == old(wheel) + Elems(waiting)
      ensures wheel <= members && LinkedInWheel()
      ensures Deadlines() == old(Deadlines()) + old(Postponed())
    {
      hide WheelOk, WaitOk, ClockOk;
      Places();
      ghost var m := Deadlines() + Postponed();
      FlushWaiting();
      DeadlinesAre(m);
    }

    /** `timeout_queue_unlock`: the waiting events enter the wheel. */
    method Unlock()
      requires Valid() && locked && floor >= last
      modifies this`locked, this`buckets, this`waiting, this`wheel, this`floor, this`ceiling, events
      modifies lock`prev, lock`next, members`prev, members`next
      ensures Valid() && !locked && wheel == old(wheel) + old(Elems(waiting))
      ensures Deadlines() == old(Deadlines()) + old(Postponed())
    {
      hide WheelOk, WaitOk, ClockOk;
      Places();
      Merge();
      ResetLock();
    }

    method ResetLock()
      requires WheelOk() && wheel <= members && lock !in members && LinkedInWheel() && floor == last && ceiling == last + max
      modifies this`locked, this`waiting, lock`prev, lock`next
      ensures Valid() && waiting == [] && !locked
    {
      hide Filed, ListAt;
      Within(lock);
      lock.next := null;
      lock.prev := null;
      waiting, locked := [], false;
      assert Filed(buckets, wheel);
      forall i | 0 <= i < max ensures ListAt(i) {
        assert old(ListAt(i)) && Elems(buckets[i]) <= wheel;
      }
    }

    /** The bounds that the deadlines of an unlocked queue keep. */
    ghost method Widen()
      requires WheelOk() && floor >= last && ceiling <= last + max
      modifies this`floor, this`ceiling
      ensures WheelOk() && floor == last && ceiling == last + max
    {
      floor, ceiling := last, last + max;
      forall i | 0 <= i < max ensures ListAt(i) { assert old(ListAt(i)); }
    }

    /** The ops of a callback concern events of this queue and keep to its span. */
    ghost predicate Fits(ops: seq<Op>)
      reads this`members
    {
      forall o :: o in ops ==> o.evt in members && (o.Renew? ==> o.seconds < max)
    }

    ghost predicate AllFit(script: seq<seq<Op>>)
      reads this`members
    {
      forall k :: 0 <= k < |script| ==> Fits(script[k])
    }

    /** An event is of this queue, or it is new to it and in no list. */
    ghost predicate Free(evt: TimeoutEvt)
      reads this`members, evt`prev
    {
      evt in members || (evt != lock && evt.prev == null)
    }

    /** One op, as far as the places of events are concerned. */
    method Move(o: Op)
      requires Valid() && locked && Fits([o])
      modifies this`buckets, this`waiting, this`wheel, this`members, events, lock, members
      ensures Valid() && members == old(members)
      ensures wheel == old(wheel) - {o.evt}
      ensures Elems(waiting) == if o.Cancel? then old(Elems(waiting)) - {o.evt} else old(Elems(waiting)) + {o.evt}
      ensures forall e :: e in members && e != o.evt ==> e.timestamp == old(e.timestamp)
      ensures o.Renew? ==> o.evt.timestamp == last + o.seconds
    {
      hide WheelOk, WaitOk, ClockOk;
      assert o in [o];
      Places();
      match o
      case Cancel(evt) => Remove(evt);
      case Renew(evt, seconds) => Reschedule(evt, seconds);
    }

    /** One op. */
    method Perform(o: Op)
      requires Valid() && locked && Fits([o])
      modifies this`buckets, this`waiting, this`wheel, this`members, events, lock, members
      ensures Valid() && members == old(members)
      ensures Deadlines() == old(Deadlines()) - {o.evt} && Postponed() == Changed(old(Postponed()), o, last)
    {
      hide WheelOk, WaitOk, ClockOk;
      Places();
      ghost var d, p := Deadlines() - {o.evt}, Changed(Postponed(), o, last);
      Move(o);
      DeadlinesAre(d);
      PostponedAre(p);
    }

    /** A callback while the queue is locked: what it touches leaves the wheel, and what it renews waits. */
    method Callback(ops: seq<Op>)
      requires Valid() && locked && Fits(ops)
      modifies this`buckets, this`waiting, this`wheel, this`members, events, lock, members
      ensures Valid() && members == old(members)
      ensures Deadlines() == old(Deadlines()) - Touched(ops) && Postponed() == Renewed(old(Postponed()), ops, last)
    {
      hide WheelOk, WaitOk, ClockOk;
      ghost var d, p := Deadlines(), Postponed();
      var i := 0;
      while i < |ops|
        invariant i <= |ops| && Valid() && members == old(members)
        invariant Deadlines() == d - Touched(ops[..i])
        invariant Postponed() == Renewed(p, ops[..i], last)
      {
        NextOp(d, p, ops, i, last);
        Perform(ops[i]);
        i := i + 1;
      }
      assert ops[..i] == ops;
    }

    /** One turn of the drain loop: the head of the bucket of `pos` fires. */
    method Fire(pos: nat, evt: TimeoutEvt, ops: seq<Op>)
      requires Valid() && locked && floor == pos && evt == events[pos % max] && Fits(ops)
      modifies this`buckets, this`waiting, this`wheel, this`members, events, lock, members
      ensures Valid() && members == old(members)
      ensures Deadlines() == old(Deadlines()) - {evt} - Touched(ops) && Postponed() == Renewed(old(Postponed()), ops, last)
    {
      hide WheelOk, WaitOk, ClockOk;
      Sizes();
      Places();
      DueHead(pos);
      ghost var d, p := Deadlines(), Postponed();
      Remove(evt);
      DeadlinesAre(d - {evt});
      PostponedAre(p);
      Callback(ops);
    }

    /** The head of the bucket of `floor` is due exactly then. */
    lemma DueHead(pos: nat)
      requires Valid() && floor == pos && events[pos % max] != null
      ensures events[pos % max] in wheel && events[pos % max] !in Elems(waiting) && events[pos % max].timestamp == pos
    {
      assert ListAt(pos % max);
      var b := buckets[pos % max];
      assert b[0] in b && b[0] in Elems(b);
      SameResidue(pos, b[0].timestamp, max);
    }

    /** Once the bucket of `floor` is empty, nothing is due any more. */
    lemma DueNone(pos: nat)
      requires Valid() && floor == pos && events[pos % max] == null
      ensures forall e :: e in wheel ==> e.timestamp > pos
    {
      assert ListAt(pos % max);
      forall e | e in wheel ensures e.timestamp > pos {
        assert e in buckets[e.timestamp % max];
      }
    }

    /** How far a call has come: what is left in the wheel and what waits, after `fired` and the callbacks so far. */
    ghost predicate Underway(fired: seq<TimeoutEvt>, before: Stamps, script: seq<seq<Op>>, pos: int)
      reads this`wheel, this`waiting, this`last, wheel`timestamp, Elems(waiting)`timestamp
    {
      && InTurn(fired, before, pos) && Untouched(fired, script)
      && Deadlines() == before - Elems(fired) - Touched(Log(script, |fired|))
      && Postponed() == Renewed(map[], Log(script, |fired|), last)
    }

    /** One event fires and its callback runs. */
    method FireNext(pos: nat, script: seq<seq<Op>>, fired0: seq<TimeoutEvt>, ghost before: Stamps) returns (fired: seq<TimeoutEvt>)
      requires Valid() && locked && Underway(fired0, before, script, pos) && floor == pos && AllFit(script)
      requires events[pos % max] != null
      modifies this`buckets, this`waiting, this`wheel, this`members, events, lock, members
      ensures Valid() && Underway(fired, before, script, pos) && members == old(members)
      ensures wheel < old(wheel)
    {
      hide WheelOk, WaitOk, ClockOk, InTurn, Untouched, Touched, Renewed, Log;
      Sizes();
      var evt := events[pos % max];
      var ops := Script(script, |fired0|);
      DueHead(pos);
      ghost var d := Deadlines();
      Progress(fired0, before, script, pos, evt, last);
      Fire(pos, evt, ops);
      fired := fired0 + [evt];
      Shrunk(d, evt, Touched(ops));
    }

    lemma Shrunk(d: Stamps, evt: TimeoutEvt, t: set<TimeoutEvt>)
      requires Deadlines() == d - {evt} - t && evt in d
      ensures wheel < d.Keys
    {
      assert Deadlines().Keys == wheel;
    }

    /** The inner loop: everything due at `pos` fires. */
    method Drain(pos: nat, script: seq<seq<Op>>, fired0: seq<TimeoutEvt>, ghost before: Stamps) returns (fired: seq<TimeoutEvt>)
      requires Valid() && locked && Underway(fired0, before, script, pos) && floor == pos && AllFit(script)
      modifies this`buckets, this`waiting, this`wheel, this`members, events, lock, members
      ensures Valid() && Underway(fired, before, script, pos) && members == old(members)
      ensures forall e :: e in wheel ==> e.timestamp > pos
    {
      hide WheelOk, WaitOk, ClockOk;
      Sizes();
      fired := fired0;
      while events[pos % max] != null
        invariant Valid() && Underway(fired, before, script, pos) && members == old(members)
        decreases wheel
      {
        fired := FireNext(pos, script, fired, before);
        Sizes();
      }
      DueNone(pos);
    }

    /** With everything at `floor` gone, the lower bound of the deadlines moves on. */
    ghost method Raise(pos: nat)
      requires Valid() && locked && floor == pos <= last && forall e :: e in wheel ==> e.timestamp > pos
      modifies this`floor
      ensures Valid() && floor == pos + 1
    {
      floor := pos + 1;
      forall i | 0 <= i < max ensures ListAt(i) { assert old(ListAt(i)); }
    }

    /** The beginning of a call: the queue is locked at the new time. */
    method Begin(now: nat)
      requires Valid() && !locked && last <= now
      modifies this`last, this`locked
      ensures Valid() && locked && last == now && waiting == []
    {
      last, locked := now, true;
      assert old(WheelOk());
    }

    lemma Onwards(fired: seq<TimeoutEvt>, before: Stamps, script: seq<seq<Op>>, pos: int, later: int)
      requires Underway(fired, before, script, pos) && pos <= later
      ensures Underway(fired, before, script, later)
    {}

    /** One second of the outer loop. */
    method DrainSecond(pos: nat, script: seq<seq<Op>>, fired0: seq<TimeoutEvt>, ghost before: Stamps) returns (fired: seq<TimeoutEvt>)
      requires Valid() && locked && Underway(fired0, before, script, (pos as int) - 1) && floor == pos <= last && AllFit(script)
      modifies this`buckets, this`waiting, this`wheel, this`members, this`floor, events, lock, members
      ensures Valid() && Underway(fired, before, script, pos) && members == old(members) && floor == pos + 1
    {
      hide WheelOk, WaitOk, ClockOk;
      Onwards(fired0, before, script, (pos as int) - 1, pos);
      fired := Drain(pos, script, fired0, before);
      Raise(pos);
    }

    /** The outer loop, over every second since the last call. */
    method DrainUpTo(start: nat, now: nat, script: seq<seq<Op>>, ghost before: Stamps) returns (fired: seq<TimeoutEvt>)
      requires Valid() && locked && Underway([], before, script, (start as int) - 1) && floor == start <= now == last && AllFit(script)
      modifies this`buckets, this`waiting, this`wheel, this`members, this`floor, events, lock, members
      ensures Valid() && Underway(fired, before, script, now) && members == old(members) && floor == now + 1
    {
      hide WheelOk, WaitOk, ClockOk;
      var pos := start;
      fired := [];
      while pos <= now
        invariant start <= pos <= now + 1 && floor == pos && members == old(members)
        invariant Valid() && Underway(fired, before, script, (pos as int) - 1)
      {
        fired := DrainSecond(pos, script, fired, before);
        pos := pos + 1;
      }
    }

    /** Events that callbacks bring in become events of this queue. */
    ghost method Enrol(script: seq<seq<Op>>)
      requires Valid() && forall e :: e in Cast(script) ==> Free(e)
      requires forall k, o :: 0 <= k < |script| && o in script[k] && o.Renew? ==> o.seconds < max
      modifies this`members
      ensures Valid() && members == old(members) + Cast(script) && AllFit(script)
    {
      members := members + Cast(script);
      assert old(WheelOk()) && old(WaitOk());
    }

    /** The locked part of a call. */
    method FireDue(now: nat, script: seq<seq<Op>>) returns (fired: seq<TimeoutEvt>)
      requires Valid() && !locked && last <= now && AllFit(script)
      modifies this`buckets, this`waiting, this`wheel, this`members, this`floor, this`last, this`locked, events, lock, members
      ensures Valid() && locked && Underway(fired, old(Deadlines()), script, now)
      ensures members == old(members) && floor == now + 1 && last == now
    {
      hide WheelOk, WaitOk, ClockOk;
      Settled();
      ghost var before := Deadlines();
      var start := last;
      Begin(now);
      assert Underway([], before, script, (start as int) - 1);
      fired := DrainUpTo(start, now, script, before);
    }

    /**
     `timeout_queue_process`: every scheduled event whose deadline has come fires, once, in the order of the deadlines,
     unless a callback stops or renews it first; nothing else fires; what callbacks renew waits for a later call.
     */
    method Process(now: nat, script: seq<seq<Op>>) returns (count: nat, fired: seq<TimeoutEvt>)
      requires Valid() && !locked && last <= now
      requires forall e :: e in Cast(script) ==> Free(e)
      requires forall k, o :: 0 <= k < |script| && o in script[k] && o.Renew? ==> o.seconds < max
      modifies this, events, lock, members, Cast(script)
      ensures Valid() && !locked && last == now && members == old(members) + Cast(script) && count == |fired|
      ensures InTurn(fired, old(Deadlines()), now) && Untouched(fired, script)
      ensures forall e :: e in old(Deadlines()) && old(Deadlines())[e] <= now ==> e in fired || e in Touched(Log(script, |fired|))
      ensures var log := Log(script, |fired|);
              Deadlines() == (old(Deadlines()) - Elems(fired) - Touched(log)) + Renewed(map[], log, now)
    {
      hide WheelOk, WaitOk, ClockOk;
      Enrol(script);
      fired := FireDue(now, script);
      count := |fired|;
      AllDue(fired, old(Deadlines()), script, now);
      Unlock();
    }

    /** What is left in the wheel after the call is not due. */
    lemma AllDue(fired: seq<TimeoutEvt>, before: Stamps, script: seq<seq<Op>>, now: nat)
      requires Valid() && Underway(fired, before, script, now) && floor == now + 1
      ensures forall e :: e in before && before[e] <= now ==> e in fired || e in Touched(Log(script, |fired|))
    {
      var d := Deadlines();
      assert d.Keys == wheel;
      forall e | e in d ensures before[e] > now {
        assert d[e] == e.timestamp;
      }
    }

    /** `timeout_queue_get_next_timeout` at the time of the last call: the seconds until the earliest deadline, between 1 and `max`. */
    method NextTimeout(now: nat) returns (seconds: nat)
      requires Valid() && !locked && now == last
      ensures wheel == {} ==> seconds == max
      ensures wheel != {} ==>
        exists e :: e in wheel && seconds == (if e.timestamp == now then 1 else e.timestamp - now) && forall f :: f in wheel ==> e.timestamp <= f.timestamp
    {
      seconds := 0;
      while events[(now + seconds) % max] == null && seconds < max
        invariant seconds <= max && forall e :: e in wheel ==> e.timestamp >= now + seconds
      {
        Later(now + seconds);
        seconds := seconds + 1;
      }
      if seconds < max {
        Earliest(now + seconds);
      }
      if seconds == 0 {
        return 1;
      }
    }

    lemma Later(at: nat)
      requires Valid() && events[at % max] == null && forall e :: e in wheel ==> e.timestamp >= at
      ensures forall e :: e in wheel ==> e.timestamp >= at + 1
    {
      assert ListAt(at % max);
      forall e | e in wheel ensures e.timestamp >= at + 1 {
        assert e in buckets[e.timestamp % max];
      }
    }

    lemma Earliest(at: nat)
      requires Valid() && floor <= at && events[at % max] != null && forall e :: e in wheel ==> e.timestamp >= at
      ensures exists e :: e in wheel && e.timestamp == at
    {
      assert ListAt(at % max);
      var e := events[at % max];
      assert e in buckets[at % max] && e in Elems(buckets[at % max]);
      SameResidue(at, e.timestamp, max);
    }
  }

  lemma HeadOf(s: seq<TimeoutEvt>, head: TimeoutEvt?)
    requires Bucket(s, head)
    ensures s != [] ==> head != null && head == s[0]
  {}

  /** What one more op of a callback amounts to. */
  lemma NextOp(d: Stamps, p: Stamps, ops: seq<Op>, i: nat, now: nat)
    requires i < |ops|
    ensures d - Touched(ops[..i + 1]) == d - Touched(ops[..i]) - {ops[i].evt}
    ensures Renewed(p, ops[..i + 1], now) == Changed(Renewed(p, ops[..i], now), ops[i], now)
  {
    var more := ops[..i + 1];
    assert more == ops[..i] + [ops[i]] && more[..i] == ops[..i];
    TouchedConcat(ops[..i], [ops[i]]);
    assert Touched([ops[i]]) == {ops[i].evt} by { assert ops[i] in [ops[i]]; }
  }

  lemma LessAndLess(m: Stamps, a: set<TimeoutEvt>, b: set<TimeoutEvt>, x: TimeoutEvt, c: set<TimeoutEvt>)
    ensures m - (a + {x}) - (b + c) == m - a - b - {x} - c
  {}

  lemma UntouchedNext(fired: seq<TimeoutEvt>, script: seq<seq<Op>>, evt: TimeoutEvt)
    requires Untouched(fired, script) && evt !in Touched(Log(script, |fired|))
    ensures Untouched(fired + [evt], script)
  {
    hide Touched, Log;
  }

  /** What one more fired event and its callback amount to. */
  lemma Progress(fired: seq<TimeoutEvt>, before: Stamps, script: seq<seq<Op>>, pos: int, evt: TimeoutEvt, now: nat)
    requires InTurn(fired, before, pos) && Untouched(fired, script)
    requires var d := before - Elems(fired) - Touched(Log(script, |fired|)); evt in d && d[evt] == pos
    ensures InTurn(fired + [evt], before, pos) && Untouched(fired + [evt], script)
    ensures var log, ops, more := Log(script, |fired|), Script(script, |fired|), Log(script, |fired| + 1);
            && before - Elems(fired + [evt]) - Touched(more) == before - Elems(fired) - Touched(log) - {evt} - Touched(ops)
            && Renewed(map[], more, now) == Renewed(Renewed(map[], log, now), ops, now)
  {
    hide InTurn, Untouched, Touched, Elems, Renewed;
    var log, ops := Log(script, |fired|), Script(script, |fired|);
    assert Log(script, |fired| + 1) == log + ops;
    TurnIsKept(fired, before, evt, pos);
    UntouchedNext(fired, script, evt);
    TouchedConcat(log, ops);
    RenewedConcat(map[], log, ops, now);
    ElemsAppend(fired, evt);
    LessAndLess(before, Elems(fired), Touched(log), evt, Touched(ops));
  }

  lemma TurnIsKept(fired: seq<TimeoutEvt>, before: Stamps, evt: TimeoutEvt, pos: int)
    requires InTurn(fired, before, pos) && evt in before && before[evt] == pos && evt !in Elems(fired)
    ensures InTurn(fired + [evt], before, pos)
  {}

  lemma ElemsAppend(s: seq<TimeoutEvt>, e: TimeoutEvt)
    ensures Elems(s + [e]) == Elems(s) + {e}
  {}

  lemma DropRemoves(s: seq<TimeoutEvt>, k: nat)
    requires Distinct(s) && k < |s|
    ensures Distinct(Drop(s, k)) && Elems(Drop(s, k)) == Elems(s) - {s[k]}
  {
    var r := Drop(s, k);
    assert forall j :: 0 <= j < |r| ==> r[j] == s[if j < k then j else j + 1];
    forall e | e in s && e != s[k] ensures e in r {
      var j :| 0 <= j < |s| && s[j] == e;
      assert r[if j < k then j else j - 1] == e;
    }
  }
}
