/** The intrusive lists of `src/network/timeout.c`. */
module TimeoutList {

  class TimeoutEvt {
    var timestamp: nat
    var prev: TimeoutEvt?
    var next: TimeoutEvt?

    /** `timeout_evt_initialize` */
    constructor ()
      ensures prev == null && next == null
    {
      timestamp, prev, next := 0, null, null;
    }
  }

  ghost predicate Distinct(s: seq<TimeoutEvt>) {
    forall i, j :: 0 <= i < j < |s| ==> s[i] != s[j]
  }

  ghost function Elems(s: seq<TimeoutEvt>): set<TimeoutEvt> {
    set e <- s
  }

  /** A bucket: linked forwards and ended by null, linked backwards, and the head's `prev` leads to the tail. */
  ghost predicate Bucket(s: seq<TimeoutEvt>, head: TimeoutEvt?)
    reads Elems(s)
  {
    && Distinct(s)
    && (if s == [] then head == null else head == s[0] && s[0].prev == s[|s| - 1] && s[|s| - 1].next == null)
    && (forall j :: 1 <= j < |s| ==> s[j].prev == s[j - 1])
    && (forall j :: 0 <= j < |s| - 1 ==> s[j].next == s[j + 1])
  }

  /** The waiting list: linked forwards only, every `prev` leads to the sentinel, which knows both ends. */
  ghost predicate Waiting(s: seq<TimeoutEvt>, lock: TimeoutEvt)
    reads Elems(s), lock
  {
    && Distinct(s) && lock !in s
    && (if s == [] then lock.next == null && lock.prev == null
        else lock.next == s[0] && lock.prev == s[|s| - 1] && s[|s| - 1].next == null)
    && (forall j :: 0 <= j < |s| ==> s[j].prev == lock)
    && (forall j :: 0 <= j < |s| - 1 ==> s[j].next == s[j + 1])
  }

  ghost function Drop(s: seq<TimeoutEvt>, k: nat): seq<TimeoutEvt>
    requires k < |s|
  {
    s[..k] + s[k + 1..]
  }

  /** Appending at the tail, found through the head. */
  method Append(first: TimeoutEvt?, evt: TimeoutEvt, ghost s: seq<TimeoutEvt>) returns (head: TimeoutEvt)
    requires Bucket(s, first) && evt !in s
    modifies Elems(s)`prev, Elems(s)`next, evt`prev, evt`next
    ensures Bucket(s + [evt], head) && evt.prev != null
  {
    if first != null {
      first.prev.next := evt;
      evt.prev := first.prev;
      first.prev := evt;
      head := first;
    } else {
      head := evt;
      evt.prev := evt;
    }
    evt.next := null;
  }

  /** Taking an event out of a bucket. */
  method Unlink(first: TimeoutEvt, evt: TimeoutEvt, ghost s: seq<TimeoutEvt>, ghost k: nat) returns (head: TimeoutEvt?)
    requires Bucket(s, first) && k < |s| && s[k] == evt
    modifies Elems(s)`prev, Elems(s)`next
    ensures Bucket(Drop(s, k), head) && evt.prev == null && evt.next == null
  {
    head := first;
    assert k > 0 ==> evt.prev == s[k - 1] && s[k - 1] in s;
    assert k < |s| - 1 ==> evt.next == s[k + 1] && s[k + 1] in s;
    if first == evt {
      if first.prev != first {
        head := first.next;
        head.prev := evt.prev;
      } else {
        head := null;
      }
    } else if evt == first.prev {
      first.prev := evt.prev;
      evt.prev.next := null;
    } else {
      evt.prev.next := evt.next;
      evt.next.prev := evt.prev;
    }
    evt.prev := null;
    evt.next := null;
  }

  /** `timeout_queue_insert_locked` */
  method Await(lock: TimeoutEvt, evt: TimeoutEvt, ghost s: seq<TimeoutEvt>)
    requires Waiting(s, lock) && evt !in s && evt != lock
    modifies Elems(s)`next, evt`prev, evt`next, lock`prev, lock`next
    ensures Waiting(s + [evt], lock)
  {
    evt.prev := lock;
    evt.next := null;
    if lock.prev != null {
      lock.prev.next := evt;
      lock.prev := evt;
    } else {
      lock.next := evt;
      lock.prev := evt;
    }
  }

  /** `timeout_queue_remove_locked` */
  method StopWaiting(lock: TimeoutEvt, evt: TimeoutEvt, ghost s: seq<TimeoutEvt>, ghost k: nat)
    requires Waiting(s, lock) && k < |s| && s[k] == evt
    modifies Elems(s)`prev, Elems(s)`next, lock`prev, lock`next
    ensures Waiting(Drop(s, k), lock) && evt.prev == null && evt.next == null
  {
    if lock.next == evt {
      lock.next := evt.next;
      if lock.prev == evt {
        lock.prev := evt.next;
      }
    } else {
      var prev: TimeoutEvt? := null;
      var it := lock.next;
      ghost var i, after := 0, evt.next;
      assert k < |s| - 1 ==> s[k].next == s[k + 1];
      assert after == null <==> k == |s| - 1;
      while it != null
        invariant i <= |s| && it == (if i < |s| then s[i] else null)
        invariant i < k ==> forall j :: 0 <= j < |s| ==> s[j].next == old(s[j].next)
        invariant i >= k ==> forall j :: 0 <= j < |s| ==> s[j].next == if j == k - 1 then after else old(s[j].next)
        invariant lock.next == s[0]
        invariant lock.prev == if i >= k == |s| - 1 then s[k - 1] else s[|s| - 1]
        invariant forall j :: 0 <= j < |s| ==> s[j].prev == lock
        decreases |s| - i
      {
        prev := it;
        it := it.next;
        i := i + 1;
        if it == evt {
          prev.next := it.next;
          if prev.next == null {
            lock.prev := prev;
          }
        }
      }
    }
    evt.prev := null;
    evt.next := null;
  }
}
