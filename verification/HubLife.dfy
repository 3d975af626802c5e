/** What every step of a running hub keeps: the order of events, the life of each user, and who is named where. */
module HubLife {
  import opened Options
  import opened SidPool
  import opened HubState

  // ----- The event queue

  /** The events that are still to be dispatched, in order. */
  ghost function Pending(q: Queue): seq<Event>
    requires q.pos <= |q.q1|
  {
    q.q1[q.pos..] + q.q2
  }

  /** Events leave the queue in the order in which they were posted. */
  ghost predicate Fifo(q: Queue) {
    && q.pos <= |q.q1|
    && q.dispatched + Pending(q) == q.posted
    && (!q.locked ==> q.pos == 0 && q.q2 == [])
  }

  lemma PostIsFifo(h: Hub, e: Event)
    requires Fifo(h.queue)
    ensures Fifo(Post(h, e).queue)
    ensures Pending(Post(h, e).queue) == Pending(h.queue) + [e]
    ensures Post(h, e).queue.dispatched == h.queue.dispatched
  {
    var q, r := h.queue, Post(h, e).queue;
    if q.locked {
      assert Pending(r) == Pending(q) + [e];
    } else {
      assert r.q1[r.pos..] == q.q1[q.pos..] + [e];
    }
    assert q.dispatched + (Pending(q) + [e]) == (q.dispatched + Pending(q)) + [e];
  }

  // ----- One user's events

  /** The kinds of the events that concern `u`. */
  ghost function Of(s: seq<Event>, u: UserId): seq<Kind> {
    if s == [] then []
    else Of(s[..|s| - 1], u) + if s[|s| - 1].user == u then [s[|s| - 1].kind] else []
  }

  lemma OfAppend(s: seq<Event>, e: Event, u: UserId)
    ensures Of(s + [e], u) == Of(s, u) + if e.user == u then [e.kind] else []
  {
    assert (s + [e])[..|s|] == s;
  }

  lemma {:induction false} OfConcat(s: seq<Event>, r: seq<Event>, u: UserId)
    ensures Of(s + r, u) == Of(s, u) + Of(r, u)
  {
    if r == [] {
      assert s + r == s;
    } else {
      var f := r[..|r| - 1];
      assert s + r == (s + f) + [r[|r| - 1]];
      OfAppend(s + f, r[|r| - 1], u);
      OfConcat(s, f, u);
    }
  }

  // ----- The life of one user

  /** All there is to know about where one user stands. */
  datatype View = View(user: Option<User>, born: bool, listed: bool, past: seq<Kind>, pending: seq<Kind>)

  ghost function Look(h: Hub, u: UserId): View
    requires h.queue.pos <= |h.queue.q1|
  {
    View(if u in h.users then Some(h.users[u]) else None, u < h.next, u in h.uman.list,
         Of(h.queue.dispatched, u), Of(Pending(h.queue), u))
  }

  ghost predicate Joined(s: seq<Kind>) {
    s == [Join(false)] || s == [Join(true)]
  }

  /** The complete story of a user that is gone: perhaps a join, then perhaps a quit, and the destruction last. */
  ghost predicate Finished(s: seq<Kind>) {
    || s == [Destroy]
    || (|s| == 2 && s[0].Join? && s[1] == Destroy)
    || (|s| == 3 && s[0].Join? && s[1] == Quit && s[2] == Destroy)
  }

  /** The stages of a user's life. */
  ghost predicate Stage(v: View) {
    match v.user
    case None => !v.listed && v.pending == [] && (if v.born then Finished(v.past) else v.past == [])
    case Some(u) =>
      v.born &&
      match u.state
      case Protocol => !v.listed && v.past == [] && if u.info then Joined(v.pending) else v.pending == []
      case Identify => !v.listed && v.past == [] && if u.info then Joined(v.pending) else v.pending == []
      case Verify => !v.listed && u.info && v.past == [Join(true)] && v.pending == []
      case Normal => v.listed && u.info && Joined(v.past) && v.pending == []
      case Cleanup =>
        if v.listed then Joined(v.past) && v.pending == [Quit]
        else v.pending != [] && Quit !in v.pending && v.pending[|v.pending| - 1] == Destroy && Finished(v.past + v.pending)
      case Disconnected => false
  }

  ghost predicate NoRepeats(s: seq<UserId>) {
    forall i, j :: 0 <= i < j < |s| ==> s[i] != s[j]
  }

  ghost predicate Lives(h: Hub) {
    Fifo(h.queue) && NoRepeats(h.uman.list) && forall u: UserId :: Stage(Look(h, u))
  }

  // ----- What posting does to the view of a user

  lemma LookAfterPost(h: Hub, e: Event, u: UserId)
    requires Fifo(h.queue)
    ensures Fifo(Post(h, e).queue)
    ensures Look(Post(h, e), u) == Look(h, u).(pending := Look(h, u).pending + if e.user == u then [e.kind] else [])
  {
    PostIsFifo(h, e);
    OfAppend(Pending(h.queue), e, u);
  }

  /** What losing its connection does to a user. */
  ghost function Lost(v: View): View
    requires v.user.Some?
  {
    if Disconnecting(v.user.value) then v
    else v.(user := Some(v.user.value.(state := Cleanup)),
            pending := v.pending + [if v.user.value.state.Normal? then Quit else Destroy])
  }

  lemma LostStage(v: View)
    requires Stage(v) && v.user.Some?
    ensures Stage(Lost(v))
  {
    var w := Lost(v);
    if !Disconnecting(v.user.value) && !v.listed {
      assert w.pending[|w.pending| - 1] == Destroy;
      assert w.past + w.pending == (v.past + v.pending) + [Destroy];
    }
  }

  lemma LookAfterDisconnect(h: Hub, id: UserId, u: UserId)
    requires Fifo(h.queue) && id in h.users
    ensures Fifo(Disconnect(h, id).queue)
    ensures Look(Disconnect(h, id), u) == if u != id then Look(h, u) else Lost(Look(h, u))
  {
    hide Of, Release;
    var h1 := Become(h, id, Cleanup);
    LookAfterPost(h1, Event(if h.users[id].state.Normal? then Quit else Destroy, id), u);
  }

  lemma DisconnectKeepsLives(h: Hub, id: UserId)
    requires Lives(h) && id in h.users
    ensures Lives(Disconnect(h, id))
  {
    forall u ensures Stage(Look(Disconnect(h, id), u)) {
      LookAfterDisconnect(h, id, u);
      assert Stage(Look(h, u));
      if u == id { LostStage(Look(h, u)); }
    }
    LookAfterDisconnect(h, id, id);
  }

  lemma {:induction false} WithoutDropsOne(s: seq<UserId>, u: UserId)
    requires NoRepeats(s)
    ensures NoRepeats(Without(s, u))
    ensures forall x :: x in Without(s, u) <==> x in s && x != u
    ensures |Without(s, u)| == |s| - if u in s then 1 else 0
  {
    if s != [] && s[0] != u {
      WithoutDropsOne(s[1..], u);
      assert s == [s[0]] + s[1..];
      assert s[0] !in s[1..];
    }
  }

  lemma LogInKeepsLives(h: Hub, id: UserId)
    requires Fifo(h.queue) && NoRepeats(h.uman.list) && id in h.users && !Disconnecting(h.users[id])
    requires id !in h.uman.list && h.users[id].info && id < h.next
    requires Joined(Look(h, id).past) && Look(h, id).pending == []
    requires forall u: UserId :: u != id ==> Stage(Look(h, u))
    ensures Lives(LogIn(h, id))
  {
    forall u ensures Stage(Look(LogIn(h, id), u)) {
      assert u != id ==> Look(LogIn(h, id), u) == Look(h, u);
    }
  }

  /** The queue with the event at its head taken off. */
  ghost function Advance(h: Hub): Hub
    requires h.queue.pos < |h.queue.q1|
  {
    h.(queue := h.queue.(pos := h.queue.pos + 1, dispatched := h.queue.dispatched + [h.queue.q1[h.queue.pos]]))
  }

  lemma LookAfterAdvance(h: Hub, u: UserId)
    requires Fifo(h.queue) && h.queue.locked && h.queue.pos < |h.queue.q1|
    ensures Fifo(Advance(h).queue)
    ensures var e, v, w := h.queue.q1[h.queue.pos], Look(h, u), Look(Advance(h), u);
            if e.user == u then
              v.pending == [e.kind] + w.pending && w == v.(past := v.past + [e.kind], pending := v.pending[1..])
            else w == v
  {
    var e, q, r := h.queue.q1[h.queue.pos], h.queue, Advance(h).queue;
    assert q.q1[q.pos..] == [e] + r.q1[r.pos..];
    assert Pending(q) == [e] + Pending(r);
    assert q.dispatched + ([e] + Pending(r)) == (q.dispatched + [e]) + Pending(r);
    OfConcat([e], Pending(r), u);
    OfAppend([], e, u);
    assert [] + [e] == [e];
    OfAppend(q.dispatched, e, u);
  }

  /** No event is dispatched for a user that has been destroyed. */
  lemma NextIsSafe(h: Hub)
    requires Lives(h) && h.queue.locked && h.queue.pos < |h.queue.q1|
    ensures h.queue.q1[h.queue.pos].user in h.users
  {
    LookAfterAdvance(h, h.queue.q1[h.queue.pos].user);
    assert Stage(Look(h, h.queue.q1[h.queue.pos].user));
  }

  /** What dispatching the first of its pending events does to a user. */
  ghost function Dispatched(v: View, duplicate: bool): View
    requires v.user.Some? && v.pending != []
  {
    var k, u := v.pending[0], v.user.value;
    var w := v.(past := v.past + [k], pending := v.pending[1..]);
    match k
    case Join(auth) =>
      if Disconnecting(u) then w
      else if auth then w.(user := Some(u.(state := Verify)))
      else if duplicate then Lost(w)
      else w.(user := Some(u.(state := Normal)), listed := true)
    case Quit => w.(listed := false, pending := w.pending + [Destroy])
    case Destroy => w.(user := None)
  }

  lemma DispatchedStage(v: View, duplicate: bool)
    requires Stage(v) && v.user.Some? && v.pending != []
    ensures Stage(Dispatched(v, duplicate))
  {
    var w := Dispatched(v, duplicate);
    assert v.past + v.pending == (v.past + [v.pending[0]]) + v.pending[1..];
    if v.user.value.state.Cleanup? {
      if v.listed {
        assert w.past + w.pending == [v.past[0], Quit, Destroy];
      } else if v.pending[0].Destroy? {
        assert (v.past + v.pending)[|v.past|] == Destroy;
        assert |v.pending| == 1;
        assert w.past + [] == w.past;
      } else {
        assert v.pending[0] in v.pending;
        assert w.pending == [Destroy];
      }
    } else {
      assert w.user.value.state.Cleanup? ==> w.past + w.pending == [v.pending[0], Destroy];
    }
  }

  /** The view after `Next`, once the effect of the dispatcher on the advanced queue is known. */
  lemma LookAfterNext(h: Hub, u: UserId)
    requires Fifo(h.queue) && NoRepeats(h.uman.list) && Offered(h, Next) && Safe(h, Next)
    ensures var e, h' := h.queue.q1[h.queue.pos], Act(h, Next);
            && Fifo(h'.queue)
            && (u != e.user ==> Look(h', u) == Look(h, u))
            && (u == e.user ==>
                  && Look(h, u).pending != [] && Look(h, u).pending[0] == e.kind
                  && Look(h', u) == Dispatched(Look(h, u), !NoDuplicate(h, u)))
  {
    hide Of, Pending, Without;
    var e, h1 := h.queue.q1[h.queue.pos], Advance(h);
    LookAfterAdvance(h, u);
    match e.kind
    case Join(auth) => LookAfterJoin(h1, e.user, auth, u);
    case Quit =>
      WithoutDropsOne(h.uman.list, e.user);
      LookAfterPost(h1.(uman := Remove(h1.uman, e.user, h1.users[e.user])), Event(Destroy, e.user), u);
    case Destroy =>
  }

  lemma LookAfterJoin(h: Hub, id: UserId, auth: bool, u: UserId)
    requires Fifo(h.queue) && id in h.users
    ensures var v, h' := Look(h, u), Dispatch(h, Event(Join(auth), id));
            && Fifo(h'.queue)
            && Look(h', u) ==
               if u != id || Disconnecting(h.users[u]) then v
               else if auth then v.(user := Some(h.users[u].(state := Verify)))
               else if NoDuplicate(h, u) then v.(user := Some(h.users[u].(state := Normal)), listed := true)
               else Lost(v)
  {
    if !Disconnecting(h.users[id]) && !auth && !NoDuplicate(h, id) {
      LookAfterDisconnect(h, id, u);
    }
  }

  lemma NextKeepsLives(h: Hub)
    requires Lives(h) && Offered(h, Next) && Safe(h, Next)
    ensures Lives(Act(h, Next))
  {
    hide Of, Finished, Joined;
    var e, h' := h.queue.q1[h.queue.pos], Act(h, Next);
    forall u ensures Stage(Look(h', u)) {
      assert Stage(Look(h, u));
      LookAfterNext(h, u);
      if u == e.user { DispatchedStage(Look(h, u), !NoDuplicate(h, u)); }
    }
    LookAfterNext(h, e.user);
    assert Stage(Look(h, e.user));
    WithoutDropsOne(h.uman.list, e.user);
  }

  /** Nothing a user's stage depends on changes when other fields of the user do. */
  lemma TouchKeepsLives(h: Hub, id: UserId, user: User)
    requires Lives(h) && id in h.users && user.info == h.users[id].info
    requires user.state == h.users[id].state || (h.users[id].state.Protocol? && user.state.Identify?)
    ensures Lives(h.(users := h.users[id := user]))
  {
    var h' := h.(users := h.users[id := user]);
    forall u ensures Stage(Look(h', u)) {
      assert Stage(Look(h, u));
    }
  }

  lemma AcceptKeepsLives(h: Hub, id: UserId, a: Attempt)
    requires Lives(h) && id in h.users && Connecting(h.users[id]) && !h.users[id].info
    ensures Lives(InfoAccept(h, id, a))
  {
    var me := h.users[id].(size := Given(a.size, h.users[id].size), files := Given(a.files, h.users[id].files));
    if !a.limitsOk {
      TouchKeepsLives(h, id, me);
      DisconnectKeepsLives(h.(users := h.users[id := me]), id);
    } else {
      forall u ensures Stage(Look(InfoAccept(h, id, a), u)) {
        AcceptedStage(h, id, a, u);
      }
      LookAfterPost(h.(users := h.users[id := me.(info := true)]), Event(Join(a.auth), id), id);
    }
  }

  lemma AcceptedStage(h: Hub, id: UserId, a: Attempt, u: UserId)
    requires Lives(h) && id in h.users && Connecting(h.users[id]) && !h.users[id].info && a.limitsOk
    ensures Stage(Look(InfoAccept(h, id, a), u))
  {
    var me := h.users[id].(size := Given(a.size, h.users[id].size), files := Given(a.files, h.users[id].files), info := true);
    var v, w := Look(h, u), Look(InfoAccept(h, id, a), u);
    assert Stage(v);
    LookAfterPost(h.(users := h.users[id := me]), Event(Join(a.auth), id), u);
    if u == id {
      assert w == v.(user := Some(me), pending := v.pending + [Join(a.auth)]);
    } else {
      assert v.pending + [] == v.pending;
      assert w == v;
    }
  }

  lemma UpdateKeepsLives(h: Hub, id: UserId, size: Option<nat>, files: Option<nat>, ok: bool)
    requires Lives(h) && id in h.users
    ensures Lives(InfoUpdate(h, id, size, files, ok))
  {
    var user := h.users[id].(size := Given(size, h.users[id].size), files := Given(files, h.users[id].files));
    var h0 := h.(users := h.users[id := user]);
    TouchKeepsLives(h, id, user);
    var h1 := InfoUpdate(h, id, size, files, true);
    assert Lives(h1) by {
      forall u ensures Stage(Look(h1, u)) { assert Look(h1, u) == Look(h0, u); }
    }
    if !ok { DisconnectKeepsLives(h1, id); }
  }

  lemma ConnectKeepsLives(h: Hub)
    requires Lives(h) && Offered(h, Connect)
    ensures Lives(Act(h, Connect))
  {
    forall u ensures Stage(Look(Act(h, Connect), u)) {
      assert Stage(Look(h, u));
    }
  }

  lemma LockKeepsLives(h: Hub, a: Action)
    requires Lives(h) && Offered(h, a) && (a.Lock? || a.Unlock?)
    ensures Lives(Act(h, a))
  {
    var h' := Act(h, a);
    assert Pending(h'.queue) == Pending(h.queue);
    forall u ensures Stage(Look(h', u)) {
      assert Stage(Look(h, u));
    }
  }

  lemma HandshakeKeepsLives(h: Hub, id: UserId, sid: nat)
    requires Lives(h) && id in h.users && h.users[id].state.Protocol? && sid < |h.sids.slots|
    ensures Lives(Handshake(h, id, sid))
  {
    var h0 := h.(users := h.users[id := h.users[id].(sid := sid, state := Identify)]);
    TouchKeepsLives(h, id, h.users[id].(sid := sid, state := Identify));
    forall u ensures Stage(Look(Handshake(h, id, sid), u)) {
      assert Look(Handshake(h, id, sid), u) == Look(h0, u);
    }
  }

  lemma PasswordKeepsLives(h: Hub, id: UserId)
    requires Lives(h) && id in h.users && h.users[id].state.Verify?
    ensures Lives(LogIn(h, id))
  {
    assert Stage(Look(h, id));
    LogInKeepsLives(h, id);
  }
}
