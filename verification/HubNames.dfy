/** Who is named where: the nick and CID indices, the session identifiers, and the running totals. */
module HubNames {
  import opened SidPool
  import opened HubState
  import opened HubLife

  /** The indices name listed users only, each under its own name. */
  ghost predicate Indexed(h: Hub) {
    && (forall n :: n in h.uman.nicks ==>
          var u := h.uman.nicks[n]; u in h.uman.list && u in h.users && h.users[u].nick == n)
    && (forall c :: c in h.uman.cids ==>
          var u := h.uman.cids[c]; u in h.uman.list && u in h.users && h.users[u].cid == c)
  }

  /** The user is scheduled for destruction. */
  ghost predicate Ending(h: Hub, u: UserId)
    requires h.queue.pos <= |h.queue.q1|
  {
    Destroy in Look(h, u).pending
  }

  /** Slot `i` of the pool is held by an existing user with that session identifier, until its destruction is scheduled. */
  ghost predicate SlotAgrees(h: Hub, i: nat)
    requires h.queue.pos <= |h.queue.q1|
  {
    1 <= i < |h.sids.slots| && h.sids.slots[i].Held? ==>
      var u := h.sids.slots[i].user; u in h.users && h.users[u].sid == i && !Ending(h, u)
  }

  /** A user with a session identifier holds its slot, until its destruction is scheduled. */
  ghost predicate SidAgrees(h: Hub, u: UserId)
    requires h.queue.pos <= |h.queue.q1|
  {
    u in h.users ==>
      && (h.users[u].sid != 0 && !Ending(h, u) ==> h.users[u].sid < |h.sids.slots| && h.sids.slots[h.users[u].sid] == Held(u))
      && (h.users[u].state.Protocol? ==> h.users[u].sid == 0)
  }

  ghost predicate SidsAgree(h: Hub)
    requires h.queue.pos <= |h.queue.q1|
  {
    WellFormed(h.sids) && (forall i: nat :: SlotAgrees(h, i)) && (forall u: UserId :: SidAgrees(h, u))
  }

  ghost function SumSize(list: seq<UserId>, users: map<UserId, User>): nat {
    if list == [] then 0
    else SumSize(list[1..], users) + if list[0] in users then users[list[0]].size else 0
  }

  ghost function SumFiles(list: seq<UserId>, users: map<UserId, User>): nat {
    if list == [] then 0
    else SumFiles(list[1..], users) + if list[0] in users then users[list[0]].files else 0
  }

  /** The counters agree with the list, the totals modulo 2^64. */
  ghost predicate Totals(h: Hub) {
    && h.uman.count == |h.uman.list|
    && h.uman.size == SumSize(h.uman.list, h.users) % WORD
    && h.uman.files == SumFiles(h.uman.list, h.users) % WORD
  }

  /** Everything a running hub keeps. */
  ghost predicate Good(h: Hub) {
    Lives(h) && Indexed(h) && SidsAgree(h) && Totals(h)
  }

  // ----- Sums over the list

  ghost predicate SameShares(list: seq<UserId>, users: map<UserId, User>, users': map<UserId, User>) {
    forall u :: u in list ==>
      && (u in users <==> u in users')
      && (u in users ==> users[u].size == users'[u].size && users[u].files == users'[u].files)
  }

  lemma {:induction false} SumsDependOnShares(list: seq<UserId>, users: map<UserId, User>, users': map<UserId, User>)
    requires SameShares(list, users, users')
    ensures SumSize(list, users) == SumSize(list, users') && SumFiles(list, users) == SumFiles(list, users')
  {
    if list != [] { SumsDependOnShares(list[1..], users, users'); }
  }

  lemma {:induction false} SumsAppend(list: seq<UserId>, u: UserId, users: map<UserId, User>)
    requires u in users
    ensures SumSize(list + [u], users) == SumSize(list, users) + users[u].size
    ensures SumFiles(list + [u], users) == SumFiles(list, users) + users[u].files
  {
    if list == [] {
      assert list + [u] == [u];
    } else {
      assert (list + [u])[1..] == list[1..] + [u];
      SumsAppend(list[1..], u, users);
    }
  }

  lemma {:induction false} SumsWithout(list: seq<UserId>, u: UserId, users: map<UserId, User>)
    requires u in list && u in users
    ensures SumSize(list, users) == SumSize(Without(list, u), users) + users[u].size
    ensures SumFiles(list, users) == SumFiles(Without(list, u), users) + users[u].files
  {
    if list[0] != u {
      SumsWithout(list[1..], u, users);
      assert Without(list, u)[1..] == Without(list[1..], u);
    }
  }

  lemma {:induction false} SumsUpdate(list: seq<UserId>, u: UserId, users: map<UserId, User>, user: User)
    requires NoRepeats(list) && u in list && u in users
    ensures SumSize(list, users[u := user]) == SumSize(list, users) - users[u].size + user.size
    ensures SumFiles(list, users[u := user]) == SumFiles(list, users) - users[u].files + user.files
  {
    if list[0] == u {
      SumsDependOnShares(list[1..], users, users[u := user]);
    } else {
      SumsUpdate(list[1..], u, users, user);
    }
  }

  // ----- What the stages tell

  lemma UnlistedByStage(h: Hub, id: UserId)
    requires Lives(h) && id in h.users && Connecting(h.users[id])
    ensures id !in h.uman.list
  {
    assert Stage(Look(h, id));
  }

  /** What the event at the head of the queue says about its user. */
  lemma HeadOfQueue(h: Hub)
    requires Lives(h) && Offered(h, Next)
    ensures var e := h.queue.q1[h.queue.pos];
            && e.user in h.users
            && (e.user in h.uman.list <==> e.kind.Quit?)
            && (!e.kind.Join? ==> h.users[e.user].state.Cleanup?)
            && (e.kind.Join? && !Disconnecting(h.users[e.user]) ==> Connecting(h.users[e.user]))
            && (e.kind.Destroy? ==> Ending(h, e.user))
            && (e.kind.Quit? ==> Look(h, e.user).pending == [Quit])
  {
    var e := h.queue.q1[h.queue.pos];
    LookAfterAdvance(h, e.user);
    assert Stage(Look(h, e.user));
    assert Look(h, e.user).pending[0] in Look(h, e.user).pending;
  }

  // ----- Steps that concern one unlisted user

  /** Changing names, shares or flags of a user who is not on the list. */
  lemma TouchIsGood(h: Hub, id: UserId, user: User)
    requires Good(h) && id in h.users && id !in h.uman.list
    requires user.info == h.users[id].info && user.state == h.users[id].state && user.sid == h.users[id].sid
    ensures Good(h.(users := h.users[id := user]))
  {
    var h' := h.(users := h.users[id := user]);
    TouchKeepsLives(h, id, user);
    SumsDependOnShares(h.uman.list, h.users, h'.users);
    forall i: nat ensures SlotAgrees(h', i) { assert SlotAgrees(h, i); }
    forall u ensures SidAgrees(h', u) { assert SidAgrees(h, u); }
  }

  /** Posting an event other than a destruction changes nobody's end. */
  lemma PostKeepsSids(h: Hub, e: Event)
    requires Fifo(h.queue) && SidsAgree(h) && !e.kind.Destroy?
    ensures Fifo(Post(h, e).queue) && SidsAgree(Post(h, e))
  {
    var h' := Post(h, e);
    PostIsFifo(h, e);
    forall u ensures Ending(h', u) == Ending(h, u) { LookAfterPost(h, e, u); }
    forall i: nat ensures SlotAgrees(h', i) { assert SlotAgrees(h, i); }
    forall u ensures SidAgrees(h', u) { assert SidAgrees(h, u); }
  }

  /** Scheduling a destruction frees the session identifier. */
  lemma ScheduleKeepsSids(h: Hub, id: UserId)
    requires Fifo(h.queue) && SidsAgree(h) && id in h.users && !Ending(h, id)
    ensures Fifo(ScheduleDestroy(h, id).queue) && SidsAgree(ScheduleDestroy(h, id))
  {
    var h', e, sid := ScheduleDestroy(h, id), Event(Destroy, id), h.users[id].sid;
    PostIsFifo(h, e);
    assert SidAgrees(h, id);
    if sid != 0 { ReleaseKeepsWellFormed(h.sids, sid); }
    forall u ensures Ending(h', u) == (Ending(h, u) || u == id) { LookAfterPost(h, e, u); }
    forall i: nat ensures SlotAgrees(h', i) { assert SlotAgrees(h, i); }
    forall u ensures SidAgrees(h', u) { assert SidAgrees(h, u); }
  }
}
