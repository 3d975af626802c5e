/** Every step of a running hub keeps everything in order, so every run does. */
module HubSafety {
  import opened Options
  import opened SidPool
  import opened HubState
  import opened HubLife
  import opened HubNames

  /** Only the state of the user changes, and only the queue and the pool with it. */
  lemma DisconnectFrame(h: Hub, id: UserId)
    requires id in h.users
    ensures var h' := Disconnect(h, id);
            && h'.uman == h.uman && h'.next == h.next
            && h'.users == h.users[id := h.users[id].(state := h'.users[id].state)]
            && (h'.users[id].state == h.users[id].state || h'.users[id].state.Cleanup?)
  {}

  lemma DisconnectIsGood(h: Hub, id: UserId)
    requires Good(h) && id in h.users
    ensures Good(Disconnect(h, id))
  {
    var h' := Disconnect(h, id);
    DisconnectKeepsLives(h, id);
    DisconnectFrame(h, id);
    SumsDependOnShares(h.uman.list, h.users, h'.users);
    assert Indexed(h');
    if !Disconnecting(h.users[id]) {
      var h1 := Become(h, id, Cleanup);
      assert Stage(Look(h, id));
      BecomeKeepsSids(h, id, Cleanup);
      if h.users[id].state.Normal? {
        PostKeepsSids(h1, Event(Quit, id));
      } else {
        ScheduleKeepsSids(h1, id);
      }
    }
  }

  lemma BecomeKeepsSids(h: Hub, id: UserId, s: UserState)
    requires Fifo(h.queue) && SidsAgree(h) && id in h.users && !s.Protocol?
    ensures SidsAgree(Become(h, id, s))
    ensures forall u :: Ending(Become(h, id, s), u) == Ending(h, u)
  {
    var h' := Become(h, id, s);
    forall i: nat ensures SlotAgrees(h', i) { assert SlotAgrees(h, i); }
    forall u ensures SidAgrees(h', u) { assert SidAgrees(h, u); }
  }

  lemma LogInKeepsIndexed(h: Hub, id: UserId)
    requires Indexed(h) && id in h.users
    ensures Indexed(LogIn(h, id))
  {}

  lemma LogInKeepsTotals(h: Hub, id: UserId)
    requires Totals(h) && id in h.users
    ensures Totals(LogIn(h, id))
  {
    var users' := Become(h, id, Normal).users;
    SumsDependOnShares(h.uman.list, h.users, users');
    SumsAppend(h.uman.list, id, users');
  }

  lemma LogInKeepsSids(h: Hub, id: UserId)
    requires Fifo(h.queue) && SidsAgree(h) && id in h.users
    ensures SidsAgree(LogIn(h, id))
  {
    var h1, h' := Become(h, id, Normal), LogIn(h, id);
    BecomeKeepsSids(h, id, Normal);
    forall i: nat ensures SlotAgrees(h', i) { assert SlotAgrees(h1, i); }
    forall u ensures SidAgrees(h', u) { assert SidAgrees(h1, u); }
  }

  lemma LogInKeepsBooks(h: Hub, id: UserId)
    requires Fifo(h.queue) && Indexed(h) && SidsAgree(h) && Totals(h) && id in h.users
    ensures Indexed(LogIn(h, id)) && SidsAgree(LogIn(h, id)) && Totals(LogIn(h, id))
  {
    LogInKeepsIndexed(h, id);
    LogInKeepsTotals(h, id);
    LogInKeepsSids(h, id);
  }

  lemma RemoveKeepsBooks(h: Hub, id: UserId)
    requires Fifo(h.queue) && NoRepeats(h.uman.list) && Indexed(h) && SidsAgree(h) && Totals(h)
    requires id in h.users && id in h.uman.list
    ensures var h' := h.(uman := Remove(h.uman, id, h.users[id]));
            Indexed(h') && SidsAgree(h') && Totals(h')
  {
    var h' := h.(uman := Remove(h.uman, id, h.users[id]));
    WithoutDropsOne(h.uman.list, id);
    SumsWithout(h.uman.list, id, h.users);
    forall i: nat ensures SlotAgrees(h', i) { assert SlotAgrees(h, i); }
    forall u ensures SidAgrees(h', u) { assert SidAgrees(h, u); }
  }

  lemma CheckIsGood(h: Hub, id: UserId)
    requires Good(h) && id in h.users
    ensures CheckLoggedIn(h, id).Some? ==>
      && Good(CheckLoggedIn(h, id).value) && id in CheckLoggedIn(h, id).value.users
      && CheckLoggedIn(h, id).value.users[id] == h.users[id] && CheckLoggedIn(h, id).value.uman == h.uman
  {
    var nick := h.users[id].nick;
    if nick in h.uman.nicks {
      DisconnectIsGood(h, h.uman.nicks[nick]);
      DisconnectFrame(h, h.uman.nicks[nick]);
    }
  }

  lemma AcceptIsGood(h: Hub, id: UserId, a: Attempt)
    requires Good(h) && id in h.users && Connecting(h.users[id]) && !h.users[id].info
    ensures Good(InfoAccept(h, id, a))
  {
    hide SumSize, SumFiles, Of, Finished, WellFormed;
    var me := h.users[id].(size := Given(a.size, h.users[id].size), files := Given(a.files, h.users[id].files));
    var h1, h' := h.(users := h.users[id := me]), InfoAccept(h, id, a);
    UnlistedByStage(h, id);
    TouchIsGood(h, id, me);
    AcceptKeepsLives(h, id, a);
    if !a.limitsOk {
      DisconnectIsGood(h1, id);
    } else {
      var h2 := h.(users := h.users[id := me.(info := true)]);
      SumsDependOnShares(h.uman.list, h1.users, h2.users);
      forall i: nat ensures SlotAgrees(h2, i) { assert SlotAgrees(h1, i); }
      forall u ensures SidAgrees(h2, u) { assert SidAgrees(h1, u); }
      PostKeepsSids(h2, Event(Join(a.auth), id));
    }
  }

  lemma ChecksAreGood(h: Hub, id: UserId, a: Attempt)
    requires Good(h) && id in h.users && Connecting(h.users[id]) && !h.users[id].info
    ensures Good(InfoChecks(h, id, a))
  {
    CheckIsGood(h, id);
    var c := if a.aclOk then CheckLoggedIn(h, id) else None;
    if c.None? {
      DisconnectIsGood(h, id);
    } else if !a.admitted {
      DisconnectIsGood(c.value, id);
    } else {
      AcceptIsGood(c.value, id, a);
    }
  }

  lemma NickIsGood(h: Hub, id: UserId, a: Attempt)
    requires Good(h) && id in h.users && Connecting(h.users[id]) && !h.users[id].info
    ensures Good(InfoNick(h, id, a))
  {
    UnlistedByStage(h, id);
    if !a.nickOk {
      DisconnectIsGood(h, id);
    } else {
      TouchIsGood(h, id, h.users[id].(nick := a.nick));
      ChecksAreGood(h.(users := h.users[id := h.users[id].(nick := a.nick)]), id, a);
    }
  }

  lemma LoginIsGood(h: Hub, id: UserId, a: Attempt)
    requires Good(h) && id in h.users && Connecting(h.users[id])
    ensures Good(InfoLogin(h, id, a))
  {
    if !h.users[id].info {
      UnlistedByStage(h, id);
      if !a.flagsOk || !a.cidOk {
        DisconnectIsGood(h, id);
      } else {
        TouchIsGood(h, id, h.users[id].(cid := a.cid));
        NickIsGood(h.(users := h.users[id := h.users[id].(cid := a.cid)]), id, a);
      }
    }
  }

  /** An update by a logged-in user keeps everything in order, the totals among it, also when it is then refused. */
  lemma UpdateIsGood(h: Hub, id: UserId, size: Option<nat>, files: Option<nat>, ok: bool)
    requires Good(h) && id in h.users && h.users[id].state.Normal?
    ensures Good(InfoUpdate(h, id, size, files, ok))
  {
    hide SumSize, SumFiles, Moved, Given;
    var me := h.users[id];
    var h1 := InfoUpdate(h, id, size, files, true);
    UpdateKeepsLives(h, id, size, files, true);
    assert Stage(Look(h, id));
    SumsUpdate(h.uman.list, id, h.users, h1.users[id]);
    MovedTotal(SumSize(h.uman.list, h.users), me.size, size);
    MovedTotal(SumFiles(h.uman.list, h.users), me.files, files);
    forall i: nat ensures SlotAgrees(h1, i) { assert SlotAgrees(h, i); }
    forall u ensures SidAgrees(h1, u) { assert SidAgrees(h, u); }
    if !ok { DisconnectIsGood(h1, id); }
  }

  lemma MovedTotal(sum: nat, before: nat, share: Option<nat>)
    ensures Moved(sum % WORD, before, share) == (sum - before + Given(share, before)) % WORD
  {}

  lemma HandshakeIsGood(h: Hub, id: UserId, sid: nat)
    requires Good(h) && id in h.users && h.users[id].state.Protocol? && Allocates(h.sids, sid)
    ensures Good(Handshake(h, id, sid))
  {
    var h' := Handshake(h, id, sid);
    HandshakeKeepsLives(h, id, sid);
    UnlistedByStage(h, id);
    SumsDependOnShares(h.uman.list, h.users, h'.users);
    assert SidAgrees(h, id);
    assert Stage(Look(h, id));
    if sid != 0 {
      ProbeStaysInTable(h.sids.slots, h.sids.count + 1, sid);
      TakeKeepsWellFormed(h.sids, sid, id);
    }
    forall u ensures Ending(h', u) == Ending(h, u) {}
    forall i: nat ensures SlotAgrees(h', i) { assert SlotAgrees(h, i); }
    forall u ensures SidAgrees(h', u) { assert SidAgrees(h, u); }
  }

  lemma ConnectIsGood(h: Hub)
    requires Good(h) && Offered(h, Connect)
    ensures Good(Act(h, Connect))
  {
    var h' := Act(h, Connect);
    ConnectKeepsLives(h);
    assert Stage(Look(h, h.next));
    SumsDependOnShares(h.uman.list, h.users, h'.users);
    forall i: nat ensures SlotAgrees(h', i) { assert SlotAgrees(h, i); }
    forall u ensures SidAgrees(h', u) { assert SidAgrees(h, u); }
  }

  lemma ChokeIsGood(h: Hub, id: UserId, on: bool)
    requires Good(h) && id in h.users
    ensures Good(h.(users := h.users[id := h.users[id].(choke := on)]))
  {
    var h' := h.(users := h.users[id := h.users[id].(choke := on)]);
    TouchKeepsLives(h, id, h.users[id].(choke := on));
    SumsDependOnShares(h.uman.list, h.users, h'.users);
    forall i: nat ensures SlotAgrees(h', i) { assert SlotAgrees(h, i); }
    forall u ensures SidAgrees(h', u) { assert SidAgrees(h, u); }
  }

  lemma LockIsGood(h: Hub, a: Action)
    requires Good(h) && Offered(h, a) && (a.Lock? || a.Unlock?)
    ensures Good(Act(h, a))
  {
    var h' := Act(h, a);
    LockKeepsLives(h, a);
    assert Pending(h'.queue) == Pending(h.queue);
    forall i: nat ensures SlotAgrees(h', i) { assert SlotAgrees(h, i); }
    forall u ensures SidAgrees(h', u) { assert SidAgrees(h, u); }
  }

  /** Taking a join or a quit off the queue changes nobody's end. */
  lemma AdvanceKeepsBooks(h: Hub)
    requires Good(h) && Offered(h, Next) && !h.queue.q1[h.queue.pos].kind.Destroy?
    ensures Fifo(Advance(h).queue) && Indexed(Advance(h)) && SidsAgree(Advance(h)) && Totals(Advance(h))
    ensures forall u :: Ending(Advance(h), u) == Ending(h, u)
  {
    var h' := Advance(h);
    LookAfterAdvance(h, 0);
    forall u ensures Ending(h', u) == Ending(h, u) { LookAfterAdvance(h, u); }
    forall i: nat ensures SlotAgrees(h', i) { assert SlotAgrees(h, i); }
    forall u ensures SidAgrees(h', u) { assert SidAgrees(h, u); }
  }

  lemma NextJoinIsGood(h: Hub)
    requires Good(h) && Offered(h, Next) && Safe(h, Next) && h.queue.q1[h.queue.pos].kind.Join?
    ensures Good(Act(h, Next))
  {
    hide SumSize, SumFiles, Of, Finished, WellFormed;
    var e, h1, h' := h.queue.q1[h.queue.pos], Advance(h), Act(h, Next);
    NextKeepsLives(h);
    HeadOfQueue(h);
    AdvanceKeepsBooks(h);
    if !Disconnecting(h.users[e.user]) {
      if e.kind.auth {
        BecomeKeepsSids(h1, e.user, Verify);
        SumsDependOnShares(h.uman.list, h.users, h'.users);
      } else if NoDuplicate(h1, e.user) {
        LogInKeepsBooks(h1, e.user);
      } else {
        assert Stage(Look(h, e.user));
        RefuseKeepsBooks(h1, e.user);
      }
    }
  }

  /** Turning away a user who is connecting. */
  lemma RefuseKeepsBooks(h: Hub, id: UserId)
    requires Fifo(h.queue) && Indexed(h) && SidsAgree(h) && Totals(h) && id in h.users && Connecting(h.users[id]) && !Ending(h, id)
    ensures Indexed(Disconnect(h, id)) && SidsAgree(Disconnect(h, id)) && Totals(Disconnect(h, id))
  {
    BecomeKeepsSids(h, id, Cleanup);
    ScheduleKeepsSids(Become(h, id, Cleanup), id);
    DisconnectFrame(h, id);
    SumsDependOnShares(h.uman.list, h.users, Disconnect(h, id).users);
  }

  lemma NextQuitIsGood(h: Hub)
    requires Good(h) && Offered(h, Next) && Safe(h, Next) && h.queue.q1[h.queue.pos].kind.Quit?
    ensures Good(Act(h, Next))
  {
    hide SumSize, SumFiles, Of, Finished, WellFormed, Minus64;
    var e, h1, h' := h.queue.q1[h.queue.pos], Advance(h), Act(h, Next);
    NextKeepsLives(h);
    HeadOfQueue(h);
    AdvanceKeepsBooks(h);
    RemoveKeepsBooks(h1, e.user);
    var h2 := h1.(uman := Remove(h1.uman, e.user, h1.users[e.user]));
    assert !Ending(h, e.user);
    assert Ending(h2, e.user) == Ending(h1, e.user);
    ScheduleKeepsSids(h2, e.user);
  }

  lemma NextDestroyIsGood(h: Hub)
    requires Good(h) && Offered(h, Next) && Safe(h, Next) && h.queue.q1[h.queue.pos].kind.Destroy?
    ensures Good(Act(h, Next))
  {
    var e, h' := h.queue.q1[h.queue.pos], Act(h, Next);
    NextKeepsLives(h);
    HeadOfQueue(h);
    SumsDependOnShares(h.uman.list, h.users, h'.users);
    forall u ensures u != e.user ==> Ending(h', u) == Ending(h, u) { LookAfterNext(h, u); }
    forall i: nat ensures SlotAgrees(h', i) { assert SlotAgrees(h, i); }
    forall u ensures SidAgrees(h', u) { assert SidAgrees(h, u); }
  }

  // ----- Whole runs

  /** In a hub that is in order no action can meet a destroyed user. */
  lemma GoodIsSafe(h: Hub, a: Action)
    requires Good(h) && Offered(h, a)
    ensures Safe(h, a)
  {
    if a.Next? { NextIsSafe(h); }
  }

  /** Every step keeps everything in order. */
  lemma ActIsGood(h: Hub, a: Action)
    requires Good(h) && Offered(h, a)
    ensures Safe(h, a) && Good(Act(h, a))
  {
    GoodIsSafe(h, a);
    match a
    case Connect => ConnectIsGood(h);
    case Support(u, ok, sid) =>
      if h.users[u].state.Protocol? {
        if ok { HandshakeIsGood(h, u, sid); } else { DisconnectIsGood(h, u); }
      }
    case Info(u, at) =>
      if Connecting(h.users[u]) { LoginIsGood(h, u, at); }
      else if !Disconnecting(h.users[u]) { UpdateIsGood(h, u, at.size, at.files, at.limitsOk); }
    case Password(u, ok) =>
      if h.users[u].state.Verify? {
        if ok {
          PasswordKeepsLives(h, u);
          LogInKeepsBooks(h, u);
        } else {
          DisconnectIsGood(h, u);
        }
      }
    case Lose(u) => DisconnectIsGood(h, u);
    case Choke(u, on) => ChokeIsGood(h, u, on);
    case Lock => LockIsGood(h, a);
    case Next =>
      match h.queue.q1[h.queue.pos].kind {
        case Join(_) => NextJoinIsGood(h);
        case Quit => NextQuitIsGood(h);
        case Destroy => NextDestroyIsGood(h);
      }
    case Unlock => LockIsGood(h, a);
  }
}
