/**
 The hub in memory: the handlers of a running hub.  Each carries out its step of `HubState`, on a table of users, the two lists of
 the event queue, the user manager with its trees, and the table of session identifiers.
 */
module HubServer {
  import opened Options
  import opened SidPool
  import opened HubState
  import opened HubLife
  import opened HubNames
  import opened HubSafety
  import opened HubMoves
  import UserManager

  class HubServer {
    var users: map<UserId, User>
    var next: UserId
    // the event queue
    var locked: bool
    var q1: seq<Event>
    var q2: seq<Event>
    ghost var pos: nat
    ghost var posted: seq<Event>
    ghost var dispatched: seq<Event>
    const uman: UserManager.UserManager
    const sids: SidTable<UserId>

    ghost function Repr(): set<object>
      reads this, uman, uman.nicks`shape, uman.cids`shape
    {
      {this, sids, sids.table} + uman.Repr()
    }

    /** The user manager is in order and shares nothing with the rest of the hub. */
    ghost predicate Valid()
      reads Repr(), uman, uman.nicks, uman.cids
    {
      uman.Valid() && {this, sids, sids.table} !! uman.Repr()
    }

    ghost function State(): Hub
      reads this, sids, sids.table, uman, uman.nicks`shape, uman.cids`shape
    {
      Hub(users, next, Queue(locked, q1, pos, q2, posted, dispatched), uman.Value(), sids.Value())
    }

    /** Whatever has come to the user manager is new. */
    twostate predicate Grown()
      reads this, uman, uman.nicks`shape, uman.cids`shape
    {
      forall o <- uman.Repr() :: o in old(uman.Repr()) || fresh(o)
    }

    constructor (maxUsers: nat)
      ensures Valid() && State() == Start(maxUsers) && fresh(Repr())
    {
      hide UserManager.UserManager.Valid, UserManager.UserManager.Value, UserManager.UserManager.Repr, SidTable.Value, Fresh, WellFormed;
      users, next := map[], 0;
      locked, q1, q2, pos, posted, dispatched := false, [], [], 0, [], [];
      uman := new UserManager.UserManager();
      sids := new SidTable<UserId>(maxUsers);
    }

    // ----- Steps that several handlers share

    /** `event_queue_post` */
    method PostEvent(e: Event)
      requires Valid()
      modifies this
      ensures Valid() && State() == Post(old(State()), e)
    {
      hide UserManager.UserManager.Valid, UserManager.UserManager.Value;
      if locked {
        q2 := q2 + [e];
      } else {
        q1 := q1 + [e];
      }
      posted := posted + [e];
    }

    /** `user_set_state` */
    method SetUserState(u: UserId, s: UserState)
      requires Valid() && u in users
      modifies this
      ensures Valid() && State() == Become(old(State()), u, s)
    {
      hide UserManager.UserManager.Valid, UserManager.UserManager.Value;
      var user := users[u];
      if !((user.state.Cleanup? && !s.Disconnected?) || user.state.Disconnected?) {
        user := user.(state := s);
      }
      users := users[u := user];
    }

    /** The user's session identifier, if it has one, is in use. */
    ghost predicate HoldsSid(u: UserId)
      reads this, sids, sids.table
    {
      u in users && WellFormed(sids.Value()) &&
      (users[u].sid != 0 ==> users[u].sid < sids.table.Length && sids.table[users[u].sid].Held?)
    }

    /** `hub_schedule_destroy_user` */
    method ScheduleDestroyUser(u: UserId)
      requires Valid() && HoldsSid(u)
      modifies this, sids, sids.table
      ensures Valid() && State() == ScheduleDestroy(old(State()), u)
    {
      hide UserManager.UserManager.Valid, UserManager.UserManager.Value;
      PostEvent(Event(Destroy, u));
      var sid := users[u].sid;
      if sid != 0 {
        ReleaseKeepsWellFormed(sids.Value(), sid);
        uman.ReprAllocated();
        sids.Free(sid);
      }
    }

    /** `hub_disconnect_user` */
    method DisconnectUser(u: UserId)
      requires Valid() && u in users && (!Disconnecting(users[u]) ==> HoldsSid(u))
      modifies this, sids, sids.table
      ensures Valid() && State() == Disconnect(old(State()), u)
    {
      hide UserManager.UserManager.Valid, UserManager.UserManager.Value;
      if Disconnecting(users[u]) {
        return;
      }
      var needNotify := users[u].state.Normal?;
      SetUserState(u, Cleanup);
      if needNotify {
        PostEvent(Event(Quit, u));
      } else {
        ScheduleDestroyUser(u);
      }
    }

    /** `on_login_success`: the user becomes normal and enters the list and both trees. */
    method LoginSucceeded(u: UserId)
      requires Valid() && u in users
      modifies Repr()
      ensures Valid() && Grown() && State() == LogIn(old(State()), u)
    {
      hide UserManager.UserManager.Valid, UserManager.UserManager.Value;
      uman.ReprAllocated();
      SetUserState(u, Normal);
      uman.Add(u, users[u]);
    }

    lemma GoodHolds(u: UserId)
      requires Good(State()) && u in users && !Ending(State(), u)
      ensures HoldsSid(u)
    {
      assert SidAgrees(State(), u);
    }

    lemma GoodHoldsUntilCleanup(u: UserId)
      requires Good(State()) && u in users
      ensures !Disconnecting(users[u]) ==> HoldsSid(u) && !Ending(State(), u)
    {
      assert Stage(Look(State(), u));
      if !Disconnecting(users[u]) { GoodHolds(u); }
    }

    // ----- The event queue

    /** `hub_event_dispatcher` for the event that has just been taken off the queue */
    method DispatchEvent(e: Event)
      requires Valid() && e.user in users
      requires e.kind.Quit? ==> HoldsSid(e.user)
      requires e.kind.Join? && !Disconnecting(users[e.user]) ==> HoldsSid(e.user)
      modifies Repr()
      ensures Valid() && Grown() && State() == Dispatch(old(State()), e)
    {
      hide UserManager.UserManager.Valid, UserManager.UserManager.Value;
      uman.ReprAllocated();
      match e.kind
      case Join(auth) =>
        if Disconnecting(users[e.user]) {
          return;
        }
        if auth {
          SetUserState(e.user, Verify);
        } else {
          DispatchLogin(e.user);
        }
      case Quit =>
        uman.Remove(e.user, users[e.user]);
        ScheduleDestroyUser(e.user);
      case Destroy =>
        users := users - {e.user};
    }

    /** `check_duplicate_logins_ok` and what follows from it */
    method DispatchLogin(u: UserId)
      requires Valid() && HoldsSid(u)
      modifies Repr()
      ensures Valid() && Grown()
      ensures State() == if NoDuplicate(old(State()), u) then LogIn(old(State()), u) else Disconnect(old(State()), u)
    {
      hide UserManager.UserManager.Valid;
      uman.ReprAllocated();
      var byNick := uman.ByNick(users[u].nick);
      var byCid := uman.ByCid(users[u].cid);
      if byNick.None? && byCid.None? {
        LoginSucceeded(u);
      } else {
        DisconnectUser(u);
      }
    }

    /** One turn of the dispatch loop. */
    method ProcessNext(e: Event)
      requires Valid() && Good(State()) && locked && pos < |q1| && e == q1[pos]
      modifies Repr()
      ensures Valid() && Grown() && Good(State()) && Steps(old(State()), Next, State())
      ensures locked && q1 == old(q1) && pos == old(pos) + 1 && dispatched == old(dispatched) + [e]
    {
      hide UserManager.UserManager.Valid, UserManager.UserManager.Value, UserManager.UserManager.Repr, Good, Dispatch;
      uman.ReprAllocated();
      ghost var before := State();
      ActIsGood(before, Next);
      NextHolds(e);
      pos, dispatched := pos + 1, dispatched + [e];
      DispatchEvent(e);
      DispatchKeepsQueue(Advance(before), e);
    }

    /**
     `event_queue_process`: every event posted before the call is dispatched, in order, and the new ones are kept for the next; the
     result says whether there are any.
     */
    method ProcessQueue() returns (more: bool)
      requires Valid() && Good(State())
      modifies Repr()
      ensures Valid() && Grown() && Good(State()) && locked == old(locked)
      ensures old(locked) ==> State() == old(State()) && !more
      ensures !old(locked) ==> dispatched == old(dispatched) + old(q1) && posted == dispatched + q1 && (more <==> q1 != [])
    {
      hide UserManager.UserManager.Valid, UserManager.UserManager.Value, UserManager.UserManager.Repr, Good, Steps;
      if locked {
        return false;
      }
      uman.ReprAllocated();
      LockQueue();
      var i := 0;
      while i < |q1|
        invariant i <= |q1| && pos == i && locked && q1 == old(q1) && Good(State())
        invariant Valid() && Grown()
        invariant dispatched == old(dispatched) + q1[..i]
      {
        uman.ReprAllocated();
        ProcessNext(q1[i]);
        i := i + 1;
      }
      UnlockQueue();
      more := q1 != [];
    }

    method LockQueue()
      requires Valid() && Good(State()) && !locked
      modifies this
      ensures Valid() && Good(State()) && Steps(old(State()), Lock, State())
      ensures locked && pos == 0 && q1 == old(q1) && dispatched == old(dispatched)
    {
      hide UserManager.UserManager.Valid, UserManager.UserManager.Value, Good;
      ActIsGood(State(), Lock);
      locked, pos := true, 0;
    }

    /** The events posted meanwhile become the queue. */
    method UnlockQueue()
      requires Valid() && Good(State()) && locked && pos == |q1|
      modifies this
      ensures Valid() && Good(State()) && Steps(old(State()), Unlock, State())
      ensures !locked && dispatched == old(dispatched) && posted == dispatched + q1
    {
      hide UserManager.UserManager.Valid, UserManager.UserManager.Value, Good;
      ActIsGood(State(), Unlock);
      AllDispatched(State());
      q1, q2, pos, locked := q2, [], 0, false;
    }

    lemma NextHolds(e: Event)
      requires Good(State()) && locked && pos < |q1| && e == q1[pos]
      ensures e.user in users
      ensures e.kind.Quit? ==> HoldsSid(e.user)
      ensures e.kind.Join? && !Disconnecting(users[e.user]) ==> HoldsSid(e.user)
    {
      HeadOfQueue(State());
      GoodHoldsUntilCleanup(e.user);
      if e.kind.Quit? { GoodHolds(e.user); }
    }

    // ----- Messages

    /** `user_create` */
    method ConnectUser() returns (u: UserId)
      requires Valid() && Good(State()) && !locked
      modifies this
      ensures Valid() && Good(State()) && Steps(old(State()), Connect, State()) && u == old(next)
    {
      hide UserManager.UserManager.Valid, UserManager.UserManager.Value, Good;
      ActIsGood(State(), Connect);
      u := next;
      users := users[u := User(Protocol, 0, "", "", 0, 0, false, false)];
      next := next + 1;
    }

    /** `hub_send_handshake`, for a probe that does not wrap */
    method SendHandshake(u: UserId) returns (sid: nat)
      requires Valid() && WellFormed(sids.Value()) && u in users
      requires sids.count < sids.table.Length - 1 ==> RoomFrom(sids.table[..], sids.count + 1)
      modifies this, sids, sids.table
      ensures Allocates(old(State()).sids, sid) && sid < sids.table.Length
      ensures Valid() && State() == Handshake(old(State()), u, sid)
    {
      hide UserManager.UserManager.Valid, UserManager.UserManager.Value, UserManager.UserManager.Repr, Allocates, WellFormed, RoomFrom;
      uman.ReprAllocated();
      ghost var p := sids.Value();
      sid := sids.Alloc(u);
      AllocIsProbe(p, sid);
      users := users[u := users[u].(sid := sid)];
      SetUserState(u, Identify);
    }

    /** `hub_handle_support`, given whether the client's features are acceptable */
    method HandleSupport(u: UserId, accepted: bool) returns (ghost sid: nat)
      requires Valid() && Good(State()) && !locked && u in users
      requires accepted && users[u].state.Protocol? && sids.count < sids.table.Length - 1 ==> RoomFrom(sids.table[..], sids.count + 1)
      modifies this, sids, sids.table
      ensures Valid() && Good(State()) && Steps(old(State()), Support(u, accepted, sid), State())
      ensures forall v :: Moves(old(State()), Support(u, accepted, sid), State(), v)
    {
      hide UserManager.UserManager.Valid, UserManager.UserManager.Value, Good, Moves;
      ghost var before := State();
      GoodHoldsUntilCleanup(u);
      sid := 0;
      if users[u].state.Protocol? {
        if accepted {
          sid := SendHandshake(u);
        } else {
          DisconnectUser(u);
        }
      }
      ActIsGood(before, Support(u, accepted, sid));
      AllMove(before, Support(u, accepted, sid));
    }

    /** `hub_handle_password` */
    method HandlePassword(u: UserId, correct: bool)
      requires Valid() && Good(State()) && !locked && u in users
      modifies Repr()
      ensures Valid() && Grown() && Good(State()) && Steps(old(State()), Password(u, correct), State())
      ensures forall v :: Moves(old(State()), Password(u, correct), State(), v)
    {
      hide UserManager.UserManager.Valid, UserManager.UserManager.Value, Good, Moves;
      uman.ReprAllocated();
      ActIsGood(State(), Password(u, correct));
      AllMove(State(), Password(u, correct));
      GoodHoldsUntilCleanup(u);
      if users[u].state.Verify? {
        if correct {
          LoginSucceeded(u);
        } else {
          DisconnectUser(u);
        }
      }
    }

    /** `check_logged_in`: the user by nick and the user by CID decide. */
    method CheckNotLoggedIn(u: UserId) returns (ok: bool)
      requires Valid() && Good(State()) && u in users
      modifies this, sids, sids.table
      ensures Valid() && Good(State()) && ok == CheckLoggedIn(old(State()), u).Some?
      ensures State() == if ok then CheckLoggedIn(old(State()), u).value else old(State())
      ensures forall v :: v in old(users) && !old(users)[v].choke ==> v in users && users[v] == old(users)[v]
    {
      hide UserManager.UserManager.Valid, UserManager.UserManager.Value, Good;
      CheckIsGood(State(), u);
      NamedExist(State());
      forall v | v in users && !users[v].choke { CheckSparesTheHealthy(State(), u, v); }
      uman.ReprAllocated();
      var lookup1 := uman.ByNick(users[u].nick);
      var lookup2 := uman.ByCid(users[u].cid);
      ok := true;
      if lookup1 == Some(u) {
        return;
      }
      if lookup1.None? && lookup2.None? {
        return;
      }
      if lookup1 == lookup2 && users[lookup1.value].choke {
        GoodHoldsUntilCleanup(lookup1.value);
        DisconnectUser(lookup1.value);
      } else {
        ok := false;
      }
    }

    /** The end of a login attempt: the limits are taken over, and either refused or answered with a join event. */
    method AcceptInfo(u: UserId, a: Attempt)
      requires Valid() && Good(State()) && u in users && Connecting(users[u]) && !users[u].info
      modifies this, sids, sids.table
      ensures Valid() && State() == InfoAccept(old(State()), u, a)
    {
      hide UserManager.UserManager.Valid, UserManager.UserManager.Value, Good;
      var me := users[u].(size := Given(a.size, users[u].size), files := Given(a.files, users[u].files));
      TouchConnecting(State(), u, me);
      users := users[u := me];
      if !a.limitsOk {
        GoodHoldsUntilCleanup(u);
        DisconnectUser(u);
      } else {
        users := users[u := users[u].(info := true)];
        PostEvent(Event(Join(a.auth), u));
      }
    }

    /** `hub_handle_info` while the user is connecting */
    method HandleLogin(u: UserId, a: Attempt)
      requires Valid() && Good(State()) && u in users && Connecting(users[u])
      modifies this, sids, sids.table
      ensures Valid() && State() == InfoLogin(old(State()), u, a)
    {
      hide UserManager.UserManager.Valid, UserManager.UserManager.Value, Good, InfoNick;
      if users[u].info {
        return;
      }
      NamedExist(State());
      GoodHoldsUntilCleanup(u);
      if !a.flagsOk || !a.cidOk {
        DisconnectUser(u);
        return;
      }
      Rename(u, a.cid, users[u].nick);
      HandleNick(u, a);
    }

    method HandleNick(u: UserId, a: Attempt)
      requires Valid() && Good(State()) && u in users && Connecting(users[u]) && !users[u].info
      modifies this, sids, sids.table
      ensures Valid() && State() == InfoNick(old(State()), u, a)
    {
      hide UserManager.UserManager.Valid, UserManager.UserManager.Value, Good, InfoChecks;
      NamedExist(State());
      GoodHoldsUntilCleanup(u);
      if !a.nickOk {
        DisconnectUser(u);
        return;
      }
      Rename(u, users[u].cid, a.nick);
      LoginChecks(u, a);
    }

    method Rename(u: UserId, cid: string, nick: string)
      requires Valid() && Good(State()) && u in users && Connecting(users[u])
      modifies this
      ensures State() == old(State()).(users := old(users)[u := old(users)[u].(cid := cid, nick := nick)])
      ensures Valid() && Good(State())
    {
      hide UserManager.UserManager.Valid, UserManager.UserManager.Value, Good;
      TouchConnecting(State(), u, users[u].(cid := cid, nick := nick));
      users := users[u := users[u].(cid := cid, nick := nick)];
    }

    /** The checks that need the user's names, and the outcome. */
    method LoginChecks(u: UserId, a: Attempt)
      requires Valid() && Good(State()) && u in users && Connecting(users[u]) && !users[u].info
      modifies this, sids, sids.table
      ensures Valid() && State() == InfoChecks(old(State()), u, a)
    {
      hide UserManager.UserManager.Valid, UserManager.UserManager.Value, Good, InfoAccept, CheckLoggedIn;
      NamedExist(State());
      CheckIsGood(State(), u);
      var ok := a.aclOk;
      if ok {
        ok := CheckNotLoggedIn(u);
      }
      if !ok || !a.admitted {
        GoodHoldsUntilCleanup(u);
        DisconnectUser(u);
      } else {
        AcceptInfo(u, a);
      }
    }

    /** `hub_handle_info` for a logged-in user, as far as the totals are concerned */
    method HandleUpdate(u: UserId, newSize: Option<nat>, newFiles: Option<nat>, limitsOk: bool)
      requires Valid() && Good(State()) && u in users && users[u].state.Normal?
      modifies this, sids, sids.table, uman
      ensures Valid() && State() == InfoUpdate(old(State()), u, newSize, newFiles, limitsOk)
    {
      hide UserManager.UserManager.Valid, Good;
      UpdateIsGood(State(), u, newSize, newFiles, true);
      uman.Share(users[u].size, newSize, users[u].files, newFiles);
      users := users[u := users[u].(size := Given(newSize, users[u].size), files := Given(newFiles, users[u].files))];
      if !limitsOk {
        GoodHoldsUntilCleanup(u);
        DisconnectUser(u);
      }
    }

    /** `hub_handle_info` */
    method HandleInfo(u: UserId, a: Attempt)
      requires Valid() && Good(State()) && !locked && u in users
      modifies this, sids, sids.table, uman
      ensures Valid() && Good(State()) && Steps(old(State()), Info(u, a), State())
      ensures forall v :: Moves(old(State()), Info(u, a), State(), v)
    {
      hide UserManager.UserManager.Valid, UserManager.UserManager.Value, Good, InfoLogin, InfoUpdate, Moves;
      ActIsGood(State(), Info(u, a));
      AllMove(State(), Info(u, a));
      if Connecting(users[u]) {
        HandleLogin(u, a);
      } else if !Disconnecting(users[u]) {
        HandleUpdate(u, a.size, a.files, a.limitsOk);
      }
    }
  }

  lemma DispatchKeepsQueue(h: Hub, e: Event)
    requires e.user in h.users && h.queue.locked
    ensures var q, r := h.queue, Dispatch(h, e).queue;
            r.locked && r.q1 == q.q1 && r.pos == q.pos && r.dispatched == q.dispatched
  {}

  /** When all of the first list has been dispatched, what has been posted is that and the second list. */
  lemma AllDispatched(h: Hub)
    requires Good(h) && h.queue.locked && h.queue.pos == |h.queue.q1|
    ensures h.queue.posted == h.queue.dispatched + h.queue.q2
  {
    assert h.queue.q1[h.queue.pos..] == [];
  }

  lemma NamedExist(h: Hub)
    requires Good(h)
    ensures forall n :: n in h.uman.nicks ==> h.uman.nicks[n] in h.users
    ensures h.queue.pos <= |h.queue.q1|
  {}

  lemma TouchConnecting(h: Hub, id: UserId, user: User)
    requires Good(h) && id in h.users && Connecting(h.users[id])
    requires user.info == h.users[id].info && user.state == h.users[id].state && user.sid == h.users[id].sid
    ensures Good(h.(users := h.users[id := user]))
  {
    UnlistedByStage(h, id);
    TouchIsGood(h, id, user);
  }

  lemma AllocIsProbe(p: Pool<UserId>, sid: nat)
    requires |p.slots| >= 1
    requires if p.count >= |p.slots| - 1 then sid == 0
             else 1 <= sid < |p.slots| && p.count + 1 <= sid && p.slots[sid].Empty? && forall j :: p.count + 1 <= j < sid ==> !p.slots[j].Empty?
    ensures Allocates(p, sid)
  {
    forall j: nat | j < |p.slots| ensures j % |p.slots| == j { InsideTable(j, |p.slots|); }
  }
}
