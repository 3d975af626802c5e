/**
 What each step of a running hub does to each user, told by its causes: who is let in, who is turned away, who is thrown out, and
 that nothing happens to anybody else.  The steps themselves are in `HubState`.
 */
module HubMoves {
  import opened Options
  import opened HubState
  import opened HubLife
  import opened HubNames
  import opened HubSafety
  import opened HubRuns

  // ----- The causes

  /** The INF with which a user asks to be let in. */
  ghost predicate Arriving(h: Hub, a: Action, u: UserId) {
    a.Info? && a.user == u && u in h.users && Connecting(h.users[u]) && !h.users[u].info
  }

  /** The checks that come before the one for duplicates. */
  predicate Checked(at: Attempt) {
    at.flagsOk && at.cidOk && at.nickOk && at.aclOk
  }

  /** The listed user who has both the nick and the CID that are asked for. */
  ghost predicate Owns(h: Hub, u: UserId, at: Attempt) {
    at.nick in h.uman.nicks && h.uman.nicks[at.nick] == u && at.cid in h.uman.cids && h.uman.cids[at.cid] == u
  }

  /** A user who no longer takes data, and whose names a newcomer asks for, has to make way, whatever then becomes of the newcomer. */
  ghost predicate Ousted(h: Hub, a: Action, v: UserId) {
    a.Info? && Arriving(h, a, a.user) && Checked(a.attempt) && v in h.users && Owns(h, v, a.attempt) && h.users[v].choke
  }

  /** All checks are passed: nick and CID are free, or both belong to one user who makes way. */
  ghost predicate Admitted(h: Hub, a: Action, u: UserId) {
    && Arriving(h, a, u) && Checked(a.attempt) && a.attempt.admitted && a.attempt.limitsOk
    && ((a.attempt.nick !in h.uman.nicks && a.attempt.cid !in h.uman.cids) || exists v :: Ousted(h, a, v))
  }

  /** The user's connection is lost, or a message of its own is turned down. */
  ghost predicate Refused(h: Hub, a: Action, u: UserId)
    requires u in h.users
  {
    || a == Lose(u)
    || (a.Support? && a.user == u && h.users[u].state.Protocol? && !a.accepted)
    || (a.Password? && a.user == u && h.users[u].state.Verify? && !a.correct)
    || (a.Info? && a.user == u && h.users[u].state.Normal? && !a.attempt.limitsOk)
    || (Arriving(h, a, u) && !Admitted(h, a, u))
  }

  /** The event `kind` of the user is dispatched. */
  ghost predicate Dispatches(h: Hub, a: Action, kind: Kind, u: UserId)
    requires Offered(h, a)
  {
    a.Next? && h.queue.q1[h.queue.pos] == Event(kind, u)
  }

  /** A user who is not yet on the way out has to go. */
  ghost predicate Leaves(h: Hub, a: Action, u: UserId)
    requires Offered(h, a)
  {
    && u in h.users && !Disconnecting(h.users[u])
    && (Refused(h, a, u) || Ousted(h, a, u) || (Dispatches(h, a, Join(false), u) && !NoDuplicate(h, u)))
  }

  /** Nobody gets in but by a join that needs no password and finds both names free, or by the user's own correct password. */
  ghost predicate LogsIn(h: Hub, a: Action, u: UserId)
    requires Offered(h, a)
  {
    && u in h.users
    && (|| (a == Password(u, true) && h.users[u].state.Verify?)
        || (Dispatches(h, a, Join(false), u) && !Disconnecting(h.users[u]) && NoDuplicate(h, u)))
  }

  ghost predicate Asked(h: Hub, a: Action, u: UserId)
    requires Offered(h, a)
  {
    Dispatches(h, a, Join(true), u) && u in h.users && !Disconnecting(h.users[u])
  }

  ghost predicate Greeted(h: Hub, a: Action, u: UserId) {
    a.Support? && a.user == u && a.accepted && u in h.users && h.users[u].state.Protocol?
  }

  /** The state of a user after a step. */
  ghost function StateAfter(h: Hub, a: Action, u: UserId): UserState
    requires Offered(h, a) && u in h.users
  {
    if Leaves(h, a, u) then Cleanup
    else if LogsIn(h, a, u) then Normal
    else if Asked(h, a, u) then Verify
    else if Greeted(h, a, u) then Identify
    else h.users[u].state
  }

  /** What a step announces about a user. */
  ghost function Posts(h: Hub, a: Action, u: UserId): seq<Kind>
    requires Offered(h, a)
  {
    if Leaves(h, a, u) then [if h.users[u].state.Normal? then Quit else Destroy]
    else if Admitted(h, a, u) then [Join(a.attempt.auth)]
    else if Dispatches(h, a, Quit, u) then [Destroy]
    else []
  }

  /** A message that the hub takes over shares from. */
  ghost predicate Shares(h: Hub, a: Action, u: UserId) {
    a.Info? && a.user == u && u in h.users && (Admitted(h, a, u) || h.users[u].state.Normal?)
  }

  /** What else a step changes about a user; only of a newcomer who is turned away it is left open. */
  ghost predicate Keeps(h: Hub, a: Action, u: UserId, after: User)
    requires Offered(h, a) && u in h.users
  {
    var before := h.users[u];
    && after.sid == (if Greeted(h, a, u) then a.sid else before.sid)
    && after.info == (before.info || Admitted(h, a, u))
    && after.choke == (if a.Choke? && a.user == u then a.on else before.choke)
    && ((Arriving(h, a, u) ==> Admitted(h, a, u)) ==>
          && after.nick == (if Admitted(h, a, u) then a.attempt.nick else before.nick)
          && after.cid == (if Admitted(h, a, u) then a.attempt.cid else before.cid)
          && after.size == (if Shares(h, a, u) then Given(a.attempt.size, before.size) else before.size)
          && after.files == (if Shares(h, a, u) then Given(a.attempt.files, before.files) else before.files))
  }

  // ----- Disconnecting

  /** What disconnecting a user announces. */
  function Farewell(h: Hub, u: UserId): seq<Event>
    requires u in h.users
  {
    if Disconnecting(h.users[u]) then [] else [Event(if h.users[u].state.Normal? then Quit else Destroy, u)]
  }

  function Gone(user: User): User {
    if Disconnecting(user) then user else user.(state := Cleanup)
  }

  lemma DisconnectExactly(h: Hub, u: UserId)
    requires u in h.users
    ensures var h' := Disconnect(h, u);
            && h'.users == h.users[u := Gone(h.users[u])] && h'.uman == h.uman && h'.next == h.next
            && h'.queue.posted == h.queue.posted + Farewell(h, u)
  {
    assert h.users[u := h.users[u]] == h.users;
  }

  lemma OfMore(s: seq<Event>, more: seq<Event>, u: UserId)
    requires |more| <= 1
    ensures Of(s + more, u) == Of(s, u) + if more != [] && more[0].user == u then [more[0].kind] else []
  {
    if more == [] {
      assert s + more == s;
    } else {
      assert more == [more[0]];
      OfAppend(s, more[0], u);
    }
  }

  // ----- Asking to be let in

  /** The check for duplicates lets a newcomer pass if both names are free, or if one choked user has both, who is then disconnected. */
  lemma CheckExactly(h: Hub, u: UserId)
    requires Good(h) && u in h.users && Connecting(h.users[u])
    ensures var me := h.users[u];
            var owned := me.nick in h.uman.nicks && me.cid in h.uman.cids && h.uman.nicks[me.nick] == h.uman.cids[me.cid];
            if NoDuplicate(h, u) then CheckLoggedIn(h, u) == Some(h)
            else if owned && h.users[h.uman.nicks[me.nick]].choke then
              h.uman.nicks[me.nick] != u && CheckLoggedIn(h, u) == Some(Disconnect(h, h.uman.nicks[me.nick]))
            else CheckLoggedIn(h, u) == None
  {
    hide Disconnect, Totals, SidsAgree, Lives;
    UnlistedByStage(h, u);
  }

  /** The check disturbs nobody who takes data. */
  lemma CheckSparesTheHealthy(h: Hub, u: UserId, v: UserId)
    requires Good(h) && u in h.users && v in h.users && !h.users[v].choke
    ensures CheckLoggedIn(h, u).Some? ==>
              v in CheckLoggedIn(h, u).value.users && CheckLoggedIn(h, u).value.users[v] == h.users[v]
  {
    hide Disconnect, Totals, SidsAgree, Lives;
    if h.users[u].nick in h.uman.nicks {
      DisconnectExactly(h, h.uman.nicks[h.users[u].nick]);
    }
  }

  /** The user who makes way for the newcomer, if there is one. */
  ghost function Ghost(h: Hub, at: Attempt): Option<UserId> {
    if Checked(at) && at.nick in h.uman.nicks && Owns(h, h.uman.nicks[at.nick], at)
       && h.uman.nicks[at.nick] in h.users && h.users[h.uman.nicks[at.nick]].choke
    then Some(h.uman.nicks[at.nick]) else None
  }

  ghost predicate LetIn(h: Hub, at: Attempt) {
    && Checked(at) && at.admitted && at.limitsOk
    && ((at.nick !in h.uman.nicks && at.cid !in h.uman.cids) || Ghost(h, at).Some?)
  }

  /** The newcomer after its attempt: everything taken over, or on the way out. */
  ghost predicate Received(before: User, after: User, at: Attempt, ok: bool) {
    && after.sid == before.sid && after.choke == before.choke
    && after.state == (if ok then before.state else Cleanup) && after.info == (before.info || ok)
    && (ok ==> after == before.(nick := at.nick, cid := at.cid, size := Given(at.size, before.size), files := Given(at.files, before.files), info := true))
  }

  /** The outcome of an attempt to be let in, for everybody. */
  ghost predicate Outcome(h: Hub, h': Hub, u: UserId, at: Attempt)
    requires u in h.users
  {
    var gone := Ghost(h, at);
    && h'.uman == h.uman && h'.next == h.next && h'.users.Keys == h.users.Keys
    && (forall v :: v in h.users && v != u ==> h'.users[v] == if gone == Some(v) then Gone(h.users[v]) else h.users[v])
    && Received(h.users[u], h'.users[u], at, LetIn(h, at))
    && h'.queue.posted == h.queue.posted + (if gone.Some? then Farewell(h, gone.value) else [])
                        + [Event(if LetIn(h, at) then Join(at.auth) else Destroy, u)]
  }

  lemma AcceptExactly(h: Hub, u: UserId, at: Attempt)
    requires u in h.users && Connecting(h.users[u])
    ensures var me, h' := h.users[u], InfoAccept(h, u, at);
            && h'.uman == h.uman && h'.next == h.next && h'.users == h.users[u := h'.users[u]]
            && Received(me, h'.users[u], at.(nick := me.nick, cid := me.cid), at.limitsOk)
            && h'.queue.posted == h.queue.posted + [Event(if at.limitsOk then Join(at.auth) else Destroy, u)]
  {
    hide Disconnect;
    var me := h.users[u].(size := Given(at.size, h.users[u].size), files := Given(at.files, h.users[u].files));
    DisconnectExactly(h.(users := h.users[u := me]), u);
  }

  /** The checks that need the names, once those have been taken over. */
  lemma ChecksExactly(h: Hub, u: UserId, at: Attempt)
    requires Good(h) && u in h.users && Connecting(h.users[u]) && !h.users[u].info
    requires h.users[u].nick == at.nick && h.users[u].cid == at.cid && at.flagsOk && at.cidOk && at.nickOk
    ensures Outcome(h, InfoChecks(h, u, at), u, at)
  {
    hide Disconnect, CheckLoggedIn, InfoAccept, Totals, SidsAgree, Lives;
    CheckExactly(h, u);
    var c := if at.aclOk then CheckLoggedIn(h, u) else None;
    if c.None? {
      DisconnectExactly(h, u);
    } else {
      if !NoDuplicate(h, u) { DisconnectExactly(h, h.uman.nicks[at.nick]); }
      if !at.admitted {
        DisconnectExactly(c.value, u);
      } else {
        AcceptExactly(c.value, u, at);
      }
      Nothing(h.queue.posted);
    }
  }

  lemma Nothing(s: seq<Event>)
    ensures s + [] == s
  {}

  /** The outcome does not depend on the names the newcomer had before. */
  lemma OutcomeOfRenamed(h: Hub, h': Hub, u: UserId, me: User, at: Attempt)
    requires u in h.users && u !in h.uman.list && Indexed(h) && me == h.users[u].(nick := me.nick, cid := me.cid)
    requires Outcome(h.(users := h.users[u := me]), h', u, at)
    ensures Outcome(h, h', u, at)
  {
    var h1 := h.(users := h.users[u := me]);
    assert Ghost(h1, at) == Ghost(h, at);
  }

  /** The whole of `hub_handle_info_login`: who asks is let in or turned away, and at most one other user is concerned. */
  lemma LoginExactly(h: Hub, u: UserId, at: Attempt)
    requires Good(h) && u in h.users && Connecting(h.users[u]) && !h.users[u].info
    ensures Outcome(h, InfoLogin(h, u, at), u, at)
  {
    hide Disconnect, InfoChecks, Totals, SidsAgree, Lives;
    UnlistedByStage(h, u);
    Nothing(h.queue.posted);
    if !at.flagsOk || !at.cidOk {
      DisconnectExactly(h, u);
    } else {
      var h1 := h.(users := h.users[u := h.users[u].(cid := at.cid)]);
      if !at.nickOk {
        DisconnectExactly(h1, u);
      } else {
        var me := h1.users[u].(nick := at.nick);
        var h2 := h.(users := h.users[u := me]);
        assert h2 == h1.(users := h1.users[u := me]);
        TouchIsGood(h, u, me);
        ChecksExactly(h2, u, at);
        OutcomeOfRenamed(h, InfoChecks(h2, u, at), u, me, at);
      }
    }
  }

  // ----- Every step

  /** The step from `h` to `h'` does to `u` what the causes say and nothing else. */
  ghost predicate Moves(h: Hub, a: Action, h': Hub, u: UserId)
    requires Offered(h, a)
  {
    && (u in h'.users <==> (u in h.users && !Dispatches(h, a, Destroy, u)) || (a.Connect? && u == h.next))
    && (u in h.users && u in h'.users ==> h'.users[u].state == StateAfter(h, a, u) && Keeps(h, a, u, h'.users[u]))
    && (a.Connect? && u == h.next ==> u in h'.users && h'.users[u] == User(Protocol, 0, "", "", 0, 0, false, false))
    && (u in h'.uman.list <==> LogsIn(h, a, u) || (u in h.uman.list && !Dispatches(h, a, Quit, u)))
    && Of(h'.queue.posted, u) == Of(h.queue.posted, u) + Posts(h, a, u)
  }

  lemma ConnectMoves(h: Hub, u: UserId)
    requires Good(h) && Offered(h, Connect)
    ensures Moves(h, Connect, Act(h, Connect), u)
  {
    assert Stage(Look(h, h.next));
  }

  lemma LoseMoves(h: Hub, id: UserId, u: UserId)
    requires Good(h) && Offered(h, Lose(id))
    ensures Moves(h, Lose(id), Act(h, Lose(id)), u)
  {
    hide Disconnect, Good, Of;
    DisconnectExactly(h, id);
    OfMore(h.queue.posted, Farewell(h, id), u);
  }

  lemma SupportMoves(h: Hub, a: Action, u: UserId)
    requires a.Support? && Offered(h, a) && Safe(h, a)
    ensures Moves(h, a, Act(h, a), u)
  {
    hide Disconnect, Good, Of, Allocates;
    DisconnectExactly(h, a.user);
    OfMore(h.queue.posted, Farewell(h, a.user), u);
  }

  lemma PasswordMoves(h: Hub, a: Action, u: UserId)
    requires a.Password? && Offered(h, a) && Safe(h, a)
    ensures Moves(h, a, Act(h, a), u)
  {
    hide Disconnect, Good, Of;
    DisconnectExactly(h, a.user);
    OfMore(h.queue.posted, Farewell(h, a.user), u);
  }

  /** Who makes way is named by the causes. */
  lemma GhostIsOusted(h: Hub, u: UserId, at: Attempt, v: UserId)
    requires Good(h) && u in h.users && Connecting(h.users[u]) && !h.users[u].info
    ensures Ousted(h, Info(u, at), v) <==> Ghost(h, at) == Some(v)
    ensures Admitted(h, Info(u, at), v) <==> v == u && LetIn(h, at)
    ensures Ghost(h, at) == Some(v) ==> v != u && v in h.users
  {
    hide Totals, SidsAgree, Lives;
    UnlistedByStage(h, u);
    var g := Ghost(h, at);
    if g.Some? { assert Ousted(h, Info(u, at), g.value); }
  }

  lemma ArrivalPosts(h: Hub, id: UserId, at: Attempt, u: UserId)
    requires Good(h) && Offered(h, Info(id, at)) && Safe(h, Info(id, at)) && Connecting(h.users[id]) && !h.users[id].info
    ensures Of(InfoLogin(h, id, at).queue.posted, u) == Of(h.queue.posted, u) + Posts(h, Info(id, at), u)
  {
    hide Good, Of, InfoLogin, Ghost, LetIn, Ousted, Admitted, Received;
    var gone := Ghost(h, at);
    LoginExactly(h, id, at);
    GhostIsOusted(h, id, at, u);
    if gone.Some? { GhostIsOusted(h, id, at, gone.value); }
    var first := if gone.Some? then Farewell(h, gone.value) else [];
    var last := [Event(if LetIn(h, at) then Join(at.auth) else Destroy, id)];
    OfMore(h.queue.posted, first, u);
    OfMore(h.queue.posted + first, last, u);
    Silence(h, u);
  }

  lemma ArrivalMoves(h: Hub, id: UserId, at: Attempt, u: UserId)
    requires Good(h) && Offered(h, Info(id, at)) && Safe(h, Info(id, at)) && Connecting(h.users[id]) && !h.users[id].info
    ensures Moves(h, Info(id, at), Act(h, Info(id, at)), u)
  {
    hide Good, Of, InfoLogin, Ghost, LetIn, Ousted, Admitted, Posts, Farewell;
    LoginExactly(h, id, at);
    GhostIsOusted(h, id, at, u);
    ArrivalPosts(h, id, at, u);
  }

  lemma Silence(h: Hub, u: UserId)
    ensures Of(h.queue.posted, u) + [] == Of(h.queue.posted, u)
  {}

  lemma UpdateMoves(h: Hub, id: UserId, at: Attempt, u: UserId)
    requires Good(h) && Offered(h, Info(id, at)) && Safe(h, Info(id, at)) && (!Connecting(h.users[id]) || h.users[id].info)
    ensures Moves(h, Info(id, at), Act(h, Info(id, at)), u)
  {
    hide Good, Of, Disconnect;
    Silence(h, u);
    var h1 := InfoUpdate(h, id, at.size, at.files, true);
    DisconnectExactly(h1, id);
    OfMore(h.queue.posted, Farewell(h1, id), u);
  }

  lemma QueueMoves(h: Hub, a: Action, u: UserId)
    requires Offered(h, a) && Safe(h, a) && (a.Choke? || a.Lock? || a.Unlock?)
    ensures Moves(h, a, Act(h, a), u)
  {
    hide Good, Of;
    Silence(h, u);
  }

  lemma JoinMoves(h: Hub, u: UserId)
    requires Good(h) && Offered(h, Next) && Safe(h, Next) && h.queue.q1[h.queue.pos].kind.Join?
    ensures Moves(h, Next, Act(h, Next), u)
  {
    hide Good, Of, Disconnect;
    var e, h1 := h.queue.q1[h.queue.pos], Advance(h);
    HeadOfQueueOf(h);
    Silence(h, u);
    DisconnectExactly(h1, e.user);
    OfMore(h.queue.posted, Farewell(h1, e.user), u);
  }

  lemma EndMoves(h: Hub, u: UserId)
    requires Good(h) && Offered(h, Next) && Safe(h, Next) && !h.queue.q1[h.queue.pos].kind.Join?
    ensures Moves(h, Next, Act(h, Next), u)
  {
    hide Good, Of, Without;
    var e := h.queue.q1[h.queue.pos];
    HeadOfQueueOf(h);
    Silence(h, u);
    WithoutDropsOne(h.uman.list, e.user);
    OfAppend(h.queue.posted, Event(Destroy, e.user), u);
  }

  lemma HeadOfQueueOf(h: Hub)
    requires Good(h) && Offered(h, Next)
    ensures var e := h.queue.q1[h.queue.pos];
            && NoRepeats(h.uman.list) && e.user in h.users && (e.user in h.uman.list <==> e.kind.Quit?)
            && (!e.kind.Join? ==> h.users[e.user].state.Cleanup?)
  {
    HeadOfQueue(h);
  }

  /** Every step that can happen moves every user, known or not, exactly as the causes say. */
  lemma StepMoves(h: Hub, a: Action, u: UserId)
    requires Good(h) && Offered(h, a)
    ensures Safe(h, a) && Moves(h, a, Act(h, a), u)
  {
    hide Good, Moves;
    GoodIsSafe(h, a);
    match a
    case Connect => ConnectMoves(h, u);
    case Support(_, _, _) => SupportMoves(h, a, u);
    case Info(id, at) =>
      if Connecting(h.users[id]) && !h.users[id].info { ArrivalMoves(h, id, at, u); } else { UpdateMoves(h, id, at, u); }
    case Password(_, _) => PasswordMoves(h, a, u);
    case Lose(id) => LoseMoves(h, id, u);
    case Next => if h.queue.q1[h.queue.pos].kind.Join? { JoinMoves(h, u); } else { EndMoves(h, u); }
    case _ => QueueMoves(h, a, u);
  }

  lemma AllMove(h: Hub, a: Action)
    requires Good(h) && Offered(h, a)
    ensures Safe(h, a) && forall u :: Moves(h, a, Act(h, a), u)
  {
    hide Good, Moves, Act;
    GoodIsSafe(h, a);
    forall u ensures Moves(h, a, Act(h, a), u) { StepMoves(h, a, u); }
  }

  // ----- What follows from it

  /** Whoever is refused, and whoever loses the connection, is on the way out and does not come onto the list. */
  lemma RefusalTurnsAway(h: Hub, a: Action, u: UserId)
    requires Good(h) && Offered(h, a) && u in h.users && Refused(h, a, u)
    ensures Safe(h, a) && u in Act(h, a).users && Disconnecting(Act(h, a).users[u])
    ensures u in Act(h, a).uman.list <==> u in h.uman.list
  {
    hide Good, Act;
    StepMoves(h, a, u);
  }

  /** Nobody comes onto the list but by a join that needs no password and finds both names free, or by the user's own correct password. */
  lemma OnlyTheEntitledLogIn(h: Hub, a: Action, u: UserId)
    requires Good(h) && Offered(h, a) && u !in h.uman.list
    ensures Safe(h, a) && (u in Act(h, a).uman.list <==> LogsIn(h, a, u))
  {
    hide Good, Act;
    StepMoves(h, a, u);
  }

  /** No message of another user changes anything about a user who takes data. */
  lemma OthersSpareTheHealthy(h: Hub, a: Action, u: UserId, v: UserId)
    requires Good(h) && Offered(h, a) && (a.Info? || a.Support? || a.Password?) && a.user == u
    requires v in h.users && v != u && !h.users[v].choke
    ensures Safe(h, a) && v in Act(h, a).users && Act(h, a).users[v] == h.users[v]
  {
    hide Good, Act;
    StepMoves(h, a, v);
  }

  /** A choked user makes way for a newcomer with the same nick and CID, who then passes the check for duplicates. */
  lemma ChokedMakesWay(h: Hub, u: UserId, at: Attempt, v: UserId)
    requires Good(h) && Offered(h, Info(u, at)) && u in h.users && Connecting(h.users[u]) && !h.users[u].info
    requires v in h.users && Checked(at) && Owns(h, v, at) && h.users[v].choke && at.admitted && at.limitsOk
    ensures Safe(h, Info(u, at))
    ensures var h' := Act(h, Info(u, at));
            && v in h'.users && h'.users[v].state.Cleanup?
            && (h.users[v].state.Normal? ==> Of(h'.queue.posted, v) == Of(h.queue.posted, v) + [Quit])
            && u in h'.users && h'.users[u].info && Of(h'.queue.posted, u) == Of(h.queue.posted, u) + [Join(at.auth)]
  {
    var a := Info(u, at);
    assert Ousted(h, a, v);
    assert v in h.uman.list && Stage(Look(h, v));
    AdmittedStays(h, a, u);
    StayMoves(h, a, u, v);
  }

  lemma StayMoves(h: Hub, a: Action, u: UserId, v: UserId)
    requires Good(h) && Offered(h, a)
    ensures Safe(h, a) && Moves(h, a, Act(h, a), u) && Moves(h, a, Act(h, a), v)
  {
    StepMoves(h, a, u);
    StepMoves(h, a, v);
  }

  lemma AdmittedStays(h: Hub, a: Action, u: UserId)
    requires Good(h) && Offered(h, a) && Admitted(h, a, u)
    ensures !Leaves(h, a, u) && !LogsIn(h, a, u) && u !in h.uman.list
  {
    UnlistedByStage(h, u);
    GhostIsOusted(h, u, a.attempt, u);
  }

  /** Once a user's quit is dispatched, its nick and its CID are free for others. */
  lemma QuitFreesNames(h: Hub, u: UserId)
    requires Good(h) && Offered(h, Next) && Dispatches(h, Next, Quit, u)
    ensures Safe(h, Next) && u in h.users
    ensures var h' := Act(h, Next); h.users[u].nick !in h'.uman.nicks && h.users[u].cid !in h'.uman.cids && u !in h'.uman.list
  {
    StepMoves(h, Next, u);
    HeadOfQueue(h);
  }

  // ----- Over whole runs: nobody is on the list who was not let in under those names, with a password where one was asked for

  /** At step `k` the user was let in under the names it has, and if a password was asked for, gave the right one at step `j`. */
  ghost predicate Entitled(states: seq<Hub>, actions: seq<Action>, i: nat, u: UserId, k: nat, j: nat)
    requires |states| == |actions| + 1 && i < |states|
  {
    && k < i && actions[k].Info? && Admitted(states[k], actions[k], u) && u in states[i].users
    && states[i].users[u].nick == actions[k].attempt.nick && states[i].users[u].cid == actions[k].attempt.cid
    && Join(actions[k].attempt.auth) in Of(states[i].queue.posted, u)
    && (u in states[i].uman.list && actions[k].attempt.auth ==> k < j < i && actions[j] == Password(u, true))
  }

  /** The event at the head of the queue is the only join of its user. */
  lemma OneJoin(h: Hub, u: UserId, auth: bool, other: bool)
    requires Good(h) && Offered(h, Next) && Dispatches(h, Next, Join(auth), u) && Join(other) in Of(h.queue.posted, u)
    ensures auth == other
  {
    var e, s := h.queue.q1[h.queue.pos], Of(h.queue.posted, u);
    EventsAreOrderly(h, u);
    assert Pending(h.queue)[0] == e;
    OfTells(Pending(h.queue), e);
    OfConcat(h.queue.dispatched, Pending(h.queue), u);
    assert Join(auth) in s;
    var m :| 0 <= m < |s| && s[m] == Join(auth);
    var n :| 0 <= n < |s| && s[n] == Join(other);
    assert m == n;
  }

  /** Who gets in has asked to be let in before. */
  lemma LoggedInHadAsked(h: Hub, a: Action, u: UserId)
    requires Good(h) && Offered(h, a) && LogsIn(h, a, u)
    ensures h.users[u].info
  {
    assert Stage(Look(h, u));
    if a.Next? { LookAfterAdvance(h, u); }
  }

  /** One more step leaves the user entitled. */
  lemma StaysEntitled(states: seq<Hub>, actions: seq<Action>, i: nat, u: UserId, k: nat, j: nat)
    requires |states| == |actions| + 1 && 0 < i < |states| && Good(states[i - 1]) && Offered(states[i - 1], actions[i - 1])
    requires Safe(states[i - 1], actions[i - 1]) && states[i] == Act(states[i - 1], actions[i - 1])
    requires Entitled(states, actions, i - 1, u, k, j) && states[i - 1].users[u].info && u in states[i].users
    ensures var a := actions[i - 1]; Entitled(states, actions, i, u, k, if a == Password(u, true) then i - 1 else j)
  {
    hide Good, Act, Of, Admitted;
    var h, a := states[i - 1], actions[i - 1];
    StepMoves(h, a, u);
    NotArriving(h, a, u);
    if a.Next? && Dispatches(h, a, Join(false), u) { OneJoin(h, u, false, actions[k].attempt.auth); }
  }

  lemma NotArriving(h: Hub, a: Action, u: UserId)
    requires u in h.users && h.users[u].info
    ensures !Arriving(h, a, u) && !Admitted(h, a, u)
  {}

  lemma {:induction false} InfoIsEntitled(maxUsers: nat, states: seq<Hub>, actions: seq<Action>, i: nat, u: UserId) returns (k: nat, j: nat)
    requires Run(maxUsers, states, actions) && i < |states| && u in states[i].users
    ensures u in states[i].uman.list ==> states[i].users[u].info
    ensures states[i].users[u].info ==> Entitled(states, actions, i, u, k, j)
  {
    hide Good, Act, Of, Start;
    k, j := 0, 0;
    if i == 0 {
      StartIsEmpty(maxUsers);
    } else {
      var h, a := states[i - 1], actions[i - 1];
      RunIsGood(maxUsers, states, actions, i - 1);
      StepMoves(h, a, u);
      if u in h.users {
        k, j := InfoIsEntitled(maxUsers, states, actions, i - 1, u);
        if LogsIn(h, a, u) { LoggedInHadAsked(h, a, u); }
        if h.users[u].info {
          StaysEntitled(states, actions, i, u, k, j);
          j := if a == Password(u, true) then i - 1 else j;
        } else if Admitted(h, a, u) {
          AdmittedStays(h, a, u);
          k := i - 1;
        }
      } else {
        Unlisted(h, u);
      }
    }
  }

  lemma StartIsEmpty(maxUsers: nat)
    ensures Start(maxUsers).users == map[]
  {}

  lemma Unlisted(h: Hub, u: UserId)
    requires Good(h) && u !in h.users
    ensures u !in h.uman.list
  {
    assert Stage(Look(h, u));
  }

  /**
   In every run: whoever is on the list was let in, all checks passed, under exactly the nick and the CID it has now, and if the hub
   asked for a password, has given the right one since.
   */
  lemma ListedIsEntitled(maxUsers: nat, states: seq<Hub>, actions: seq<Action>, i: nat, u: UserId) returns (k: nat, j: nat)
    requires Run(maxUsers, states, actions) && i < |states| && u in states[i].uman.list
    ensures u in states[i].users && k < i && Admitted(states[k], actions[k], u)
    ensures states[i].users[u].nick == actions[k].attempt.nick && states[i].users[u].cid == actions[k].attempt.cid
    ensures actions[k].attempt.auth ==> k < j < i && actions[j] == Password(u, true)
  {
    RunIsGood(maxUsers, states, actions, i);
    assert Stage(Look(states[i], u));
    k, j := InfoIsEntitled(maxUsers, states, actions, i, u);
  }
}
