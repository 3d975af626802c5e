/** What holds in every run of a running hub. */
module HubRuns {
  import opened Options
  import opened SidPool
  import opened HubState
  import opened HubLife
  import opened HubNames
  import opened HubSafety

  /** A run: the hub starts empty and then one offered action follows the other. */
  ghost predicate Run(maxUsers: nat, states: seq<Hub>, actions: seq<Action>) {
    && |states| == |actions| + 1
    && states[0] == Start(maxUsers)
    && forall i :: 0 <= i < |actions| ==>
         Offered(states[i], actions[i]) && Safe(states[i], actions[i]) && states[i + 1] == Act(states[i], actions[i])
  }

  lemma StartIsGood(maxUsers: nat)
    ensures Good(Start(maxUsers))
  {
    var h := Start(maxUsers);
    FreshIsWellFormed<UserId>(maxUsers);
    forall i: nat ensures SlotAgrees(h, i) {}
    forall u: UserId ensures Stage(Look(h, u)) && SidAgrees(h, u) {}
  }

  /** Everything stays in order in every run. */
  lemma {:induction false} RunIsGood(maxUsers: nat, states: seq<Hub>, actions: seq<Action>, i: nat)
    requires Run(maxUsers, states, actions) && i < |states|
    ensures Good(states[i])
  {
    if i == 0 {
      StartIsGood(maxUsers);
    } else {
      RunIsGood(maxUsers, states, actions, i - 1);
      ActIsGood(states[i - 1], actions[i - 1]);
    }
  }

  /** A run can always go on with any action that is offered: no action ever meets a destroyed user. */
  lemma RunNeverMeetsTheDead(maxUsers: nat, states: seq<Hub>, actions: seq<Action>, a: Action)
    requires Run(maxUsers, states, actions) && Offered(states[|actions|], a)
    ensures Safe(states[|actions|], a)
    ensures Run(maxUsers, states + [Act(states[|actions|], a)], actions + [a])
  {
    RunIsGood(maxUsers, states, actions, |actions|);
    ActIsGood(states[|actions|], a);
    RunGoesOn(maxUsers, states, actions, a);
  }

  lemma RunGoesOn(maxUsers: nat, states: seq<Hub>, actions: seq<Action>, a: Action)
    requires Run(maxUsers, states, actions) && Offered(states[|actions|], a) && Safe(states[|actions|], a)
    ensures Run(maxUsers, states + [Act(states[|actions|], a)], actions + [a])
  {
    var n, more, all := |actions|, states + [Act(states[|actions|], a)], actions + [a];
    forall i | 0 <= i <= n
      ensures Offered(more[i], all[i]) && Safe(more[i], all[i]) && more[i + 1] == Act(more[i], all[i])
    {
      assert more[i] == states[i];
      assert i < n ==> all[i] == actions[i] && more[i + 1] == states[i + 1];
    }
  }

  // ----- The story of each user

  /** At most one event of each kind, and nothing after the destruction. */
  ghost predicate Orderly(s: seq<Kind>) {
    && (forall i, j :: 0 <= i < j < |s| ==> !(s[i].Join? && s[j].Join?) && !(s[i].Quit? && s[j].Quit?))
    && (forall i :: 0 <= i < |s| && s[i].Destroy? ==> i == |s| - 1)
  }

  /** All stories that a user's events can tell so far. */
  ghost predicate Story(s: seq<Kind>) {
    s == [] || Joined(s) || (|s| == 2 && s[0].Join? && s[1] == Quit) || Finished(s)
  }

  lemma StageTellsStory(v: View)
    requires Stage(v)
    ensures Story(v.past + v.pending)
  {
    if v.pending == [] {
      assert v.past + v.pending == v.past;
    } else if v.past == [] {
      assert v.past + v.pending == v.pending;
    } else if v.pending == [Quit] {
      assert v.past + v.pending == [v.past[0], Quit];
    }
  }

  lemma StoryIsOrderly(s: seq<Kind>)
    requires Story(s)
    ensures Orderly(s)
  {}

  /** Events are dispatched in the order in which they were posted, and each user's events are orderly. */
  lemma EventsAreOrderly(h: Hub, u: UserId)
    requires Good(h)
    ensures h.queue.dispatched <= h.queue.posted
    ensures Orderly(Of(h.queue.posted, u))
  {
    assert Stage(Look(h, u));
    OfConcat(h.queue.dispatched, Pending(h.queue), u);
    StageTellsStory(Look(h, u));
    StoryIsOrderly(Of(h.queue.posted, u));
  }

  lemma {:induction false} OfTells(s: seq<Event>, e: Event)
    requires e in s
    ensures e.kind in Of(s, e.user)
  {
    var n := |s| - 1;
    if s[n] != e {
      assert e in s[..n];
      OfTells(s[..n], e);
    }
  }

  /** A user that has been destroyed. */
  ghost predicate Destroyed(h: Hub, u: UserId) {
    u < h.next && u !in h.users
  }

  /** Nothing names a user that has been destroyed. */
  lemma DestroyedIsForgotten(h: Hub, u: UserId)
    requires Good(h) && Destroyed(h, u)
    ensures forall e :: e in Pending(h.queue) ==> e.user != u
    ensures u !in h.uman.list
    ensures forall n :: n in h.uman.nicks ==> h.uman.nicks[n] != u
    ensures forall c :: c in h.uman.cids ==> h.uman.cids[c] != u
    ensures forall i :: 0 <= i < |h.sids.slots| ==> h.sids.slots[i] != Held(u)
    ensures Finished(Of(h.queue.dispatched, u))
  {
    assert Stage(Look(h, u));
    forall e | e in Pending(h.queue) ensures e.user != u {
      if e.user == u { OfTells(Pending(h.queue), e); }
    }
    forall i | 0 <= i < |h.sids.slots| ensures h.sids.slots[i] != Held(u) {
      assert SlotAgrees(h, i);
    }
  }

  // ----- Steps that neither bring users nor change the names of listed ones

  /** The list and the indices are the same and so are the names of all listed users. */
  ghost predicate SameListed(h: Hub, h': Hub) {
    && h'.uman.list == h.uman.list && h'.uman.nicks == h.uman.nicks && h'.uman.cids == h.uman.cids
    && forall u :: u in h.uman.list && u in h.users ==>
         u in h'.users && h'.users[u].nick == h.users[u].nick && h'.users[u].cid == h.users[u].cid
  }

  ghost predicate SameNames(h: Hub, h': Hub) {
    h'.users.Keys == h.users.Keys && h'.next == h.next && SameListed(h, h')
  }

  lemma DisconnectKeepsNames(h: Hub, id: UserId)
    requires id in h.users
    ensures SameNames(h, Disconnect(h, id))
  {
    DisconnectFrame(h, id);
  }

  lemma CheckKeepsNames(h: Hub, id: UserId)
    requires id in h.users && forall n :: n in h.uman.nicks ==> h.uman.nicks[n] in h.users
    ensures CheckLoggedIn(h, id).Some? ==> SameNames(h, CheckLoggedIn(h, id).value)
  {
    var nick := h.users[id].nick;
    if nick in h.uman.nicks { DisconnectKeepsNames(h, h.uman.nicks[nick]); }
  }

  lemma AcceptKeepsNames(h: Hub, id: UserId, a: Attempt)
    requires id in h.users && id !in h.uman.list
    ensures SameNames(h, InfoAccept(h, id, a))
  {
    DisconnectKeepsNames(h.(users := h.users[id := h.users[id].(size := Given(a.size, h.users[id].size), files := Given(a.files, h.users[id].files))]), id);
  }

  lemma ChecksKeepNames(h: Hub, id: UserId, a: Attempt)
    requires id in h.users && id !in h.uman.list && forall n :: n in h.uman.nicks ==> h.uman.nicks[n] in h.users
    ensures SameNames(h, InfoChecks(h, id, a))
  {
    CheckKeepsNames(h, id);
    var c := if a.aclOk then CheckLoggedIn(h, id) else None;
    if c.None? {
      DisconnectKeepsNames(h, id);
    } else if !a.admitted {
      DisconnectKeepsNames(c.value, id);
    } else {
      AcceptKeepsNames(c.value, id, a);
    }
  }

  lemma LoginKeepsNames(h: Hub, id: UserId, a: Attempt)
    requires id in h.users && id !in h.uman.list && forall n :: n in h.uman.nicks ==> h.uman.nicks[n] in h.users
    ensures SameNames(h, InfoLogin(h, id, a))
  {
    if !h.users[id].info {
      if !a.flagsOk || !a.cidOk {
        DisconnectKeepsNames(h, id);
      } else {
        var h1 := h.(users := h.users[id := h.users[id].(cid := a.cid)]);
        if !a.nickOk {
          DisconnectKeepsNames(h1, id);
        } else {
          var h2 := h1.(users := h1.users[id := h1.users[id].(nick := a.nick)]);
          ChecksKeepNames(h2, id, a);
          assert SameNames(h, h2);
        }
      }
    }
  }

  /** Nobody comes back: once destroyed, a user stays destroyed. */
  lemma DestroyedForever(h: Hub, a: Action, u: UserId)
    requires Good(h) && Offered(h, a) && Safe(h, a) && Destroyed(h, u)
    ensures Destroyed(Act(h, a), u)
  {
    match a
    case Support(id, _, _) => DisconnectKeepsNames(h, id);
    case Info(id, at) =>
      if Connecting(h.users[id]) {
        UnlistedByStage(h, id);
        LoginKeepsNames(h, id, at);
      } else {
        DisconnectKeepsNames(InfoUpdate(h, id, at.size, at.files, true), id);
      }
    case Password(id, _) => DisconnectKeepsNames(h, id);
    case Lose(id) => DisconnectKeepsNames(h, id);
    case Next => DisconnectKeepsNames(Advance(h), h.queue.q1[h.queue.pos].user);
    case _ =>
  }

  lemma {:induction false} DestroyedStaysForgotten(maxUsers: nat, states: seq<Hub>, actions: seq<Action>, i: nat, j: nat, u: UserId)
    requires Run(maxUsers, states, actions) && i <= j < |states| && Destroyed(states[i], u)
    ensures Destroyed(states[j], u) && Good(states[j])
    decreases j - i
  {
    RunIsGood(maxUsers, states, actions, i);
    if i < j {
      DestroyedForever(states[i], actions[i], u);
      DestroyedStaysForgotten(maxUsers, states, actions, i + 1, j, u);
    }
  }

  /** Users that are not about to be destroyed never share a session identifier, and looking it up finds them. */
  lemma SidsAreDistinct(h: Hub, u: UserId, v: UserId)
    requires Good(h) && u in h.users && v in h.users && !Ending(h, u) && !Ending(h, v)
    requires h.users[u].sid == h.users[v].sid != 0
    ensures u == v && h.users[u].sid < |h.sids.slots| && h.sids.slots[h.users[u].sid] == Held(u)
  {
    assert SidAgrees(h, u) && SidAgrees(h, v);
  }

  // ----- The indices are exact as long as no password login skips the duplicate check

  /** Every listed user is found under its nick and under its CID. */
  ghost predicate Exact(h: Hub) {
    forall u :: u in h.uman.list ==>
      && u in h.users
      && h.users[u].nick in h.uman.nicks && h.uman.nicks[h.users[u].nick] == u
      && h.users[u].cid in h.uman.cids && h.uman.cids[h.users[u].cid] == u
  }

  lemma ExactMeansUnique(h: Hub, u: UserId, v: UserId)
    requires Exact(h) && u in h.uman.list && v in h.uman.list
    requires h.users[u].nick == h.users[v].nick || h.users[u].cid == h.users[v].cid
    ensures u == v
  {}

  /** Logging a user in keeps the indices exact precisely when neither its nick nor its CID is taken. */
  lemma LogInExactly(h: Hub, id: UserId)
    requires Good(h) && Exact(h) && id in h.users && Connecting(h.users[id])
    ensures Exact(LogIn(h, id)) <==> NoDuplicate(h, id)
  {
    hide Totals, SidsAgree, Lives;
    UnlistedByStage(h, id);
    var h', me := LogIn(h, id), h.users[id];
    assert id in h'.uman.list;
    if me.nick in h.uman.nicks { assert h'.uman.nicks[me.nick] == h.uman.nicks[me.nick] != id; }
    if me.cid in h.uman.cids { assert h'.uman.cids[me.cid] == h.uman.cids[me.cid] != id; }
  }

  lemma SameListedKeepExact(h: Hub, h': Hub)
    requires Exact(h) && SameListed(h, h')
    ensures Exact(h')
  {}

  lemma RemoveKeepsExact(h: Hub, id: UserId)
    requires Exact(h) && NoRepeats(h.uman.list) && id in h.users && id in h.uman.list
    ensures Exact(h.(uman := Remove(h.uman, id, h.users[id])))
  {
    WithoutDropsOne(h.uman.list, id);
  }

  /** No step but a password login of a user whose nick or CID is taken can make the indices inexact. */
  lemma ActKeepsExact(h: Hub, a: Action)
    requires Good(h) && Exact(h) && Offered(h, a) && Safe(h, a)
    requires a.Password? && a.correct && h.users[a.user].state.Verify? ==> NoDuplicate(h, a.user)
    ensures Exact(Act(h, a))
  {
    hide Exact, Disconnect, InfoLogin;
    match a
    case Connect => assert Stage(Look(h, h.next)); SameListedKeepExact(h, Act(h, a));
    case Info(u, at) =>
      if Connecting(h.users[u]) {
        UnlistedByStage(h, u);
        LoginKeepsNames(h, u, at);
      } else {
        DisconnectKeepsNames(InfoUpdate(h, u, at.size, at.files, true), u);
      }
      SameListedKeepExact(h, Act(h, a));
    case Password(u, ok) =>
      if ok && h.users[u].state.Verify? {
        LogInExactly(h, u);
      } else {
        DisconnectKeepsNames(h, u);
        SameListedKeepExact(h, Act(h, a));
      }
    case Support(u, _, _) => DisconnectKeepsNames(h, u); SameListedKeepExact(h, Act(h, a));
    case Lose(u) => DisconnectKeepsNames(h, u); SameListedKeepExact(h, Act(h, a));
    case Next => NextKeepsExact(h);
    case _ => SameListedKeepExact(h, Act(h, a));
  }

  lemma NextKeepsExact(h: Hub)
    requires Good(h) && Exact(h) && Offered(h, Next) && Safe(h, Next)
    ensures Exact(Act(h, Next))
  {
    hide Totals, SidsAgree, Of;
    var e, h1 := h.queue.q1[h.queue.pos], Advance(h);
    HeadOfQueue(h);
    DisconnectKeepsNames(h1, e.user);
    match e.kind
    case Join(auth) =>
      if !Disconnecting(h.users[e.user]) && !auth && NoDuplicate(h1, e.user) {
        LogInExactly(h, e.user);
        SameListedKeepExact(LogIn(h, e.user), Act(h, Next));
      } else {
        SameListedKeepExact(h, Act(h, Next));
      }
    case Quit => RemoveKeepsExact(h1, e.user);
    case Destroy => SameListedKeepExact(h, Act(h, Next));
  }

  /** In the run, every password login passes the check that a login without password has to pass. */
  ghost predicate Guarded(states: seq<Hub>, actions: seq<Action>)
    requires |states| == |actions| + 1
  {
    forall i :: 0 <= i < |actions| && actions[i].Password? && actions[i].correct ==> !Unchecked(states[i], actions[i].user)
  }

  /** The user waits for its password and has a nick or CID that is taken. */
  ghost predicate Unchecked(h: Hub, u: UserId) {
    u in h.users && h.users[u].state.Verify? && !NoDuplicate(h, u)
  }

  /** In every guarded run the two indices are exact inverses of the list of logged-in users. */
  lemma {:induction false} RunIsExact(maxUsers: nat, states: seq<Hub>, actions: seq<Action>, i: nat)
    requires Run(maxUsers, states, actions) && Guarded(states, actions) && i < |states|
    ensures Good(states[i]) && Exact(states[i])
  {
    RunIsGood(maxUsers, states, actions, i);
    if i > 0 {
      RunIsExact(maxUsers, states, actions, i - 1);
      ActKeepsExact(states[i - 1], actions[i - 1]);
    }
  }

  /** The indices are exact throughout a run if and only if every password login in it would have passed the duplicate check. */
  lemma RunIsExactIffGuarded(maxUsers: nat, states: seq<Hub>, actions: seq<Action>)
    requires Run(maxUsers, states, actions)
    ensures (forall i :: 0 <= i < |states| ==> Exact(states[i])) <==> Guarded(states, actions)
  {
    if Guarded(states, actions) {
      forall i | 0 <= i < |states| ensures Exact(states[i]) { RunIsExact(maxUsers, states, actions, i); }
    } else {
      var i :| 0 <= i < |actions| && actions[i].Password? && actions[i].correct && Unchecked(states[i], actions[i].user);
      RunIsGood(maxUsers, states, actions, i);
      if Exact(states[i]) {
        LogInExactly(states[i], actions[i].user);
        assert states[i + 1] == LogIn(states[i], actions[i].user);
        assert !Exact(states[i + 1]);
      }
    }
  }

  /** A login attempt under `nick` that passes every check and asks for a password. */
  function Registered(nick: string, cid: string): Attempt {
    Attempt(true, true, cid, true, nick, true, true, true, Some(0), Some(0), true)
  }

  /** Two users who both asked for the nick "op" and are in `state`. */
  ghost function Rivals(state: UserState, queue: Queue): Hub {
    var a := User(state, 0, "op", "A", 0, 0, true, false);
    Start(1).(users := map[0 := a, 1 := a.(cid := "B")], next := 2, queue := queue)
  }

  lemma RivalsArrive() returns (states: seq<Hub>, actions: seq<Action>)
    ensures Run(1, states, actions)
    ensures var js := [Event(Join(true), 0), Event(Join(true), 1)];
            states[|actions|] == Rivals(Protocol, Queue(false, js, 0, [], js, []))
  {
    hide WellFormed;
    actions := [Connect, Connect, Info(0, Registered("op", "A")), Info(1, Registered("op", "B"))];
    var s0 := Start(1);
    var s1 := Act(s0, Connect);
    var s2 := Act(s1, Connect);
    var s3 := Act(s2, actions[2]);
    assert s3.users[0].info && s3.queue.q1 == [Event(Join(true), 0)];
    var s4 := Act(s3, actions[3]);
    assert s4.queue.q1 == [Event(Join(true), 0), Event(Join(true), 1)];
    states := [s0, s1, s2, s3, s4];
    assert s4.users == map[0 := s4.users[0], 1 := s4.users[1]];
  }

  lemma RivalsVerify() returns (states: seq<Hub>, actions: seq<Action>)
    ensures Run(1, states, actions)
    ensures var js := [Event(Join(true), 0), Event(Join(true), 1)];
            states[|actions|] == Rivals(Verify, Queue(false, [], 0, [], js, js))
  {
    states, actions := RivalsArrive();
    var js := [Event(Join(true), 0), Event(Join(true), 1)];
    var h := states[|actions|];
    var h1 := Act(h, Lock);
    var h2 := Act(h1, Next);
    assert h2.queue.dispatched == js[..1] && h2.users[0].state == Verify;
    var h3 := Act(h2, Next);
    var h4 := Act(h3, Unlock);
    assert h4.queue.dispatched == js;
    assert h4.users == Rivals(Verify, h4.queue).users;
    states, actions := states + [h1, h2, h3, h4], actions + [Lock, Next, Next, Unlock];
  }

  /** Two connections that ask for the same registered nick before either has sent its password both get in. */
  lemma PasswordLoginsCanShareANick() returns (states: seq<Hub>, actions: seq<Action>)
    ensures Run(1, states, actions)
    ensures var h := states[|actions|];
            && h.uman.list == [0, 1] && 0 in h.users && 1 in h.users && h.users[0].nick == h.users[1].nick
            && h.users[0].nick in h.uman.nicks && h.uman.nicks[h.users[0].nick] == 0 && !Exact(h)
  {
    hide Allocates, ProbeStops;
    states, actions := RivalsVerify();
    var h := states[|actions|];
    var h1 := Act(h, Password(0, true));
    var h2 := Act(h1, Password(1, true));
    assert h2.uman.nicks["op"] == 0;
    assert 1 in h2.uman.list;
    states, actions := states + [h1, h2], actions + [Password(0, true), Password(1, true)];
  }
}
