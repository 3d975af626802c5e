/**
 The life of a user on a running hub: `src/core/hub.c`, `inf.c`, `user.c`, `usermanager.c`, `hubevent.c` and
 `eventqueue.c` as functions on the hub's state.  What the hub learns from outside (the verdict of a login check, the
 outcome of a password check, which connection breaks when) is a parameter.
 */
module HubState {
  import opened Options
  import opened SidPool

  /** The identity of a user object. */
  type UserId = nat

  datatype UserState = Protocol | Identify | Verify | Normal | Cleanup | Disconnected

  datatype User = User(state: UserState, sid: nat, nick: string, cid: string, size: nat, files: nat, info: bool, choke: bool)

  datatype Kind = Join(auth: bool) | Quit | Destroy

  datatype Event = Event(kind: Kind, user: UserId)

  /**
   The two-list event queue.  While `locked`, the first `pos` events of `q1` have been dispatched.  `posted` and
   `dispatched` record all events so far, in the order in which that happened.
   */
  datatype Queue = Queue(locked: bool, q1: seq<Event>, pos: nat, q2: seq<Event>, posted: seq<Event>, dispatched: seq<Event>)

  /** The user manager: the logged-in users, two indices and the running totals, which are 64-bit unsigned. */
  datatype Manager = Manager(list: seq<UserId>, nicks: map<string, UserId>, cids: map<string, UserId>, count: nat, size: nat, files: nat)

  datatype Hub = Hub(users: map<UserId, User>, next: UserId, queue: Queue, uman: Manager, sids: Pool<UserId>)

  const WORD: nat := 0x1_0000_0000_0000_0000

  /** Unsigned 64-bit addition and subtraction. */
  function Plus64(a: nat, b: nat): nat {
    (a + b) % WORD
  }

  function Minus64(a: nat, b: nat): nat {
    (a - b) % WORD
  }

  function Start(maxUsers: nat): Hub {
    Hub(map[], 0, Queue(false, [], 0, [], [], []), Manager([], map[], map[], 0, 0, 0), Fresh(maxUsers))
  }

  // ----- user.c

  predicate Connecting(u: User) {
    u.state.Protocol? || u.state.Identify? || u.state.Verify?
  }

  predicate Disconnecting(u: User) {
    u.state.Cleanup? || u.state.Disconnected?
  }

  /** `user_set_state`: cleanup can only be left for disconnected, and disconnected not at all. */
  function SetState(u: User, s: UserState): User {
    if (u.state.Cleanup? && !s.Disconnected?) || u.state.Disconnected? then u else u.(state := s)
  }

  function Become(h: Hub, u: UserId, s: UserState): Hub
    requires u in h.users
  {
    h.(users := h.users[u := SetState(h.users[u], s)])
  }

  // ----- eventqueue.c

  function Post(h: Hub, e: Event): Hub {
    var q := h.queue;
    h.(queue := (if q.locked then q.(q2 := q.q2 + [e]) else q.(q1 := q.q1 + [e])).(posted := q.posted + [e]))
  }

  // ----- usermanager.c

  function Insert<K, V>(m: map<K, V>, k: K, v: V): map<K, V> {
    if k in m then m else m[k := v]
  }

  function Without(s: seq<UserId>, u: UserId): seq<UserId> {
    if s == [] then [] else if s[0] == u then s[1..] else [s[0]] + Without(s[1..], u)
  }

  /** `uman_add` */
  function Add(m: Manager, id: UserId, u: User): Manager {
    Manager(m.list + [id], Insert(m.nicks, u.nick, id), Insert(m.cids, u.cid, id), m.count + 1,
            Plus64(m.size, u.size), Plus64(m.files, u.files))
  }

  /** `uman_remove` */
  function Remove(m: Manager, id: UserId, u: User): Manager {
    Manager(Without(m.list, id), m.nicks - {u.nick}, m.cids - {u.cid}, if m.count > 0 then m.count - 1 else 0,
            Minus64(m.size, u.size), Minus64(m.files, u.files))
  }

  // ----- hub.c

  /** `hub_schedule_destroy_user` */
  function ScheduleDestroy(h: Hub, u: UserId): Hub
    requires u in h.users
  {
    var h1 := Post(h, Event(Destroy, u));
    var sid := h.users[u].sid;
    if 0 < sid < |h.sids.slots| && h.sids.count > 0 then h1.(sids := Release(h.sids, sid)) else h1
  }

  /** `hub_disconnect_user` on a running hub */
  function Disconnect(h: Hub, u: UserId): Hub
    requires u in h.users
  {
    if Disconnecting(h.users[u]) then h
    else
      var h1 := Become(h, u, Cleanup);
      if h.users[u].state.Normal? then Post(h1, Event(Quit, u)) else ScheduleDestroy(h1, u)
  }

  /** `on_login_success` for a user whose connection is open */
  function LogIn(h: Hub, u: UserId): Hub
    requires u in h.users
  {
    var h1 := Become(h, u, Normal);
    h1.(uman := Add(h1.uman, u, h1.users[u]))
  }

  /** `check_duplicate_logins_ok` */
  predicate NoDuplicate(h: Hub, u: UserId)
    requires u in h.users
  {
    h.users[u].nick !in h.uman.nicks && h.users[u].cid !in h.uman.cids
  }

  /** `hub_event_dispatcher` */
  function Dispatch(h: Hub, e: Event): Hub
    requires e.user in h.users
  {
    var u := h.users[e.user];
    match e.kind
    case Join(auth) =>
      if Disconnecting(u) then h
      else if auth then Become(h, e.user, Verify)
      else if NoDuplicate(h, e.user) then LogIn(h, e.user)
      else Disconnect(h, e.user)
    case Quit => ScheduleDestroy(h.(uman := Remove(h.uman, e.user, u)), e.user)
    case Destroy => h.(users := h.users - {e.user})
  }

  /** What the outside decides about an INF message, in the order in which the checks are made; shares it does not give are `None`. */
  datatype Attempt = Attempt(flagsOk: bool, cidOk: bool, cid: string, nickOk: bool, nick: string, aclOk: bool, auth: bool,
                             admitted: bool, size: Option<nat>, files: Option<nat>, limitsOk: bool)

  /** `check_logged_in`: `None` refuses the login. */
  function CheckLoggedIn(h: Hub, u: UserId): Option<Hub>
    requires u in h.users && forall n :: n in h.uman.nicks ==> h.uman.nicks[n] in h.users
  {
    var me := h.users[u];
    var byNick := if me.nick in h.uman.nicks then Some(h.uman.nicks[me.nick]) else None;
    var byCid := if me.cid in h.uman.cids then Some(h.uman.cids[me.cid]) else None;
    if byNick == Some(u) || (byNick.None? && byCid.None?) then Some(h)
    else if byNick == byCid && h.users[byNick.value].choke then Some(Disconnect(h, byNick.value))
    else None
  }

  /** `hub_handle_info` for a user who is not logged in yet */
  function InfoLogin(h: Hub, u: UserId, a: Attempt): Hub
    requires u in h.users && forall n :: n in h.uman.nicks ==> h.uman.nicks[n] in h.users
  {
    var me := h.users[u];
    if me.info then h
    else if !a.flagsOk || !a.cidOk then Disconnect(h, u)
    else InfoNick(h.(users := h.users[u := me.(cid := a.cid)]), u, a)
  }

  /** The nick is checked and taken over once the CID has been. */
  function InfoNick(h: Hub, u: UserId, a: Attempt): Hub
    requires u in h.users && forall n :: n in h.uman.nicks ==> h.uman.nicks[n] in h.users
  {
    if !a.nickOk then Disconnect(h, u)
    else InfoChecks(h.(users := h.users[u := h.users[u].(nick := a.nick)]), u, a)
  }

  /** The checks of a login attempt that need the user's names. */
  function InfoChecks(h: Hub, u: UserId, a: Attempt): Hub
    requires u in h.users && forall n :: n in h.uman.nicks ==> h.uman.nicks[n] in h.users
  {
    var c := if a.aclOk then CheckLoggedIn(h, u) else None;
    if c.None? || !a.admitted then Disconnect(if c.None? then h else c.value, u)
    else InfoAccept(c.value, u, a)
  }

  /** A share that an INF message gives, or the one there was. */
  function Given(share: Option<nat>, before: nat): nat {
    if share.Some? then share.value else before
  }

  /** A total after one share in it has been replaced by a given one. */
  function Moved(total: nat, before: nat, share: Option<nat>): nat {
    if share.Some? then Plus64(Minus64(total, before), share.value) else total
  }

  /** The end of a login attempt that no check but the limits can refuse any more. */
  function InfoAccept(h: Hub, u: UserId, a: Attempt): Hub
    requires u in h.users
  {
    var me := h.users[u].(size := Given(a.size, h.users[u].size), files := Given(a.files, h.users[u].files));
    if !a.limitsOk then Disconnect(h.(users := h.users[u := me]), u)
    else Post(h.(users := h.users[u := me.(info := true)]), Event(Join(a.auth), u))
  }

  /** `hub_handle_info` for a logged-in user: the limits are taken over even when they are then refused. */
  function InfoUpdate(h: Hub, u: UserId, size: Option<nat>, files: Option<nat>, limitsOk: bool): Hub
    requires u in h.users
  {
    var me := h.users[u];
    var h1 := h.(users := h.users[u := me.(size := Given(size, me.size), files := Given(files, me.files))],
                 uman := h.uman.(size := Moved(h.uman.size, me.size, size), files := Moved(h.uman.files, me.files, files)));
    if limitsOk then h1 else Disconnect(h1, u)
  }

  /** `hub_send_handshake`: a session identifier, 0 if the pool is full, and the next state. */
  function Handshake(h: Hub, u: UserId, sid: nat): Hub
    requires u in h.users && sid < |h.sids.slots|
  {
    var h1 := if sid == 0 then h else h.(sids := Take(h.sids, sid, u));
    h1.(users := h.users[u := SetState(h.users[u].(sid := sid), Identify)])
  }

  // ----- Everything that can happen

  datatype Action =
    | Connect
    | Support(user: UserId, accepted: bool, sid: nat)
    | Info(user: UserId, attempt: Attempt)
    | Password(user: UserId, correct: bool)
    | Lose(user: UserId)
    | Choke(user: UserId, on: bool)
    | Lock
    | Next
    | Unlock

  /** The session identifier that `sid_alloc` yields, for a probe that does not wrap. */
  ghost predicate Allocates(p: Pool<UserId>, sid: nat) {
    if p.count >= |p.slots| - 1 then sid == 0
    else 1 <= sid < |p.slots| && ProbeStops(p.slots, p.count + 1, sid)
  }

  /** When an action can happen: messages come from users that exist, and none while the event queue is processed. */
  ghost predicate Offered(h: Hub, a: Action) {
    match a
    case Connect => !h.queue.locked
    case Support(u, ok, sid) => !h.queue.locked && u in h.users && (ok && h.users[u].state.Protocol? ==> Allocates(h.sids, sid))
    case Info(u, _) => !h.queue.locked && u in h.users
    case Password(u, _) => !h.queue.locked && u in h.users
    case Lose(u) => !h.queue.locked && u in h.users
    case Choke(u, _) => u in h.users
    case Lock => !h.queue.locked
    case Next => h.queue.locked && h.queue.pos < |h.queue.q1|
    case Unlock => h.queue.locked && h.queue.pos == |h.queue.q1|
  }

  /** The action touches no user object that has been destroyed. */
  ghost predicate Safe(h: Hub, a: Action)
    requires Offered(h, a)
  {
    && (a.Next? ==> h.queue.q1[h.queue.pos].user in h.users)
    && (a.Info? ==> forall n :: n in h.uman.nicks ==> h.uman.nicks[n] in h.users)
    && (a.Support? && a.accepted && h.users[a.user].state.Protocol? ==> a.sid < |h.sids.slots|)
  }

  ghost function Act(h: Hub, a: Action): Hub
    requires Offered(h, a) && Safe(h, a)
  {
    match a
    case Connect => h.(users := h.users[h.next := User(Protocol, 0, "", "", 0, 0, false, false)], next := h.next + 1)
    case Support(u, ok, sid) =>
      if !h.users[u].state.Protocol? then h else if ok then Handshake(h, u, sid) else Disconnect(h, u)
    case Info(u, at) =>
      if Connecting(h.users[u]) then InfoLogin(h, u, at)
      else if Disconnecting(h.users[u]) then h
      else InfoUpdate(h, u, at.size, at.files, at.limitsOk)
    case Password(u, ok) =>
      if !h.users[u].state.Verify? then h else if ok then LogIn(h, u) else Disconnect(h, u)
    case Lose(u) => Disconnect(h, u)
    case Choke(u, on) => h.(users := h.users[u := h.users[u].(choke := on)])
    case Lock => h.(queue := h.queue.(locked := true, pos := 0))
    case Next =>
      var e := h.queue.q1[h.queue.pos];
      Dispatch(h.(queue := h.queue.(pos := h.queue.pos + 1, dispatched := h.queue.dispatched + [e])), e)
    case Unlock => h.(queue := h.queue.(locked := false, q1 := h.queue.q2, pos := 0, q2 := []))
  }

  /** One step: the action is on offer, meets no destroyed user, and leads from `h` to `h'`. */
  ghost predicate Steps(h: Hub, a: Action, h': Hub) {
    Offered(h, a) && Safe(h, a) && h' == Act(h, a)
  }
}
