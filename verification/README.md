# uhub in Dafny

A model of the parts of uhub, an ADC hub, whose correctness is hard to see from the code, with proofs.  uhub is a
single-threaded event loop; its hard properties sit in six places.

**Red-black tree** (`RbShape`, `RbDescent`, `RbNodes`, `RbOrder`, `RbRepair`, `RbCourse`, `RbInsert`, `RbRemove`, `RbWalk`,
`RbTree`, `NameOrder`).  `RbTree.RbTree` keeps mutable nodes; a ghost tree says which shape they spell out, a path says where the
removal loop or the iterator stands in it.  Values and order are reasoned about on the shape, pointers in small in-place methods.

**Lifecycle of users** (`HubState`, `HubLife`, `HubNames`, `HubSafety`, `HubRuns`, `HubMoves`, `UserManager`, `HubServer`, `SidPool`).
`HubState` gives each step of a running hub as a function on its state; a run is any sequence of connects, SUP, INF and PAS messages,
lost connections, and turns of the event queue.  `HubRuns` states what holds in all runs, `HubMoves` what a step does to each user,
told by its causes, and who can be on the list at all.  `HubServer.HubServer` carries the steps out in memory, with
the logged-in users in a `UserManager.UserManager`, whose nick and CID indices are red-black trees.

**Timing wheel** (`TimeoutList`, `TimeoutQueue`): buckets of intrusive lists, with the sentinel list for events inserted while the
wheel is drained, against a plain map from events to deadlines.  What callbacks do is a script of insertions, removals and renewals.

**ADC messages** (`AdcEscape`, `AdcArgs`, `AdcMessage`, `AdcParse`, `SidText`, `InfoRules`): escaping, the in-place argument editor
against lists of arguments, parsing and building, and the rules for INF messages built on them.

**Framing** (`Framing`): lines out of arbitrary reads, with overlong lines skipped.

**Bit-level code** (`Base32`, `Utf8`, `IpRange`).

`Options`, `Powers` and `Sequences` hold what several of these share.  `dafny verify dfyconfig.toml` checks the project.

Where the code does not meet what one would expect of it, the model does what the code does, a lemma gives an input, and another
gives the exact condition: the SID probe that leaves its table (`SidPool.ProbeStaysInTable`, `SidPool.ProbeLeavesTable`), the
password login without a duplicate check (`HubRuns.RunIsExactIffGuarded`, `HubRuns.PasswordLoginsCanShareANick`), the read of no bytes that
drops the partial line (`Framing.EmptyReadLosesThePartialLine`), and IPv4 ranges compared by a wrapped difference
(`IpRange.InRange4IsExact`, `IpRange.Prefix4IsExact`, `IpRange.Misjudged`).

## Model

| member | source | states |
|---|---|---|
| `RbTree.RbTree.constructor` | src/util/rbtree.c:158-169 | A new tree is valid, has no nodes and stands for the empty map. |
| `RbTree.RbTree.Search` | src/util/rbtree.c:25-36 | The node of the key exactly when the key is in the map, with its value; the number of comparisons `steps` satisfies `2^steps <= (n+1)^2`, that is, at most `2*log2(n+1)` for `n` elements. |
| `RbTree.RbTree.Get` | src/util/rbtree.c:290-296 | Lookup is map lookup. |
| `RbTree.RbTree.Insert` | src/util/rbtree.c:178-191 | Keeps the red-black, search-order and linking invariants; the map gains the key exactly when it was absent, otherwise nothing changes; result and `elements` say which. |
| `RbTree.RbTree.Remove` | src/util/rbtree.c:198-288 | Keeps all invariants; the map becomes the old map minus the key, `elements` drops by one exactly when the key was there, and the result says which; no new nodes. |
| `RbTree.RbTree.First` | src/util/rbtree.c:322-332 | On a non-empty tree the iterator stands at the smallest key with the root-to-parent path on its stack. |
| `RbTree.RbTree.Traverse` | src/util/rbtree.c:335-371 | From key `i` to key `i+1` or `i-1`; the stack is again the root-to-parent path; past either end the iterator is null with an empty stack. |
| `RbTree.RbTree.Inwards` | src/util/rbtree.c:340-350 | The downward half of a step reaches the neighbouring key. |
| `RbTree.RbTree.Outwards` | src/util/rbtree.c:352-371 | The upward half of a step reaches the neighbouring key or leaves the tree. |
| `RbTree.RbTree.ThereAndBack` | src/util/rbtree.c:373-381 | A step forth and back (either way round) returns to the same node with the same stack. |
| `RbTree.RbTree.Keys` | src/util/rbtree.c:322-376 | From the first key, repeated next lists every key of the map once, in strictly ascending order, and ends off the tree. |
| `RbTree.SearchFrom` | src/util/rbtree.c:28-35 | The search loop ends at the node of the key if there is one and takes at most as many steps as the tree is high. |
| `RbTree.Slide` | src/util/rbtree.c:326-330 | The walk along one edge of a subtree ends at the outermost node of that side, with every node passed on the stack. |
| `RbTree.Climb` | src/util/rbtree.c:352-370 | The upward walk ends at the first ancestor on the other side, or with nothing at the end of the tree. |
| `RbTree.InsertInto` | src/util/rbtree.c:183-186 | Recursive insertion and blackening yield a red-black tree whose in-order sequence has the new cell at its place. |
| `RbInsert.InsertR` | src/util/rbtree.c:118-155 | The recursive in-place insertion produces in memory exactly the value-level insertion with repair; only the new node is allocated. |
| `RbInsert.RepairInsertion` | src/util/rbtree.c:135-152 | The colour flip and the two rotation cases rewrite the nodes into the repaired tree. |
| `RbShape.InsertAtOrder` | src/util/rbtree.c:118-155 | Insertion with all its repairs leaves the old sequence with one element put in at the chosen index. |
| `RbShape.InsertAtBalance` | src/util/rbtree.c:118-155 | Below a black root insertion gives a red-black tree of the same black height; below a red root at most the root has one red child. |
| `RbShape.HeightIsLogarithmic` | src/util/rbtree.c:25-36 | A red-black tree of `n` nodes has height `h` with `2^h <= (n+1)^2`. |
| `RbShape.RotateSingleKeepsOrder` | src/util/rbtree.c:100-110 | A single rotation keeps the in-order sequence. |
| `RbShape.RotateDoubleKeepsOrder` | src/util/rbtree.c:112-116 | A double rotation keeps the in-order sequence. |
| `RbNodes.RotateSingle` | src/util/rbtree.c:100-110 | The pointer rotation produces the rotated shape from the same nodes, for either direction. |
| `RbNodes.RotateDouble` | src/util/rbtree.c:112-116 | The same for the double rotation. |
| `RbDescent.RepairKeepsOrder` | src/util/rbtree.c:230-262 | Every push-a-red-down case of the removal loop keeps the in-order sequence of the whole tree. |
| `RbDescent.RepairBalance` | src/util/rbtree.c:230-262 | Every push-a-red-down case keeps black heights and the no-red-red rule along the path and leaves a red node in hand. |
| `RbDescent.StepBalance` | src/util/rbtree.c:219-224 | Going one level down keeps the balance invariant of the loop. |
| `RbDescent.EndOfDescent` | src/util/rbtree.c:265-276 | At the bottom the node in hand can be cut out without changing any black height. |
| `RbRepair.RotateCurrent` | src/util/rbtree.c:233-234 | The rotation at the current node, relinked below its parent, realises the repaired path and subtree. |
| `RbRepair.FlipColours` | src/util/rbtree.c:240-246 | The colour flip realises the repaired path and subtree. |
| `RbRepair.LiftNephew` | src/util/rbtree.c:247-259 | The double rotation around the parent with the recolouring realises the repaired path and subtree. |
| `RbRepair.LiftSibling` | src/util/rbtree.c:247-259 | The single rotation around the parent with the recolouring realises the repaired path and subtree. |
| `RbRemove.PushRedDown` | src/util/rbtree.c:230-262 | All cases together: the heap after the step is the value-level repair, whichever branch was taken. |
| `RbRemove.Turn` | src/util/rbtree.c:216-262 | One turn of the removal loop keeps heap shape, balance and the position of the key relative to the current node. |
| `RbRemove.Descend` | src/util/rbtree.c:208-263 | The whole loop ends at a node without a child on the search side, in balance, with `f` the node of the key if there is one. |
| `RbRemove.FinishFound` | src/util/rbtree.c:265-276 | Copying the last node into the found one and cutting the last one out removes exactly the key and keeps the tree red-black. |
| `RbRemove.RemoveFrom` | src/util/rbtree.c:198-288 | The complete removal: in-order contents lose exactly the entry of the key (nothing if absent), the root is black, the tree red-black. |
| `RbWalk.PositionIsUnique` | src/util/rbtree.c:303-381 | Equal index in an equal tree means the same node and the same path, which is why next and prev undo each other. |
| `NameOrder.StrcmpIsTotalOrder` | src/core/usermanager.c:41-44 | `strcmp` on NUL-free strings is a total order, as the trees require of their comparison. |
| `NameOrder.StrcmpIsLexicographic` | src/core/usermanager.c:41-44 | It is the order of a dictionary: a proper start comes first, otherwise the first difference decides. |
| `NameOrder.NewIndex` | src/core/usermanager.c:47-59 | The nick and CID indices start as valid trees under that order, standing for the empty map. |
| `SidPool.Probe` | src/adc/sid.c:147-150 | Whenever the count leaves room the probe ends within one round of the table, at the first empty slot from its start (modulo the size), which is not slot 0. |
| `SidPool.ProbeStaysInTable` | src/adc/sid.c:147-154 | The index the probe returns lies inside the table if and only if there is an empty slot between its start and the end; then it is the first such slot. |
| `SidPool.ProbeLeavesTable` | src/adc/sid.c:147-154 | A concrete history of allocations and a release, each at the index its probe stops at, after which the next probe stops outside the table although a slot is free. |
| `SidPool.TakeKeepsWellFormed` | src/adc/sid.c:136-155 | Allocating keeps: slot 0 is the hub's, and the count equals the number of occupied slots. |
| `SidPool.ReleaseKeepsWellFormed` | src/adc/sid.c:157-164 | Freeing a used slot keeps the same, and the count was positive. |
| `SidPool.ReleaseExactly` | src/adc/sid.c:157-164 | With a positive count, freeing an index of the table keeps the pool in order if and only if that slot was in use: freeing slot 0 or an empty slot breaks the count. |
| `SidPool.FreshIsWellFormed` | src/adc/sid.c:104-125 | A new pool is in that state. |
| `SidPool.SidTable.constructor` | src/adc/sid.c:104-125 | The table in memory starts as the fresh pool. |
| `SidPool.SidTable.Alloc` | src/adc/sid.c:136-155 | 0 and no change when full; otherwise the user is stored at the first free slot from `count+1` on, whose index is returned and was not 0. |
| `SidPool.SidTable.Free` | src/adc/sid.c:157-164 | The slot becomes empty and the count drops by one; the pool is in order afterwards exactly when the slot was in use. |
| `SidPool.SidTable.Lookup` | src/adc/sid.c:166-171 | The slot of a valid identifier and nothing for 0 or an identifier beyond the table. |
| `HubRuns.RunIsGood` | src/core/hub.c:534-593 | In every run of a running hub: the queue is first-in first-out overall, each user is in a proper stage of its life, list, indices and SID slots name only living users, `count` is the length of the list, and the share totals are the sums over the list modulo 2^64. |
| `HubRuns.RunNeverMeetsTheDead` | src/core/hub.c:534-593 | Whatever may happen next in a run is safe: no step touches a destroyed user, so every run can be continued with every action on offer. |
| `HubRuns.EventsAreOrderly` | src/core/hub.c:1234-1246 | Dispatch order is post order, and each user gets at most one JOIN, one QUIT and one DESTROY, DESTROY last. |
| `HubRuns.DestroyedIsForgotten` | src/core/hub.c:567-576 | A destroyed user is named by no pending event, list entry, nick or CID entry, or SID slot. |
| `HubRuns.DestroyedForever` | src/core/hub.c:574-576 | No step brings a destroyed user back. |
| `HubRuns.DestroyedStaysForgotten` | src/core/hub.c:574-576 | Over the whole rest of any run a destroyed user stays destroyed and the hub stays in order. |
| `HubRuns.SidsAreDistinct` | src/core/usermanager.c:127-130 | Users that are not about to be destroyed never share a non-zero SID, and looking the SID up finds the user. |
| `HubRuns.ExactMeansUnique` | src/core/usermanager.c:86-101 | When the indices invert the list, no two listed users share a nick or a CID. |
| `HubRuns.LogInExactly` | src/core/hub.c:518-532 | Logging in keeps both indices exact inverses of the list if and only if neither nick nor CID is taken. |
| `HubRuns.ActKeepsExact` | src/core/hub.c:551-564 | Every step keeps the indices exact, except a password login of a user whose nick or CID is taken. |
| `HubRuns.RunIsExact` | src/core/hub.c:551-564 | In every run whose password logins pass the duplicate check, both indices are exact inverses of the logged-in list throughout, also when a ghost's QUIT and the replacement's JOIN are queued together. |
| `HubRuns.RunIsExactIffGuarded` | src/core/hub.c:258-268 | Over any run: the indices are exact in every state if and only if no correct password comes from a user whose nick or CID is taken at that moment. |
| `HubRuns.PasswordLoginsCanShareANick` | src/core/hub.c:258-268 | A run, step by step, at whose end two listed users have the same nick and the index knows only the first: the password path makes no duplicate check. |
| `HubMoves.StepMoves` | src/core/hub.c:45-158 | What any step does to any user, told by its causes alone: who leaves (a refused SUP, INF or PAS, a lost connection, a choked owner of the names asked for, a duplicate at the join), who logs in, who is asked for a password or greeted, what is posted about the user, which fields change and to what; and nothing else changes about anybody. |
| `HubMoves.ListedIsEntitled` | src/core/hub.c:258-278 | In every run, whoever is on the list was let in by an INF of its own that passed every check, under exactly the nick and CID it has now; and if that INF asked for a password, has sent the right one since. |
| `HubMoves.RefusalTurnsAway` | src/core/hub.c:265-273 | Every refusal of SUP, INF or PAS and every lost connection leaves the user disconnecting, and never on the list if not there before. |
| `HubMoves.OnlyTheEntitledLogIn` | src/core/hub.c:551-564 | A user comes onto the list exactly by a dispatched join that needs no password and finds both names free, or by its own correct password in the verify state. |
| `HubMoves.LoginExactly` | src/core/inf.c:724-813 | The outcome of a login attempt for everybody: let in, with the names and shares it gave and one JOIN, exactly if every check passes and the names are free or one choked user has both; otherwise turned away with DESTROY; nobody but that choked user is touched. |
| `HubMoves.CheckExactly` | src/core/inf.c:330-371 | The duplicate check passes a newcomer exactly if nick and CID are free or belong to one choked user, who is then disconnected. |
| `HubMoves.CheckSparesTheHealthy` | src/core/inf.c:343-355 | The duplicate check leaves every user who is not choked as it was. |
| `HubMoves.OthersSpareTheHealthy` | src/core/inf.c:770-855 | No SUP, INF or PAS of another user changes anything about a user who is not choked. |
| `HubMoves.ChokedMakesWay` | src/core/inf.c:341-350 | A choked user with both names is in cleanup afterwards, with a QUIT posted if it was logged in, and the newcomer has its JOIN. |
| `HubMoves.QuitFreesNames` | src/core/usermanager.c:103-124 | Once a QUIT has been dispatched, the nick and the CID of the user are free. |
| `HubMoves.DisconnectExactly` | src/core/hub.c:1279-1312 | Disconnecting touches no user but the one, announces QUIT for a logged-in and DESTROY for a connecting user, and nothing for one already on the way out. |
| `HubSafety.ActIsGood` | src/core/hub.c:45-158 | Every single step that is on offer is safe and keeps all of it, from any state in order. |
| `HubSafety.NextJoinIsGood` | src/core/hub.c:543-565 | Dispatching a JOIN keeps the hub in order in all its outcomes. |
| `HubSafety.NextQuitIsGood` | src/core/hub.c:567-572 | Dispatching a QUIT keeps the hub in order: list, indices, totals and SID are given up together. |
| `HubSafety.NextDestroyIsGood` | src/core/hub.c:574-576 | Dispatching a DESTROY keeps the hub in order: nothing that names the user is left. |
| `HubSafety.UpdateIsGood` | src/core/inf.c:451-485 | Taking over the shares an update gives, both, one or none, keeps the hub in order: the totals stay the sums over the list modulo 2^64 by subtract-then-add, also when the new limits are refused and the user is disconnected. |
| `HubSafety.RemoveKeepsBooks` | src/core/usermanager.c:103-124 | Removing a listed user keeps count and totals right and leaves no index entry for it. |
| `HubLife.PostIsFifo` | src/core/eventqueue.c:103-123 | Posting to either list keeps the overall first-in first-out order. |
| `UserManager.UserManager.constructor` | src/core/usermanager.c:47-59 | Two empty red-black trees under `strcmp`, an empty list and zero totals stand for the empty manager. |
| `UserManager.UserManager.Add` | src/core/usermanager.c:86-101 | Inserting into list and both trees stands for the add step on maps: an existing key wins, the trees stay valid and disjoint, all new memory is fresh, totals are 64-bit sums. |
| `UserManager.UserManager.Remove` | src/core/usermanager.c:103-124 | Removing from list and both trees stands for the remove step on maps, whoever owns the entries; the trees stay valid and disjoint. |
| `UserManager.UserManager.ByNick` | src/core/usermanager.c:140-144 | The tree search by nick is lookup in the map the manager stands for. |
| `UserManager.UserManager.ByCid` | src/core/usermanager.c:133-137 | The tree search by CID is lookup in the map the manager stands for. |
| `UserManager.UserManager.Share` | src/core/inf.c:451-485 | Each share that is given moves its total from the old to the new share modulo 2^64; one that is not given leaves it; list and trees stay. |
| `HubServer.HubServer.constructor` | src/core/eventqueue.c:32-52 | A hub object with a fresh user manager and SID table, disjoint from each other, stands for the initial state of the step model. |
| `HubServer.HubServer.ProcessNext` | src/core/eventqueue.c:80-84 | One turn of the dispatch loop is the dispatch step, safe and order-keeping. |
| `HubServer.HubServer.ProcessQueue` | src/core/eventqueue.c:71-101 | Exactly the events posted before the call are dispatched, in order; those posted meanwhile become the queue; the result says whether there are any; a nested call does nothing and returns false. Keeps the hub in order, trees included. |
| `HubServer.HubServer.LockQueue` | src/core/eventqueue.c:77-78 | Locking is the lock step. |
| `HubServer.HubServer.UnlockQueue` | src/core/eventqueue.c:86-93 | Clearing the first list, unlocking and transferring the second loses no event. |
| `HubServer.HubServer.ScheduleDestroyUser` | src/core/hub.c:1234-1246 | Posts DESTROY and gives the SID back. |
| `HubServer.HubServer.DisconnectUser` | src/core/hub.c:1279-1312 | Nothing for a user already on the way out; otherwise cleanup and QUIT for a logged-in user, DESTROY for any other. |
| `HubServer.HubServer.LoginSucceeded` | src/core/hubevent.c:24-42 | The user becomes normal and enters list and both trees, which afterwards stand for the maps of the login step. |
| `HubServer.HubServer.DispatchLogin` | src/core/hub.c:551-564 | The duplicate check by the two tree searches decides between login and disconnect exactly as the step on maps does. |
| `HubServer.HubServer.ConnectUser` | src/core/user.c:38-66 | A new user object in the protocol state. |
| `HubServer.HubServer.SendHandshake` | src/core/hub.c:475-487 | A SID is taken (0 when the pool is full) and the user goes on to identify. |
| `HubServer.HubServer.HandleSupport` | src/core/hub.c:161-255 | SUP counts only in the protocol state and leads to the handshake or to a disconnect; every user moves as the causes say; keeps the hub in order. Only an accepted SUP in that state needs room for a SID. |
| `HubServer.HubServer.HandlePassword` | src/core/hub.c:258-278 | PAS counts only in the verify state: a correct one logs in, a wrong one leads out; every user moves as the causes say; keeps the hub in order. |
| `HubServer.HubServer.CheckNotLoggedIn` | src/core/inf.c:330-371 | By the two tree searches: a login is let through if neither nick nor CID is listed, or both belong to one choked user, who is then disconnected; no user who is not choked is changed. |
| `HubServer.HubServer.HandleUpdate` | src/core/inf.c:833-839 | An update by a logged-in user moves the totals with the shares it gives, both, one or none, also when it is then refused. |
| `HubServer.HubServer.HandleInfo` | src/core/inf.c:770-855 | BINF is the step of the user's state: login, update, or nothing; every user moves as the causes say; safe and order-keeping. |
| `TimeoutQueue.TimeoutQueue.constructor` | src/network/timeout.c:41-47 | A new queue is valid with no event. |
| `TimeoutQueue.TimeoutQueue.Insert` | src/network/timeout.c:187-215 | The event gets the deadline `last + seconds` and joins the wheel, or the end of the waiting list while the queue is locked; all other deadlines stay. |
| `TimeoutQueue.TimeoutQueue.InsertWheel` | src/network/timeout.c:200-214 | Appending to the bucket of the deadline keeps the wheel: every bucket list intact, every event filed under its deadline. |
| `TimeoutQueue.TimeoutQueue.InsertLocked` | src/network/timeout.c:131-154 | The waiting list gains the event at its end; sentinel pointers stay right. |
| `TimeoutQueue.TimeoutQueue.Remove` | src/network/timeout.c:217-255 | The event leaves the wheel or the waiting list, wherever it is; nothing for an unscheduled one; everything else stays. |
| `TimeoutQueue.TimeoutQueue.RemoveWheel` | src/network/timeout.c:229-254 | All three unlinking cases (first, last, middle) keep the wheel. |
| `TimeoutQueue.TimeoutQueue.RemoveLocked` | src/network/timeout.c:156-183 | The waiting list loses exactly the event, at its index, and keeps the order of the others. |
| `TimeoutQueue.TimeoutQueue.Reschedule` | src/network/timeout.c:257-262 | Whatever the event was before, it is scheduled once, at the new deadline. |
| `TimeoutQueue.TimeoutQueue.Unlock` | src/network/timeout.c:67-96 | Every waiting event enters the wheel under its own deadline; none is lost: the deadlines are those of the wheel and those that waited. |
| `TimeoutQueue.TimeoutQueue.Process` | src/network/timeout.c:99-117 | Events fire once each, in deadline order, only if due at `now` and not touched by an earlier callback of the call; every due event fires or is touched by a callback; afterwards the deadlines are, as a map from events to times, the old ones minus the fired and the touched, plus what the callbacks renewed at `now + seconds`, the last operation on an event deciding. Callbacks may insert, renew or remove any event, also new ones and the one that fires. Terminates. |
| `TimeoutQueue.TimeoutQueue.DrainUpTo` | src/network/timeout.c:106-114 | The loop over the seconds since the last call: after it everything due has fired in turn or was touched, the wheel holds the untouched rest, and the waiting list holds what callbacks renewed, with its deadlines. |
| `TimeoutQueue.TimeoutQueue.DrainSecond` | src/network/timeout.c:106-114 | One second of that loop: the same account, with everything up to that second done. |
| `TimeoutQueue.TimeoutQueue.Drain` | src/network/timeout.c:108-113 | The inner loop keeps the account of fired, touched and renewed events, leaves nothing in the wheel up to its second, and ends because the locked wheel only shrinks. |
| `TimeoutQueue.TimeoutQueue.FireNext` | src/network/timeout.c:108-113 | Taking the first event of a bucket out and running its callback keeps the account and makes the wheel smaller, whatever the callback does. |
| `TimeoutQueue.TimeoutQueue.NextTimeout` | src/network/timeout.c:119-129 | At the time of the last call: the seconds to the earliest deadline, at least 1, and `max` for an empty wheel. |
| `TimeoutQueue.SameResidue` | src/network/timeout.c:190-206 | Two deadlines less than `max` apart share a bucket only if they are equal: what the assertion in the code relies on. |
| `TimeoutList.Append` | src/network/timeout.c:202-213 | Appending to a bucket list with its wrapped `prev` pointer. |
| `TimeoutList.Unlink` | src/network/timeout.c:232-254 | Unlinking the first, last or a middle event of a bucket list. |
| `TimeoutList.Await` | src/network/timeout.c:137-152 | Appending to the sentinel list. |
| `TimeoutList.StopWaiting` | src/network/timeout.c:158-182 | Taking an event out of the singly linked sentinel list. |
| `Framing.FramingIsChunkIndependent` | src/core/netevent.c:24-103 | However a byte stream is cut into non-empty reads, the lines handed on are exactly the completed lines with `0 < length < max_recv_buffer`, in order; the partial line is held, or known to be too long. |
| `Framing.FramingOfAnyReads` | src/core/netevent.c:24-103 | The same for all sequences of reads, also of no bytes: each of those takes back the partial line, unless that is known to be too long already. |
| `Framing.EmptyReadKeeps` | src/core/netevent.c:28-48 | A read of no bytes leaves what the reader has seen intact if and only if no partial line is held. |
| `Framing.DeliverKeeps` | src/core/netevent.c:24-103 | One non-empty read extends what has been seen by exactly its bytes, whatever the skip flag. |
| `Framing.EmptyReadLosesThePartialLine` | src/core/netevent.c:28-48 | A read of no bytes is harmless if and only if no partial line is held: otherwise the next newline ends a different line. |
| `Framing.NetReader.HandleRead` | src/core/netevent.c:24-103 | The buffer code does what the step model says; the handler gets lines in order up to and including the first one it refuses, and the return value says whether and why to quit. |
| `Framing.NetReader.Consume` | src/core/netevent.c:50-101 | The scanning and saving part on a filled buffer. |
| `Framing.NetReader.ScanBuffer` | src/core/netevent.c:57-82 | The scanning loop over the buffer is the scan of its text; on a refusal what was handed on is a prefix of what would have been. |
| `Framing.NetReader.TakeLine` | src/core/netevent.c:59-76 | One line is skipped, handed on or dropped; the newline is put back. |
| `Framing.NetReader.FindNewline` | src/core/netevent.c:57-57 | The position of the first newline. |
| `Framing.NetReader.Fill` | src/core/ioqueue.c:52-65 | The saved partial line and the new bytes stand in the buffer one after the other, and the queue is empty. |
| `Framing.NetReader.Keep` | src/core/netevent.c:84-100 | The rest is saved if shorter than the limit; otherwise nothing is saved and the skip flag is set. |
| `AdcEscape.UnescapeEscape` | src/adc/message.c:904-1010 | `unescape(escape(s)) = s` for every string. |
| `AdcEscape.EscapeUnescape` | src/adc/message.c:67-92 | `escape(unescape(t)) = t` if and only if `t` passes the escape check and has no raw space or newline. |
| `AdcEscape.EscapedIsPlain` | src/adc/message.c:973-1010 | Escaped text has no space, newline or new NUL and passes the escape check. |
| `AdcEscape.EscapedByLetter` | src/adc/message.c:973-1010 | Escaping is letter by letter: `\s` for a space, `\n` for a newline, two backslashes for one, every other letter itself. |
| `AdcEscape.UnescapedByLetter` | src/adc/message.c:920-971 | Unescaping is one letter or one code at a time; an unknown code stands for its letter, a backslash at the end for nothing. |
| `AdcEscape.CheckEscapes` | src/adc/message.c:67-92 | Accepts exactly the texts in which every backslash is followed by one of the three codes. |
| `AdcEscape.EscapeLength` | src/adc/message.c:869-877 | Exactly the length of the escaped text. |
| `AdcEscape.UnescapeLength` | src/adc/message.c:880-901 | Exactly the length of the unescaped text. |
| `AdcEscape.Escape` | src/adc/message.c:973-1010 | The allocated buffer is filled exactly: the escaped text and one terminator. |
| `AdcEscape.UnescapeToTarget` | src/adc/message.c:920-971 | The unescaped text cut to what fits before the terminator; the result is the number of bytes written. |
| `AdcEscape.Unescape` | src/adc/message.c:904-918 | The allocated buffer is filled exactly. |
| `AdcArgs.SplitJoin` | src/adc/message.c:718-767 | Clean arguments written one after the other are told apart again by the spaces. |
| `AdcArgs.JoinSplit` | src/adc/message.c:778-830 | Splitting argument text at its spaces and writing it again restores it. |
| `AdcArgs.FindInJoin` | src/adc/message.c:592-592 | Searching the raw text for a space and a name finds the first argument of that name, or nothing if there is none. |
| `AdcArgs.CutArgument` | src/adc/message.c:593-618 | Cutting the text from one space to the next takes exactly one argument out of the list. |
| `AdcArgs.WithoutIsFilter` | src/adc/message.c:580-627 | Removal leaves no argument of the name and keeps all others with multiplicity and order. |
| `AdcMessage.PartsAreUnique` | src/adc/message.c:166-197 | The text of a message and the length of its start determine start and arguments. |
| `AdcMessage.ReadBack` | src/adc/message.c:653-740 | A string stored escaped under a fresh name is read back and unescapes to itself. |
| `AdcMessage.Rounded` | src/adc/message.c:125-126 | The new capacity: a multiple of eight, more than the size and both terminators, less than ten bytes more. |
| `AdcMessage.Message.Construct` | src/adc/message.c:548-577 | The command and a newline, or no text for code 0; NUL at the length, capacity beyond the size asked for. |
| `AdcMessage.Message.Receive` | src/adc/message.c:392-411 | The line with a final newline (added only if missing), NUL at the length, capacity beyond it. |
| `AdcMessage.Message.Copy` | src/adc/message.c:245-298 | Same text and fields in a buffer of its own. |
| `AdcMessage.Message.Grow` | src/adc/message.c:114-142 | Capacity beyond the size asked for; the text stays. |
| `AdcMessage.Message.Append` | src/adc/message.c:145-159 | The text gains the string; capacity stays beyond the length and NUL is at the length. |
| `AdcMessage.Message.Terminate` | src/adc/message.c:699-705 | Exactly one newline is added, unless the text ends in one. |
| `AdcMessage.Message.Unterminate` | src/adc/message.c:707-716 | The final newline, if any, is taken off. |
| `AdcMessage.Message.RemoveNamed` | src/adc/message.c:580-627 | Deletes exactly the arguments of the name, keeps the rest in order, returns how many there were; buffer invariants kept; terminates. |
| `AdcMessage.Message.HasNamed` | src/adc/message.c:630-650 | The number of arguments of the name; the search that looks one byte past the text stays in the buffer. |
| `AdcMessage.Message.GetNamed` | src/adc/message.c:653-680 | The text behind the name of the first such argument, without the newline; nothing if there is none. |
| `AdcMessage.Message.ReplaceNamed` | src/adc/message.c:683-696 | All arguments of the name are gone and the new one stands at the end; everything else keeps its order. |
| `AdcMessage.Message.AddNamed` | src/adc/message.c:718-732 | The arguments gain the named one at the end (several, if the value has spaces); buffer invariants kept. |
| `AdcMessage.Message.AddNamedString` | src/adc/message.c:734-740 | The arguments gain exactly one, the name and the escaped text. |
| `AdcMessage.Message.AddArgument` | src/adc/message.c:756-767 | The arguments gain the new one at the end. |
| `AdcMessage.Message.GetArgument` | src/adc/message.c:778-830 | The argument at the index; nothing if it is missing or empty; the message is left as it was. |
| `AdcMessage.Message.IsEmpty` | src/adc/message.c:200-211 | True exactly when there is no argument. |
| `AdcParse.ParseUndoesConstruct` | src/adc/message.c:358-577 | For every clean H, I, B, F, D or E command of printable, well-escaped UTF-8, SIDs below 2^20, list of signed four-letter features (not empty for F) and list of clean printable well-escaped UTF-8 arguments, the text is accepted, and parsing restores command, source, target, features by sign and every argument. |
| `AdcParse.Parse` | src/adc/message.c:358-515 | A line becomes a message exactly when it is long enough, printable UTF-8, well escaped, has a proper start and a space or newline behind it; the message holds the line and what its start says. |
| `AdcParse.AcceptedExactly` | src/adc/message.c:358-515 | A line is accepted if and only if its text passes the checks and it begins with a command, the identifiers and features of its kind, and then a space or newline; only the character before the features is not looked at. |
| `AdcParse.BeginsMeans` | src/adc/message.c:413-481 | Such a line is read as saying exactly those identifiers and features, and its arguments start behind them. |
| `AdcParse.FeaturesRead` | src/adc/message.c:445-466 | From the text of signed features, `+` names go to the included and `-` names to the excluded ones, in order, and the scan stops behind the last. |
| `AdcParse.ScanFeatures` | src/adc/message.c:448-470 | For every line with features behind its SID, exactly the `+` names are included and the `-` names excluded, in order; a truncated one is dropped. |
| `AdcParse.ReadEnvelope` | src/adc/message.c:413-481 | Source, target and features by the kind of command; nothing for a malformed start. |
| `AdcParse.ConstructSource` | src/adc/message.c:523-532 | The command with the sender in its start; ready for arguments. |
| `AdcParse.ConstructSourceDest` | src/adc/message.c:534-545 | The command with sender and receiver in its start; ready for arguments. |
| `SidText.FromToText` | src/adc/sid.c:22-76 | Every SID below 2^20 is restored from its four letters. |
| `SidText.ToFromText` | src/adc/sid.c:22-76 | Every four letters are restored from the SID they stand for. |
| `SidText.NumberOfFour` | src/adc/sid.c:53-76 | The first letter is the most significant: four letters stand for their base-32 number. |
| `SidText.ValuesOfText` | src/adc/sid.c:22-51 | The letters of a SID are its base-32 digits, the most significant first. |
| `SidText.StringToSid` | src/adc/sid.c:53-76 | Four letters give their number; anything else gives 0. |
| `InfoRules.InfoOverARun` | src/core/inf.c:724-855 | From any accepted login, over any sequence of updates, accepted or refused: exactly one nick and one client identifier, both as given at login, no private identifier, the client type the hub gave, and the address the hub saw as the only one (or the one a translated client gave). |
| `InfoRules.UpdatesKeepIdentity` | src/core/inf.c:815-855 | No sequence of updates changes the NI, ID, CT, I4, I6 or PD arguments of the stored info. |
| `InfoRules.LastWordStands` | src/core/inf.c:815-855 | After any sequence of updates every name has what the accepted ones said last, or what it had at login if they said nothing; refused updates count for nothing. |
| `InfoRules.UpdateIsFilter` | src/core/inf.c:815-848 | What is stored and relayed of an update is everything in it, in order, but the names only the hub may give, the six of the identity and, in low bandwidth mode only, the heavy ones. |
| `InfoRules.UpdateHasNoIdentity` | src/core/inf.c:815-852 | What is stored and relayed of an update has none of these six. |
| `InfoRules.LoginIdentity` | src/core/inf.c:724-755 | The info stored at login has the one nick and identifier given, no private identifier, exactly the client type of the credentials, and exactly the addresses the network check leaves. |
| `InfoRules.LoginPick` | src/core/inf.c:724-755 | For every name outside the network: its arguments at login are kept unless it is restricted, the private identifier, or heavy in low bandwidth mode; the client type is the hub's. |
| `InfoRules.LastWriterWins` | src/core/user.c:110-144 | After an update every name it mentions has exactly its last argument; every other name has what it had. Reading stops at the first empty argument. |
| `InfoRules.OverrideLookup` | src/core/user.c:110-144 | The same as map override: a name reads as the last value written, or as before. |
| `InfoRules.UpdateInfo` | src/core/user.c:110-144 | The new info message is the old one overridden by the update; the update keeps what it says. |
| `InfoRules.WriteAll` | src/core/user.c:129-141 | The loop over the arguments is the override. |
| `InfoRules.CheckRequired` | src/core/inf.c:153-181 | Passes exactly when ID, PD and NI each occur once; otherwise the status says which is the first that does not, and whether it is missing or repeated. |
| `InfoRules.CheckNetwork` | src/core/inf.c:189-223 | Afterwards the address the hub saw is the only one of its family and the other family is gone with its port; only a translated client that gives an IPv4 address other than 0.0.0.0 keeps its own, without any IPv6 one; other arguments stay. |
| `InfoRules.NetworkAddresses` | src/core/inf.c:189-223 | For all arguments: exactly which I4, I6, U4 and U6 arguments are left, in each of the four cases. |
| `InfoRules.LoginAddresses` | src/core/inf.c:724-755 | The same of the whole login info: no later step of the login brings an address or port back. |
| `InfoRules.SetCredentials` | src/core/inf.c:577-639 | The client type of the credentials is added. |
| `InfoRules.TypeIsBits` | src/adc/adcconst.h:160-166 | The client type is the sum of 1 for the four bots, 2 for a registered user, 4 for operators and above, 8 for super users and 16 for admins, and absent for 0. |
| `InfoRules.RemoveEach` | src/core/inf.c:30-40 | All arguments of the listed names are gone and nothing else changes. |
| `InfoRules.HandleLogin` | src/core/inf.c:706-755 | Succeeds exactly when the required arguments and all other checks are fine; the message then is the login info. |
| `InfoRules.Client.Join` | src/core/inf.c:770-813 | The first good INF becomes the info; while there is one, further INFs change nothing. |
| `InfoRules.Client.Update` | src/core/inf.c:815-855 | What is relayed is exactly what the filter leaves, if anything; the info becomes the stored one overridden by it; when the limits are not met the info is the same object and nothing is relayed. |
| `Utf8.IsValid` | src/util/misc.c:85-149 | Accepts a byte string exactly when it is a concatenation of sequences of the grammar in section 4 of RFC 3629; never reads past the end. |
| `Utf8.CheckLead` | src/util/misc.c:105-145 | The tests on a lead byte and the byte behind it. |
| `Utf8.CountOnes` | src/util/misc.c:107-113 | The number of continuation bytes a lead byte announces. |
| `Utf8.IsPrintable` | src/util/misc.c:156-165 | Accepts a byte string exactly when it is the UTF-8 encoding of a text of readable characters. |
| `Utf8.PrintableIsReadable` | src/util/misc.c:51-58 | Printable text is exactly what texts of scalar values without control characters (but tab, newline, return) and without DEL encode to, beyond ASCII as well. |
| `Utf8.PrintableScalar` | src/util/misc.c:51-58 | The encoding of a single scalar value passes exactly when the value is readable. |
| `Utf8.DecodeEncode` | src/util/misc.c:118-144 | Every sequence of the grammar is the encoding of a scalar value: no overlong forms, surrogates or values above U+10FFFF. |
| `Utf8.EncodeDecode` | src/util/misc.c:118-144 | Every scalar value has its encoding in the grammar. |
| `Base32.Encode` | src/util/misc.c:183-210 | Exactly ceil(8n/5) letters of the alphabet, whose five-bit groups are the bits of the input and then zeros. |
| `Base32.Decode` | src/util/misc.c:212-251 | The bytes hold the bits of the letters in the text, cut at the capacity and filled with zeros; other characters are skipped. |
| `Base32.LettersOfConcat` | src/util/misc.c:218-226 | The letters that are decoded are exactly those of the alphabet, wherever they stand. |
| `Base32.NextWord` | src/util/misc.c:191-206 | The five bits at the current position, also across a byte boundary and at the end. |
| `Base32.Place` | src/util/misc.c:228-249 | Five bits or-ed in at the current position, also across a byte boundary. |
| `Base32.DecodeEncode` | src/util/misc.c:183-251 | Decoding an encoding into any capacity at least the length gives the bytes back, followed by zeros. |
| `Base32.SpellingIsUnique` | src/util/misc.c:183-210 | Only one text of its length spells given bytes, so the encoding is determined. |
| `Base32.ValueOfLetter` | src/util/misc.c:22-35 | The value table inverts the alphabet. |
| `IpRange.PrefixRange6` | src/network/ipcalc.c:355-372 | For every prefix length (clamped to 0..128) an IPv6 address is in the range exactly when it agrees with the base on that many leading bits. |
| `IpRange.Prefix6IsExact` | src/network/ipcalc.c:355-433 | The same as equality of the masked addresses. |
| `IpRange.Prefix4IsExact` | src/network/ipcalc.c:355-433 | For IPv4 the range test is equality of the masked addresses, for all addresses, if and only if the prefix length is between 1 and 31. |
| `IpRange.InRange4IsExact` | src/network/ipcalc.c:326-337 | With the wrapped 32-bit difference, membership is right for all addresses if and only if `1 <= hi - lo <= 2^31`, for all ends, also inverted ones. |
| `IpRange.InRange4At` | src/network/ipcalc.c:430-433 | For one address and any two ends: exactly when the wrapped test and true membership agree. |
| `IpRange.InRange4Fails` | src/network/ipcalc.c:430-433 | A single address also matches the one half way around; the range of everything rejects its own first address; the inverted range 10.0.0.5-10.0.0.1 lets in 138.0.0.1. |
| `IpRange.Misjudged` | src/network/ipcalc.c:430-433 | For every pair of ends outside the condition, an address on which the test is wrong. |
| `IpRange.SamePrefix4` | src/network/ipcalc.c:364-369 | Two IPv4 addresses agree on the prefix exactly when one lies between the ends computed from the other. |
| `IpRange.PrefixEnds4` | src/network/ipcalc.c:364-369 | The computed ends are the base with its free bits cleared and set. |
| `IpRange.MaskLeft6` | src/network/ipcalc.c:182-206 | The byte-wise left mask has ones in exactly the first bits. |
| `IpRange.MaskRight6` | src/network/ipcalc.c:240-264 | The byte-wise right mask has ones in exactly the last bits. |
| `IpRange.And6Of` | src/network/ipcalc.c:289-299 | Byte-wise AND. |
| `IpRange.Or6Of` | src/network/ipcalc.c:312-322 | Byte-wise OR. |
| `IpRange.RangeIsAgreement` | src/network/ipcalc.c:339-342 | Comparing byte by byte with both ends decides agreement on the fixed bits. |
| `IpRange.InRange6IsExact` | src/network/ipcalc.c:339-342 | An IPv6 range, however given, holds exactly the addresses whose number lies between those of its ends. |

## Left out

- Sockets, event backends, TLS, DNS, accept and protocol probing: a read is an arbitrary received value, a send has no effect on the state.
- Plugins, access control lists, Tiger hashing and the password check: their verdicts are inputs of the steps (`HubState.Attempt`, `InfoRules.Context`).
- Configuration, logging, command-line tools and chat commands: they would only add easy members.
- Routing and send queues (`src/core/route.c`): the flag that bypasses the limit for logged-in users leaves no bound to state.
- Hub shutdown, restart and disabled modes, and out-of-memory branches: the hub is running and allocation succeeds.
- `src/util/list.c`: lists are sequences; popping the iterator's stack takes its last element.
- Freeing memory: a removed tree node or a destroyed user is only no longer reachable or no longer in the table of users.
- HubServer.HubServer.SendHandshake: assumes a probe that does not wrap, which by `SidPool.ProbeStaysInTable` is a free slot behind the starting point; what the code does to memory outside the table is not modelled.
- HubServer.HubServer.HandleSupport: the same, for an accepted SUP in the protocol state only.
- HubServer.HubServer.LoginSucceeded: assumes that sending the user list succeeds, so the early return is not modelled.
- HubServer.HubServer.HandleUpdate: covers the shares and totals only; the contents of the info are in `InfoRules`.
- SidPool.SidTable.Alloc: requires that the probe does not wrap, for the same reason.
- SidPool.SidTable.Free: requires an index inside the table and a positive count; the code tests neither, and its only caller gives a SID in use.
- RbTree.RbTree.First: requires a non-empty tree, as the code does.
- RbTree.Climb: joins the test before the loop of the upward walk and the loop into one loop, which makes the same comparisons.
- TimeoutQueue.TimeoutQueue.Insert: requires `seconds < max` and an event that is in no list, as the assertion in the code does.
- TimeoutQueue.TimeoutQueue.Process: requires a clock that does not go back, callbacks that do not process the queue themselves, that renew by less than `max`, and that use events of this queue or in no list.
- TimeoutQueue.TimeoutQueue.NextTimeout: stated at the time of the last call only.
- AdcMessage.Message.RemoveNamed: requires a complete start that does not end in a space, and arguments without newlines, which is what parsing one line gives (`AdcParse.Regular`); the same holds for the other argument operations.
- AdcMessage.Message.GetNamed: names consist of two characters other than space, newline and NUL, as all names in use do.
- AdcParse.Parse: what the arguments of a message are is stated for lines without an inner newline and without a space right before the arguments; acceptance, text, command and envelope for every line.
- AdcParse.ParseUndoesConstruct: about the text of F commands, which the code reads but never builds; an argument must be non-empty to be read by `GetArgument`.
- InfoRules.RemoveEach: the sequences of removals in the code are one loop over a list of names.
- Base32.Decode: requires room for at least one byte if the text has a letter, as the code does.
- IpRange.Prefix4IsExact: addresses are numbers in host order; the byte-order conversions cancel out under AND, OR and comparison.
- Reading addresses from text (`ip_convert_to_binary`, `check_ip_range`): system calls and parsing.
