/** The user manager of `src/core/usermanager.c`: the logged-in users, with a tree by nick and a tree by CID. */
module UserManager {
  import opened Options
  import opened RbShape
  import opened RbNodes
  import RbTree
  import opened NameOrder
  import opened HubState

  class UserManager {
    var list: seq<UserId>
    const nicks: RbTree.RbTree<string, UserId>
    const cids: RbTree.RbTree<string, UserId>
    var count: nat
    var size: nat
    var files: nat

    /** The two trees are in order and share no node. */
    ghost predicate Valid()
      reads this, nicks, cids, Repr()
    {
      nicks != cids && nicks.Valid() && cids.Valid() && Nodes(nicks.shape) !! Nodes(cids.shape)
    }

    /** What the manager stands for: the trees are maps. */
    ghost function Value(): Manager
      reads this, nicks`shape, cids`shape
    {
      Manager(list, nicks.Model(), cids.Model(), count, size, files)
    }

    /** Everything that adding and removing users may change. */
    ghost function Repr(): set<object>
      reads this, nicks`shape, cids`shape
    {
      {this, nicks, cids} + Nodes(nicks.shape) + Nodes(cids.shape)
    }

    /** `uman_init` */
    constructor ()
      ensures fresh(Repr()) && Repr() == {this, nicks, cids} && Valid() && Value() == Manager([], map[], map[], 0, 0, 0)
    {
      list, count, size, files := [], 0, 0, 0;
      var byNick := NewIndex();
      var byCid := NewIndex();
      nicks, cids := byNick, byCid;
    }

    /** No node is the manager or one of its trees, and every node is allocated. */
    lemma Foreign(t: Tree<Cell<string, UserId>>)
      ensures forall o <- Nodes(t) :: allocated(o) && o as object != this && o as object != nicks && o as object != cids
    {
      NodesAllocated(t);
    }

    lemma ReprAllocated()
      ensures forall o <- Repr() :: allocated(o)
    {
      NodesAllocated(nicks.shape);
      NodesAllocated(cids.shape);
    }

    method AddNick(id: UserId, nick: string)
      requires Valid()
      modifies nicks, Nodes(nicks.shape)
      ensures Valid() && fresh(Nodes(nicks.shape) - old(Nodes(nicks.shape)))
      ensures nicks.Model() == Insert(old(nicks.Model()), nick, id)
    {
      hide RbTree.RbTree.Valid, RbTree.RbTree.Model, Nodes;
      Foreign(nicks.shape);
      Foreign(cids.shape);
      var _ := nicks.Insert(nick, id);
    }

    method AddCid(id: UserId, cid: string)
      requires Valid()
      modifies cids, Nodes(cids.shape)
      ensures Valid() && fresh(Nodes(cids.shape) - old(Nodes(cids.shape)))
      ensures cids.Model() == Insert(old(cids.Model()), cid, id)
    {
      hide RbTree.RbTree.Valid, RbTree.RbTree.Model, Nodes;
      Foreign(nicks.shape);
      Foreign(cids.shape);
      var _ := cids.Insert(cid, id);
    }

    /** `uman_add`: a nick or CID that is taken stays with the user who has it. */
    method Add(id: UserId, user: User)
      requires Valid()
      modifies Repr()
      ensures Valid() && forall o <- Repr() :: o in old(Repr()) || fresh(o)
      ensures Value() == HubState.Add(old(Value()), id, user)
    {
      hide RbTree.RbTree.Valid, RbTree.RbTree.Model, Nodes;
      Foreign(nicks.shape);
      Foreign(cids.shape);
      AddNick(id, user.nick);
      Foreign(nicks.shape);
      AddCid(id, user.cid);
      Foreign(cids.shape);
      list := list + [id];
      count := count + 1;
      size, files := Plus64(size, user.size), Plus64(files, user.files);
    }

    method RemoveNick(nick: string)
      requires Valid()
      modifies nicks, Nodes(nicks.shape)
      ensures Valid() && Nodes(nicks.shape) <= old(Nodes(nicks.shape))
      ensures nicks.Model() == old(nicks.Model()) - {nick}
    {
      hide RbTree.RbTree.Valid, RbTree.RbTree.Model, Nodes;
      Foreign(nicks.shape);
      Foreign(cids.shape);
      var _ := nicks.Remove(nick);
    }

    method RemoveCid(cid: string)
      requires Valid()
      modifies cids, Nodes(cids.shape)
      ensures Valid() && Nodes(cids.shape) <= old(Nodes(cids.shape))
      ensures cids.Model() == old(cids.Model()) - {cid}
    {
      hide RbTree.RbTree.Valid, RbTree.RbTree.Model, Nodes;
      Foreign(nicks.shape);
      Foreign(cids.shape);
      var _ := cids.Remove(cid);
    }

    /** `uman_remove` */
    method Remove(id: UserId, user: User)
      requires Valid()
      modifies Repr()
      ensures Valid() && forall o <- Repr() :: o in old(Repr()) || fresh(o)
      ensures Value() == HubState.Remove(old(Value()), id, user)
    {
      hide RbTree.RbTree.Valid, RbTree.RbTree.Model, Nodes;
      Foreign(nicks.shape);
      Foreign(cids.shape);
      list := Without(list, id);
      RemoveNick(user.nick);
      RemoveCid(user.cid);
      if count > 0 {
        count := count - 1;
      }
      size, files := Minus64(size, user.size), Minus64(files, user.files);
    }

    /** The totals after a listed user has given new shares: the old ones are taken off and the new ones added. */
    method Share(size0: nat, newSize: Option<nat>, files0: nat, newFiles: Option<nat>)
      requires Valid()
      modifies this
      ensures Valid() && Repr() == old(Repr())
      ensures Value() == old(Value()).(size := Moved(old(size), size0, newSize), files := Moved(old(files), files0, newFiles))
    {
      hide RbTree.RbTree.Valid, RbTree.RbTree.Model, Nodes;
      Foreign(nicks.shape);
      Foreign(cids.shape);
      if newSize.Some? {
        size := Minus64(size, size0);
        size := Plus64(size, newSize.value);
      }
      if newFiles.Some? {
        files := Minus64(files, files0);
        files := Plus64(files, newFiles.value);
      }
    }

    /** `uman_get_user_by_nick` */
    method ByNick(nick: string) returns (id: Option<UserId>)
      requires Valid()
      ensures id == if nick in Value().nicks then Some(Value().nicks[nick]) else None
    {
      id := nicks.Get(nick);
    }

    /** `uman_get_user_by_cid` */
    method ByCid(cid: string) returns (id: Option<UserId>)
      requires Valid()
      ensures id == if cid in Value().cids then Some(Value().cids[cid]) else None
    {
      id := cids.Get(cid);
    }
  }
}
