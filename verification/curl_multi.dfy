/**
 The curl multi channel: its socket objects and the table in which curl keeps pointers to them.
 Its callbacks are proved to do what SocketPool.Step does.
 */
module CurlMulti {
  import opened Common
  import opened SocketPool

  class Socket {
    const id: nat
    var fd: int
    var poll: Poll

    ghost function Value(): Sock
      reads this
    {
      Sock(id, fd, poll)
    }

    constructor (id: nat)
      ensures this.id == id && fd == IDLE && poll == NO_POLL
    {
      this.id := id;
      fd, poll := IDLE, NO_POLL;
    }

    /** Binding to no descriptor also stops the polling. */
    method Bind(fd: int)
      modifies this
      ensures this.fd == fd && poll == if fd == IDLE then NO_POLL else old(poll)
    {
      if fd == IDLE {
        poll := NO_POLL;
      }
      this.fd := fd;
    }

    method UpdatePoll(poll: Poll)
      modifies this`poll
      ensures this.poll == poll
    {
      this.poll := poll;
    }
  }

  ghost predicate Reflects(objs: seq<Socket>, socks: seq<Sock>)
    reads objs
  {
    |objs| == |socks| && forall i | 0 <= i < |objs| :: objs[i].Value() == socks[i]
  }

  ghost predicate Distinct(objs: seq<Socket>) {
    forall i, j | 0 <= i < j < |objs| :: objs[i] != objs[j]
  }

  /** Sets the polling of one socket of the pool, binding it first if it is new; the others are other objects. */
  method Assign(ghost objs: seq<Socket>, ghost socks: seq<Sock>, ghost i: nat, c: Socket, fd: nat, poll: Poll, bind: bool)
    requires Reflects(objs, socks) && Distinct(objs) && i < |objs| && objs[i] == c
    requires !bind ==> c.fd == fd
    modifies c
    ensures Reflects(objs, Rebind(socks, i, fd, poll))
  {
    if bind {
      c.Bind(fd);
    }
    c.UpdatePoll(poll);
  }

  method Release(ghost objs: seq<Socket>, ghost socks: seq<Sock>, ghost i: nat, c: Socket)
    requires Reflects(objs, socks) && Distinct(objs) && i < |objs| && objs[i] == c
    modifies c
    ensures Reflects(objs, Rebind(socks, i, IDLE, NO_POLL))
  {
    c.Bind(IDLE);
  }

  /** curl's pointers lead into the pool, to the sockets with the ids the model has. */
  ghost predicate Linked(objs: seq<Socket>, table: map<int, Socket>, entries: map<int, Entry>) {
    && table.Keys == entries.Keys
    && forall fd | fd in table :: table[fd] in objs && table[fd].id == entries[fd].id
  }

  lemma LinkedAdd(objs: seq<Socket>, objs': seq<Socket>, table: map<int, Socket>, entries: map<int, Entry>,
                  fd: int, c: Socket, poll: Poll)
    requires Linked(objs, table, entries) && objs <= objs' && c in objs'
    ensures Linked(objs', table[fd := c], entries[fd := Entry(c.id, poll)])
  {
    assert forall o | o in objs :: o in objs';
  }

  lemma LinkedRemove(objs: seq<Socket>, table: map<int, Socket>, entries: map<int, Entry>, fd: int)
    requires Linked(objs, table, entries)
    ensures Linked(objs, table - {fd}, entries - {fd})
  {
  }

  lemma AppendReflects(objs: seq<Socket>, socks: seq<Sock>, c: Socket)
    requires Reflects(objs, socks) && Distinct(objs) && c !in objs
    ensures Reflects(objs + [c], socks + [c.Value()]) && Distinct(objs + [c])
    ensures objs <= objs + [c] && c in objs + [c]
  {
    assert (objs + [c])[|objs|] == c;
  }

  lemma ReflectsLength(objs: seq<Socket>, socks: seq<Sock>)
    requires Reflects(objs, socks)
    ensures |objs| == |socks|
  {
  }

  lemma InvAgrees(p: Pool)
    requires Inv(p)
    ensures Agree(p)
  {
  }

  lemma IdsAreUnique(objs: seq<Socket>, p: Pool)
    requires Reflects(objs, p.socks) && Inv(p)
    ensures UniqueIds(objs)
  {
    hide Holds, IdleCount, BoundCount;
    forall c, d | c in objs && d in objs && c.id == d.id
      ensures c == d
    {
      var i :| 0 <= i < |objs| && objs[i] == c;
      var j :| 0 <= j < |objs| && objs[j] == d;
      assert objs[i].Value() == p.socks[i] && objs[j].Value() == p.socks[j];
    }
  }

  /** The cases of a remove callback. */
  lemma RemoveIs(p: Pool, fd: nat)
    requires Agree(p)
    ensures Step(p, Remove(fd)) ==
            if fd in p.table then
              p.(socks := Rebind(p.socks, Index(p, fd), IDLE, NO_POLL), table := p.table - {fd as int}, pending := true)
            else p
  {
    hide Agree, Index, Rebind;
  }

  /** The cases of a watch callback. */
  lemma WatchIs(p: Pool, fd: nat, poll: Poll, makes: bool)
    requires Agree(p)
    ensures var p' := Step(p, Watch(fd, poll, makes)); var i := FirstIdle(p.socks);
            if fd in p.table then
              p' == p.(socks := Rebind(p.socks, Index(p, fd), fd, poll),
                       table := p.table[fd := Entry(p.table[fd].id, poll)])
            else if i < |p.socks| then
              p' == p.(socks := Rebind(p.socks, i, fd, poll), table := p.table[fd := Entry(p.socks[i].id, poll)])
            else if makes then
              p' == p.(socks := p.socks + [Sock(p.created, fd, poll)], created := p.created + 1,
                       table := p.table[fd := Entry(p.created, poll)])
            else p' == p
  {
    hide Agree, Index, FirstIdle, Rebind;
  }

  class Multi {
    var sockets: seq<Socket>
    var created: nat
    var pending: bool
    var table: map<int, Socket>
    ghost var model: Pool

    ghost predicate Valid()
      reads this, sockets
    {
      && Inv(model)
      && created == model.created && pending == model.pending
      && Reflects(sockets, model.socks)
      && Linked(sockets, table, model.table)
    }

    constructor ()
      ensures Valid() && model == Empty()
    {
      EmptyInv();
      sockets, created, pending, table := [], 0, false, map[];
      model := Empty();
    }

    /** The socket curl holds for a descriptor is the pool element bound to it. */
    lemma HeldSocket(fd: int)
      requires Valid() && fd in table
      ensures sockets[Index(model, fd)] == table[fd] && table[fd].fd == fd
    {
      var i :| 0 <= i < |sockets| && sockets[i] == table[fd];
      assert model.socks[i].id == model.socks[Index(model, fd)].id;
    }

    lemma DistinctSockets()
      requires Valid()
      ensures Distinct(sockets)
    {
      forall i, j | 0 <= i < j < |sockets|
        ensures sockets[i] != sockets[j]
      {
        assert sockets[i].id == model.socks[i].id;
      }
    }

    method FindIdle() returns (i: nat)
      requires Valid()
      ensures i == FirstIdle(model.socks)
    {
      i := 0;
      while i < |sockets| && sockets[i].fd != IDLE
        invariant i <= |sockets| && forall j | 0 <= j < i :: Bound(model.socks[j])
      {
        assert sockets[i].Value() == model.socks[i];
        i := i + 1;
      }
      if i < |sockets| {
        assert sockets[i].Value() == model.socks[i];
      }
      if FirstIdle(model.socks) < i {
        assert false;
      } else if i < FirstIdle(model.socks) {
        assert false;
      }
    }

    /** curl wants a descriptor polled, and passes back the pointer it was last given for it. */
    method OnWatch(fd: nat, poll: Poll, makes: bool) returns (code: Code)
      requires Valid()
      modifies this, sockets
      ensures Valid() && model == Step(old(model), Watch(fd, poll, makes))
      ensures code == if fd in model.table then Ok else EINVAL
    {
      hide Valid, Step;
      SameLength();
      if fd in table {
        Repoll(fd, poll, makes);
        return Ok;
      }
      code := Take(fd, poll, makes);
    }

    method Repoll(fd: nat, poll: Poll, ghost makes: bool)
      requires Valid() && fd in table
      modifies this`model, sockets
      ensures Valid() && model == Step(old(model), Watch(fd, poll, makes)) && fd in model.table
    {
      hide Agree, Reflects, Distinct, Linked, Inv, Step;
      InvAgrees(model);
      StepInv(model, Watch(fd, poll, makes));
      WatchIs(model, fd, poll, makes);
      DistinctSockets();
      SameLength();
      HeldSocket(fd);
      var c := table[fd];
      Assign(sockets, model.socks, Index(model, fd), c, fd, poll, false);
      LinkedAdd(sockets, sockets, table, model.table, fd, c, poll);
      assert table[fd as int := c] == table;
      model := Step(model, Watch(fd, poll, makes));
    }

    /** Takes the first idle socket for a new descriptor, or makes one. */
    method Take(fd: nat, poll: Poll, makes: bool) returns (code: Code)
      requires Valid() && fd !in table
      modifies this, sockets
      ensures Valid() && model == Step(old(model), Watch(fd, poll, makes))
      ensures code == if fd in model.table then Ok else EINVAL
    {
      hide Agree, Reflects, Distinct, Linked, Inv, Step;
      SameLength();
      var i := FindIdle();
      if i < |sockets| {
        Reuse(i, fd, poll, makes);
        return Ok;
      }
      if !makes {
        InvAgrees(model);
        WatchIs(model, fd, poll, makes);
        return EINVAL;
      }
      Make(fd, poll);
      return Ok;
    }

    method Reuse(i: nat, fd: nat, poll: Poll, ghost makes: bool)
      requires Valid() && fd !in table && i < |sockets| && i == FirstIdle(model.socks)
      modifies this`table, this`model, sockets
      ensures Valid() && model == Step(old(model), Watch(fd, poll, makes)) && fd in model.table
    {
      hide Agree, Reflects, Distinct, Linked, Inv, Step;
      InvAgrees(model);
      StepInv(model, Watch(fd, poll, makes));
      WatchIs(model, fd, poll, makes);
      DistinctSockets();
      SameLength();
      var c := sockets[i];
      assert c.id == model.socks[i].id;
      Assign(sockets, model.socks, i, c, fd, poll, true);
      LinkedAdd(sockets, sockets, table, model.table, fd, c, poll);
      table := table[fd as int := c];
      model := Step(model, Watch(fd, poll, makes));
    }

    method Make(fd: nat, poll: Poll)
      requires Valid() && fd !in table && |model.socks| == FirstIdle(model.socks)
      modifies this, sockets
      ensures Valid() && model == Step(old(model), Watch(fd, poll, true)) && fd in model.table
    {
      hide Agree, Reflects, Distinct, Linked, Inv, Step;
      InvAgrees(model);
      StepInv(model, Watch(fd, poll, true));
      WatchIs(model, fd, poll, true);
      DistinctSockets();
      SameLength();
      ghost var before := sockets;
      var c := Add(model.socks, fd, poll);
      LinkedAdd(before, sockets, table, model.table, fd, c, poll);
      table := table[fd as int := c];
      model := Step(model, Watch(fd, poll, true));
    }

    /** Makes a new socket channel and binds it. */
    method Add(ghost socks: seq<Sock>, fd: nat, poll: Poll) returns (c: Socket)
      requires Reflects(sockets, socks) && Distinct(sockets)
      modifies this`sockets, this`created
      ensures fresh(c) && c.id == old(created) && created == old(created) + 1
      ensures sockets == old(sockets) + [c] && c in sockets && old(sockets) <= sockets
      ensures Reflects(sockets, socks + [Sock(c.id, fd, poll)])
    {
      hide Reflects, Distinct;
      c := new Socket(created);
      ghost var before := sockets;
      created := created + 1;
      sockets := sockets + [c];
      ReflectsLength(before, socks);
      AppendReflects(before, socks, c);
      Assign(sockets, socks + [c.Value()], |before|, c, fd, poll, true);
      assert Rebind(socks + [Sock(c.id, IDLE, NO_POLL)], |before|, fd, poll) == socks + [Sock(c.id, fd, poll)];
    }

    lemma SameLength()
      requires Valid()
      ensures |sockets| == |model.socks| && table.Keys == model.table.Keys
      ensures forall i | 0 <= i < |sockets| :: sockets[i].Value() == model.socks[i]
    {
    }

    /** curl is done with a descriptor: its socket becomes idle, and curl forgets the pointer. */
    method OnRemove(fd: nat)
      requires Valid()
      modifies this, sockets
      ensures Valid() && model == Step(old(model), Remove(fd))
    {
      hide Agree, Reflects, Distinct, Linked, Inv, Step;
      InvAgrees(model);
      SameLength();
      if fd in table {
        LetGo(fd);
      } else {
        RemoveIs(model, fd);
      }
    }

    method LetGo(fd: nat)
      requires Valid() && fd in table
      modifies this`table, this`pending, this`model, sockets
      ensures Valid() && model == Step(old(model), Remove(fd))
    {
      hide Agree, Reflects, Distinct, Linked, Inv, Step, Index, Rebind;
      InvAgrees(model);
      StepInv(model, Remove(fd));
      RemoveIs(model, fd);
      DistinctSockets();
      assert fd in model.table by { SameLength(); }
      assert Index(model, fd) < |sockets| by { SameLength(); }
      HeldSocket(fd);
      LinkedRemove(sockets, table, model.table, fd);
      Release(sockets, model.socks, Index(model, fd), table[fd]);
      pending := true;
      table := table - {fd};
      model := Step(model, Remove(fd));
    }

    /** The pass that closes idle sockets beyond the first five, erasing from the list it walks. */
    method Process()
      requires Valid()
      modifies this
      ensures Valid() && model == Step(old(model), SocketPool.Process)
      ensures forall c | c in sockets :: c in old(sockets)
    {
      hide Agree, Reflects, Linked, Bound, Kept, Inv;
      InvAgrees(model);
      StepInv(model, SocketPool.Process);
      StaysLinked();
      ghost var objs := sockets;
      Trim(model.socks);
      pending := false;
      model := Step(model, SocketPool.Process);
      InvAgrees(model);
      StillLinked(objs, sockets, model, table);
    }

    method Trim(ghost socks: seq<Sock>)
      requires Reflects(sockets, socks)
      modifies this`sockets
      ensures Reflects(sockets, Kept(socks)) && forall c | c in sockets :: c in old(sockets)
    {
      hide Reflects, Bound, Kept, IdleCount;
      ghost var objs := sockets;
      ghost var k, front, back := 0, [], socks;
      var empty := 0;
      var i := 0;
      KeptOfNothing();
      ReflectsLength(sockets, socks);
      assert front + back == socks && socks[..0] == [];
      while i < |sockets|
        invariant 0 <= k <= |socks| && back == socks[k..] && front == Kept(socks[..k])
        invariant i == |front| && |sockets| == |front| + |back| && empty == IdleCount(socks[..k])
        invariant Reflects(sockets, front + back)
        invariant forall c | c in sockets :: c in objs
        decreases |back|
      {
        KeptStep(socks, k);
        ElementAt(sockets, front, back, i);
        if sockets[i].fd == IDLE {
          empty := empty + 1;
        }
        if sockets[i].fd == IDLE && empty > SPARE {
          EraseAt(sockets, front, back, i);
          sockets := sockets[..i] + sockets[i + 1..];
        } else {
          front := front + [back[0]];
          i := i + 1;
        }
        k, back := k + 1, back[1..];
      }
      assert socks[..k] == socks && front + back == front;
    }

    lemma StaysLinked()
      requires Valid()
      ensures Reflects(sockets, model.socks) && Linked(sockets, table, model.table)
      ensures |sockets| == |model.socks| && UniqueIds(sockets)
    {
      hide Linked, Distinct, UniqueIds;
      IdsAreUnique(sockets, model);
    }
  }

  lemma KeptStep(socks: seq<Sock>, k: nat)
    requires k < |socks|
    ensures IdleCount(socks[..k + 1]) == IdleCount(socks[..k]) + (if Bound(socks[k]) then 0 else 1)
    ensures Kept(socks[..k + 1]) ==
            if Bound(socks[k]) || IdleCount(socks[..k]) < SPARE then Kept(socks[..k]) + [socks[k]] else Kept(socks[..k])
    ensures Bound(socks[k]) <==> socks[k].fd != IDLE
    ensures socks[k..] != [] && socks[k..][0] == socks[k] && socks[k..][1..] == socks[k + 1..]
  {
    assert socks[..k + 1][..k] == socks[..k];
    KeptSnoc(socks[..k + 1], k);
  }

  lemma KeptOfNothing()
    ensures Kept([]) == [] && IdleCount([]) == 0
  {
  }

  lemma ElementAt(objs: seq<Socket>, front: seq<Sock>, back: seq<Sock>, i: nat)
    requires Reflects(objs, front + back) && i == |front| && back != []
    ensures i < |objs| && objs[i].Value() == back[0]
    ensures (front + [back[0]]) + back[1..] == front + back
  {
  }

  lemma EraseAt(objs: seq<Socket>, front: seq<Sock>, back: seq<Sock>, i: nat)
    requires Reflects(objs, front + back) && i == |front| && back != []
    ensures Reflects(objs[..i] + objs[i + 1..], front + back[1..])
    ensures forall c | c in objs[..i] + objs[i + 1..] :: c in objs
  {
  }

  ghost predicate UniqueIds(objs: seq<Socket>) {
    forall c, d | c in objs && d in objs && c.id == d.id :: c == d
  }

  /** The sockets curl points to are bound, so the pass keeps them. */
  lemma StillLinked(objs: seq<Socket>, objs': seq<Socket>, p: Pool, table: map<int, Socket>)
    requires Linked(objs, table, p.table) && UniqueIds(objs) && forall c | c in objs' :: c in objs
    requires Agree(p) && Reflects(objs', p.socks)
    ensures Linked(objs', table, p.table)
  {
    forall fd | fd in table
      ensures table[fd] in objs'
    {
      var i := Index(p, fd);
      assert objs'[i].Value() == p.socks[i];
      assert objs'[i] in objs';
    }
  }
}
