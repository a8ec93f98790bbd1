/**
 The pool of socket channels behind the curl multi handle: sockets are reused when curl lets go of
 their descriptor, and idle ones beyond five are dropped by a later pass.
 */
module SocketPool {
  import opened Common

  const IDLE: int := -1
  const SPARE: nat := 5

  /** What a socket is polled for. */
  datatype Poll = Poll(input: bool, output: bool)

  const NO_POLL := Poll(false, false)

  datatype Sock = Sock(id: nat, fd: int, poll: Poll)

  /** curl's own table: for each descriptor, the socket assigned to it and what it is to be polled for. */
  datatype Entry = Entry(id: nat, poll: Poll)

  datatype Pool = Pool(socks: seq<Sock>, table: map<int, Entry>, created: nat, pending: bool)

  /** curl's socket callback, and the cleanup pass; `makes` says whether a new channel can be made. */
  datatype Event =
    | Watch(fd: nat, poll: Poll, makes: bool)
    | Remove(fd: nat)
    | Process

  function Empty(): Pool { Pool([], map[], 0, false) }

  predicate Bound(s: Sock) { s.fd != IDLE }

  function IdleCount(socks: seq<Sock>): nat {
    if socks == [] then 0
    else IdleCount(socks[..|socks| - 1]) + (if Bound(socks[|socks| - 1]) then 0 else 1)
  }

  function BoundCount(socks: seq<Sock>): nat {
    if socks == [] then 0
    else BoundCount(socks[..|socks| - 1]) + (if Bound(socks[|socks| - 1]) then 1 else 0)
  }

  /** Every bound socket, and an idle one if fewer than five idle ones come before it. */
  function Kept(socks: seq<Sock>): seq<Sock> {
    if socks == [] then []
    else
      var init, last := socks[..|socks| - 1], socks[|socks| - 1];
      Kept(init) + (if Bound(last) || IdleCount(init) < SPARE then [last] else [])
  }

  /** The index of the first element with the given property, or the length. */
  function FirstIdle(socks: seq<Sock>): (i: nat)
    ensures i <= |socks| && (i < |socks| ==> !Bound(socks[i]))
    ensures forall j | 0 <= j < i :: Bound(socks[j])
  {
    if socks == [] || !Bound(socks[0]) then 0 else 1 + FirstIdle(socks[1..])
  }

  function WithId(socks: seq<Sock>, id: nat): (i: nat)
    ensures i <= |socks| && (i < |socks| ==> socks[i].id == id)
    ensures forall j | 0 <= j < i :: socks[j].id != id
  {
    if socks == [] || socks[0].id == id then 0 else 1 + WithId(socks[1..], id)
  }

  function Rebind(socks: seq<Sock>, i: nat, fd: int, poll: Poll): seq<Sock>
    requires i < |socks|
  {
    socks[i := Sock(socks[i].id, fd, poll)]
  }

  /**
   curl holds a live pointer: the socket it would pass back for a descriptor is in the pool, bound
   to that descriptor and polled for what curl asked; and every bound socket is held by curl.
   */
  ghost predicate Agree(p: Pool) {
    && (forall i, j | 0 <= i < j < |p.socks| :: p.socks[i].id != p.socks[j].id)
    && (forall i | 0 <= i < |p.socks| :: p.socks[i].id < p.created)
    && (forall fd | fd in p.table :: 0 <= fd && Holds(p.socks, fd, p.table[fd]))
    && (forall i | 0 <= i < |p.socks| && Bound(p.socks[i]) ::
          p.socks[i].fd in p.table && p.table[p.socks[i].fd] == Entry(p.socks[i].id, p.socks[i].poll))
  }

  ghost predicate Holds(socks: seq<Sock>, fd: int, e: Entry) {
    exists i :: 0 <= i < |socks| && socks[i] == Sock(e.id, fd, e.poll)
  }

  function Step(p: Pool, e: Event): Pool
    requires Agree(p)
  {
    match e
    case Watch(fd, poll, makes) =>
      if fd in p.table then
        var i := Index(p, fd);
        p.(socks := Rebind(p.socks, i, fd, poll), table := p.table[fd := Entry(p.table[fd].id, poll)])
      else if FirstIdle(p.socks) < |p.socks| then
        var i := FirstIdle(p.socks);
        p.(socks := Rebind(p.socks, i, fd, poll), table := p.table[fd := Entry(p.socks[i].id, poll)])
      else if makes then
        p.(socks := p.socks + [Sock(p.created, fd, poll)], created := p.created + 1,
           table := p.table[fd := Entry(p.created, poll)])
      else p
    case Remove(fd) =>
      if fd in p.table then
        p.(socks := Rebind(p.socks, Index(p, fd), IDLE, NO_POLL), table := p.table - {fd as int}, pending := true)
      else p
    case Process => p.(socks := Kept(p.socks), pending := false)
  }

  /** Where the socket is that curl holds for a descriptor. */
  function Index(p: Pool, fd: int): (i: nat)
    requires Agree(p) && fd in p.table
    ensures i < |p.socks| && p.socks[i] == Sock(p.table[fd].id, fd, p.table[fd].poll)
  {
    assert Holds(p.socks, fd, p.table[fd]);
    WithId(p.socks, p.table[fd].id)
  }

  lemma IndexUnique(p: Pool, i: nat, j: nat)
    requires Agree(p) && i < |p.socks| && j < |p.socks|
    requires Bound(p.socks[i]) && p.socks[i].fd == p.socks[j].fd
    ensures i == j
  {
  }

  // ----- What the cleanup pass keeps -----

  predicate Keeps(socks: seq<Sock>, i: nat)
    requires i < |socks|
  {
    Bound(socks[i]) || IdleCount(socks[..i]) < SPARE
  }

  /** The indices of the kept sockets. */
  function KeptAt(socks: seq<Sock>): (at: seq<nat>)
    ensures forall k | 0 <= k < |at| :: at[k] < |socks|
    ensures forall k, l | 0 <= k < l < |at| :: at[k] < at[l]
  {
    if socks == [] then []
    else
      var n := |socks| - 1;
      KeptAt(socks[..n]) + (if Keeps(socks, n) then [n] else [])
  }

  lemma {:induction false} KeptAtIff(socks: seq<Sock>, i: nat)
    requires i < |socks|
    ensures i in KeptAt(socks) <==> Keeps(socks, i)
  {
    var n := |socks| - 1;
    if i < n {
      KeptAtIff(socks[..n], i);
      assert socks[..n][..i] == socks[..i];
    }
  }

  lemma {:induction false} KeptElements(socks: seq<Sock>)
    ensures |KeptAt(socks)| == |Kept(socks)|
    ensures forall k | 0 <= k < |Kept(socks)| :: Kept(socks)[k] == socks[KeptAt(socks)[k]]
  {
    if socks != [] {
      KeptElements(socks[..|socks| - 1]);
    }
  }

  /**
   The kept sockets are those at an ascending choice of indices: every bound one, and an idle one
   exactly if fewer than five idle ones come before it.
   */
  lemma KeptAre(socks: seq<Sock>) returns (at: seq<nat>)
    ensures |at| == |Kept(socks)|
    ensures forall k | 0 <= k < |at| :: at[k] < |socks| && Kept(socks)[k] == socks[at[k]]
    ensures forall k, l | 0 <= k < l < |at| :: at[k] < at[l]
    ensures forall i | 0 <= i < |socks| :: i in at <==> Bound(socks[i]) || IdleCount(socks[..i]) < SPARE
  {
    at := KeptAt(socks);
    KeptElements(socks);
    forall i | 0 <= i < |socks|
      ensures i in at <==> Keeps(socks, i)
    {
      KeptAtIff(socks, i);
    }
  }

  lemma KeptSnoc(socks: seq<Sock>, n: nat)
    requires |socks| == n + 1
    ensures Kept(socks) == if Bound(socks[n]) || IdleCount(socks[..n]) < SPARE
                           then Kept(socks[..n]) + [socks[n]] else Kept(socks[..n])
  {
    assert Kept(socks[..n]) + [] == Kept(socks[..n]);
  }

  lemma {:induction false} KeptCounts(socks: seq<Sock>)
    ensures BoundCount(Kept(socks)) == BoundCount(socks)
    ensures IdleCount(Kept(socks)) == if IdleCount(socks) <= SPARE then IdleCount(socks) else SPARE
    ensures |socks| == BoundCount(socks) + IdleCount(socks)
  {
    if socks != [] {
      var init, last := socks[..|socks| - 1], socks[|socks| - 1];
      KeptCounts(init);
      if Bound(last) || IdleCount(init) < SPARE {
        assert (Kept(init) + [last])[..|Kept(init)|] == Kept(init);
      } else {
        assert Kept(init) + [] == Kept(init);
      }
    }
  }

  lemma {:induction false} RebindCounts(socks: seq<Sock>, i: nat, fd: int, poll: Poll)
    requires i < |socks|
    ensures BoundCount(Rebind(socks, i, fd, poll)) ==
            BoundCount(socks) - (if Bound(socks[i]) then 1 else 0) + (if fd != IDLE then 1 else 0)
    ensures IdleCount(Rebind(socks, i, fd, poll)) ==
            IdleCount(socks) - (if Bound(socks[i]) then 0 else 1) + (if fd != IDLE then 0 else 1)
  {
    var n := |socks| - 1;
    var next := Rebind(socks, i, fd, poll);
    if i == n {
      assert next[..n] == socks[..n];
    } else {
      RebindCounts(socks[..n], i, fd, poll);
      assert next[..n] == Rebind(socks[..n], i, fd, poll);
    }
  }

  // ----- Every step keeps the agreement -----

  lemma BoundOnce(p: Pool, fd: int)
    requires Agree(p) && fd in p.table
    ensures forall i | 0 <= i < |p.socks| && p.socks[i].fd == fd :: i == Index(p, fd)
  {
    forall i | 0 <= i < |p.socks| && p.socks[i].fd == fd
      ensures i == Index(p, fd)
    {
      IndexUnique(p, i, Index(p, fd));
    }
  }

  /** Binding socket i to a descriptor that is its own or is not bound yet. */
  lemma RebindAgrees(p: Pool, i: nat, fd: nat, poll: Poll)
    requires Agree(p) && i < |p.socks|
    requires if fd in p.table then i == Index(p, fd) else !Bound(p.socks[i])
    ensures Agree(p.(socks := Rebind(p.socks, i, fd, poll), table := p.table[fd := Entry(p.socks[i].id, poll)]))
  {
    var socks := Rebind(p.socks, i, fd, poll);
    assert socks[i] == Sock(p.socks[i].id, fd, poll);
    forall g | g in p.table && g != fd
      ensures Holds(socks, g, p.table[g])
    {
      assert socks[Index(p, g)] == p.socks[Index(p, g)];
    }
    if fd in p.table {
      BoundOnce(p, fd);
    }
  }

  lemma ReleaseAgrees(p: Pool, fd: int)
    requires Agree(p) && fd in p.table
    ensures Agree(p.(socks := Rebind(p.socks, Index(p, fd), IDLE, NO_POLL), table := p.table - {fd}, pending := true))
  {
    var i := Index(p, fd);
    var socks := Rebind(p.socks, i, IDLE, NO_POLL);
    forall g | g in p.table && g != fd
      ensures Holds(socks, g, p.table[g])
    {
      assert socks[Index(p, g)] == p.socks[Index(p, g)];
    }
    BoundOnce(p, fd);
  }

  lemma CreateAgrees(p: Pool, fd: nat, poll: Poll)
    requires Agree(p) && fd !in p.table
    ensures Agree(p.(socks := p.socks + [Sock(p.created, fd, poll)], created := p.created + 1,
                     table := p.table[fd := Entry(p.created, poll)]))
  {
    var socks := p.socks + [Sock(p.created, fd, poll)];
    hide Holds;
    assert Holds(socks, fd, Entry(p.created, poll)) by { HoldsAt(socks, |p.socks|); }
    forall g | g in p.table
      ensures Holds(socks, g, p.table[g])
    {
      HoldsAt(socks, Index(p, g));
    }
  }

  lemma HoldsAt(socks: seq<Sock>, i: nat)
    requires i < |socks|
    ensures Holds(socks, socks[i].fd, Entry(socks[i].id, socks[i].poll))
  {
    assert socks[i] == Sock(socks[i].id, socks[i].fd, socks[i].poll);
  }

  lemma CleanupAgrees(p: Pool)
    requires Agree(p)
    ensures Agree(p.(socks := Kept(p.socks), pending := false))
  {
    var at := KeptAre(p.socks);
    var kept := Kept(p.socks);
    forall g | g in p.table
      ensures Holds(kept, g, p.table[g])
    {
      var i := Index(p, g);
      assert i in at;
      var k :| 0 <= k < |at| && at[k] == i;
      assert kept[k] == Sock(p.table[g].id, g, p.table[g].poll);
    }
  }

  /** No idle socket beyond five is forgotten, and the bound ones are those curl holds. */
  ghost predicate Inv(p: Pool) {
    && Agree(p)
    && (IdleCount(p.socks) > SPARE ==> p.pending)
    && BoundCount(p.socks) == |p.table|
  }

  lemma WatchInv(p: Pool, fd: nat, poll: Poll, makes: bool)
    requires Inv(p)
    ensures var p' := Step(p, Watch(fd, poll, makes));
            && Inv(p') && (|p'.socks| <= |p.socks| || |p'.socks| == |p'.table|)
  {
    hide Agree, IdleCount, BoundCount;
    if fd in p.table {
      RebindAgrees(p, Index(p, fd), fd, poll);
      RebindCounts(p.socks, Index(p, fd), fd, poll);
    } else if FirstIdle(p.socks) < |p.socks| {
      RebindAgrees(p, FirstIdle(p.socks), fd, poll);
      RebindCounts(p.socks, FirstIdle(p.socks), fd, poll);
    } else if makes {
      CreateAgrees(p, fd, poll);
      NoneIdle(p.socks);
      NoneIdle(p.socks + [Sock(p.created, fd, poll)]);
    }
  }

  /**
   A watch is served unless a new socket is needed and cannot be made, and a new one is made only if
   no socket is idle.
   */
  lemma WatchIsServed(p: Pool, fd: nat, poll: Poll, makes: bool)
    requires Inv(p)
    ensures var p' := Step(p, Watch(fd, poll, makes));
            && (fd in p'.table <==> fd in p.table || IdleCount(p.socks) > 0 || makes)
            && (fd in p'.table ==> p'.table[fd].poll == poll)
            && (fd in p.table ==> p'.table[fd].id == p.table[fd].id)
            && (p'.created > p.created <==> fd !in p.table && IdleCount(p.socks) == 0 && makes)
            && (forall g | g != fd :: g in p'.table <==> g in p.table)
            && (forall g | g != fd && g in p.table :: p'.table[g] == p.table[g])
            && (fd !in p'.table ==> p' == p)
            && |p.socks| <= |p'.socks|
            && (forall i | 0 <= i < |p.socks| && p.socks[i].fd != -1 && p.socks[i].fd != fd :: p'.socks[i] == p.socks[i])
  {
    hide Agree;
    var i := FirstIdle(p.socks);
    if i == |p.socks| {
      NoneIdle(p.socks);
    } else {
      SomeIdle(p.socks, i);
    }
  }

  lemma {:induction false} SomeIdle(socks: seq<Sock>, i: nat)
    requires i < |socks| && !Bound(socks[i])
    ensures IdleCount(socks) > 0
  {
    if i < |socks| - 1 {
      SomeIdle(socks[..|socks| - 1], i);
    }
  }

  lemma RemoveInv(p: Pool, fd: nat)
    requires Inv(p)
    ensures var p' := Step(p, Remove(fd)); Inv(p') && |p'.socks| == |p.socks|
  {
    hide Agree, IdleCount, BoundCount;
    if fd in p.table {
      ReleaseAgrees(p, fd);
      RebindCounts(p.socks, Index(p, fd), IDLE, NO_POLL);
      assert p.table == (p.table - {fd as int})[fd as int := p.table[fd]];
    }
  }

  lemma ProcessInv(p: Pool)
    requires Inv(p)
    ensures var p' := Step(p, Process); Inv(p') && |p'.socks| <= |p.socks|
  {
    hide Agree, IdleCount, BoundCount;
    CleanupAgrees(p);
    KeptCounts(p.socks);
    KeptCounts(Kept(p.socks));
  }

  lemma StepInv(p: Pool, e: Event)
    requires Inv(p)
    ensures Inv(Step(p, e))
    ensures |Step(p, e).socks| <= |p.socks| || |Step(p, e).socks| == |Step(p, e).table|
  {
    hide Inv, Step;
    match e
    case Watch(fd, poll, makes) => WatchInv(p, fd, poll, makes);
    case Remove(fd) => RemoveInv(p, fd);
    case Process => ProcessInv(p);
  }

  lemma {:induction false} NoneIdle(socks: seq<Sock>)
    requires forall i | 0 <= i < |socks| :: Bound(socks[i])
    ensures IdleCount(socks) == 0 && BoundCount(socks) == |socks|
  {
    if socks != [] {
      NoneIdle(socks[..|socks| - 1]);
    }
  }

  function Run(p: Pool, es: seq<Event>): (p': Pool)
    requires Inv(p)
    ensures Inv(p')
    decreases |es|
  {
    if es == [] then p
    else
      StepInv(p, es[0]);
      Run(Step(p, es[0]), es[1..])
  }

  /** The most descriptors curl has held at the same time in a run. */
  function Peak(p: Pool, es: seq<Event>): nat
    requires Inv(p)
    decreases |es|
  {
    if es == [] then |p.table|
    else
      StepInv(p, es[0]);
      var later := Peak(Step(p, es[0]), es[1..]);
      if later >= |p.table| then later else |p.table|
  }

  lemma {:induction false} PoolBelowPeak(p: Pool, es: seq<Event>)
    requires Inv(p)
    ensures |Run(p, es).socks| <= if |p.socks| >= Peak(p, es) then |p.socks| else Peak(p, es)
    decreases |es|
  {
    if es != [] {
      var p' := Step(p, es[0]);
      StepInv(p, es[0]);
      hide Inv, Step;
      PoolBelowPeak(p', es[1..]);
      PeakNow(p', es[1..]);
    }
  }

  lemma PeakNow(p: Pool, es: seq<Event>)
    requires Inv(p)
    ensures |p.table| <= Peak(p, es)
  {
  }

  lemma EmptyInv()
    ensures Inv(Empty())
  {
  }

  /**
   After any run: curl's pointers are live and agree with the pool, no two sockets share a
   descriptor, the pool is no larger than the peak number of descriptors, and without a pending
   pass it is at most five larger than the current number.
   */
  lemma PoolIsSafeAndBounded(es: seq<Event>)
    ensures Inv(Empty())
    ensures var p := Run(Empty(), es);
            && Agree(p)
            && (forall i, j | 0 <= i < j < |p.socks| && Bound(p.socks[i]) :: p.socks[i].fd != p.socks[j].fd)
            && |p.socks| <= Peak(Empty(), es)
            && |p.table| <= |p.socks|
            && (!p.pending ==> |p.socks| <= |p.table| + SPARE)
  {
    EmptyInv();
    var p := Run(Empty(), es);
    PoolBelowPeak(Empty(), es);
    KeptCounts(p.socks);
    forall i, j | 0 <= i < j < |p.socks| && Bound(p.socks[i]) && p.socks[i].fd == p.socks[j].fd
      ensures false
    {
      IndexUnique(p, i, j);
    }
  }

  /**
   A remove lets go of its descriptor and of nothing else: no socket is bound to it, the one that was
   is idle and polled for nothing, all others are as they were, and a pass is due.
   */
  lemma RemoveLetsGo(p: Pool, fd: nat)
    requires Inv(p)
    ensures var p' := Step(p, Remove(fd));
            && fd !in p'.table && |p'.socks| == |p.socks|
            && (forall i | 0 <= i < |p.socks| :: p'.socks[i] ==
                  if p.socks[i].fd == fd then Sock(p.socks[i].id, -1, Poll(false, false)) else p.socks[i])
            && (forall g | g != fd :: g in p'.table <==> g in p.table)
            && (forall g | g != fd && g in p.table :: p'.table[g] == p.table[g])
            && p'.pending == (p.pending || fd in p.table)
  {
    if fd in p.table {
      BoundOnce(p, fd);
    } else {
      assert forall i | 0 <= i < |p.socks| && Bound(p.socks[i]) :: p.socks[i].fd in p.table;
    }
  }

  /**
   A pass leaves no more to do: at most five sockets are idle, those kept are every bound one and the
   first five idle ones, in their order, and curl's pointers are as they were.
   */
  lemma PassTidiesUp(p: Pool) returns (at: seq<nat>)
    requires Inv(p)
    ensures var p' := Step(p, Process);
            && !p'.pending && p'.table == p.table
            && IdleCount(p'.socks) == (if IdleCount(p.socks) > 5 then 5 else IdleCount(p.socks))
            && |at| == |p'.socks|
            && (forall k | 0 <= k < |at| :: at[k] < |p.socks| && p'.socks[k] == p.socks[at[k]])
    ensures forall k, l | 0 <= k < l < |at| :: at[k] < at[l]
    ensures forall i | 0 <= i < |p.socks| :: i in at <==> p.socks[i].fd != -1 || IdleCount(p.socks[..i]) < 5
  {
    KeptCounts(p.socks);
    at := KeptAre(p.socks);
  }

  // ----- The pool as a ledger -----

  /** What the callbacks alone tell: what each descriptor is polled for, how many sockets idle, whether a pass is due. */
  datatype Ledger = Ledger(held: map<int, Poll>, idle: nat, due: bool)

  /** Descriptor fd can be served: curl holds a socket for it, one is idle, or one can be made. */
  predicate Serves(l: Ledger, fd: int, makes: bool) { fd in l.held || l.idle > 0 || makes }

  function Entered(l: Ledger, e: Event): Ledger {
    match e
    case Watch(fd, poll, makes) =>
      if !Serves(l, fd, makes) then l
      else l.(held := l.held[fd := poll], idle := if fd in l.held || l.idle == 0 then l.idle else l.idle - 1)
    case Remove(fd) =>
      if fd in l.held then Ledger(l.held - {fd as int}, l.idle + 1, true) else l
    case Process => Ledger(l.held, if l.idle > 5 then 5 else l.idle, false)
  }

  function Ledgered(es: seq<Event>): Ledger {
    if es == [] then Ledger(map[], 0, false) else Entered(Ledgered(es[..|es| - 1]), es[|es| - 1])
  }

  function LedgerOf(p: Pool): Ledger {
    Ledger(map fd | fd in p.table :: p.table[fd].poll, IdleCount(p.socks), p.pending)
  }

  lemma LedgerOfStep(p: Pool, e: Event)
    requires Inv(p)
    ensures LedgerOf(Step(p, e)) == Entered(LedgerOf(p), e)
  {
    match e
    case Watch(fd, poll, makes) => LedgerOfWatch(p, fd, poll, makes);
    case Remove(fd) => LedgerOfRemove(p, fd);
    case Process => KeptCounts(p.socks);
  }

  lemma LedgerOfWatch(p: Pool, fd: nat, poll: Poll, makes: bool)
    requires Inv(p)
    ensures LedgerOf(Step(p, Watch(fd, poll, makes))) == Entered(LedgerOf(p), Watch(fd, poll, makes))
  {
    hide Agree, IdleCount, BoundCount;
    var i := FirstIdle(p.socks);
    if fd in p.table {
      RebindCounts(p.socks, Index(p, fd), fd, poll);
    } else if i < |p.socks| {
      SomeIdle(p.socks, i);
      RebindCounts(p.socks, i, fd, poll);
    } else {
      NoneIdle(p.socks);
      NoneIdle(p.socks + [Sock(p.created, fd, poll)]);
    }
  }

  lemma LedgerOfRemove(p: Pool, fd: nat)
    requires Inv(p)
    ensures LedgerOf(Step(p, Remove(fd))) == Entered(LedgerOf(p), Remove(fd))
  {
    hide Agree, IdleCount, BoundCount;
    if fd in p.table {
      RebindCounts(p.socks, Index(p, fd), IDLE, NO_POLL);
    }
  }

  lemma {:induction false} RunSnoc(p: Pool, es: seq<Event>, e: Event)
    requires Inv(p)
    ensures Run(p, es + [e]) == Step(Run(p, es), e)
    decreases |es|
  {
    hide Step;
    if es == [] {
      assert (es + [e])[1..] == [];
      StepInv(p, e);
    } else {
      StepInv(p, es[0]);
      RunSnoc(Step(p, es[0]), es[1..], e);
      assert (es + [e])[1..] == es[1..] + [e];
    }
  }

  /**
   After any run the pool is what the ledger says: the sockets bound are one for each descriptor
   held, polled as last asked for, the others are the idle ones, and a pass is pending if it is due.
   */
  lemma {:induction false} PoolIsItsLedger(es: seq<Event>)
    ensures Inv(Empty())
    ensures var p := Run(Empty(), es); var l := Ledgered(es);
            && LedgerOf(p) == l
            && |p.socks| == |l.held| + l.idle
            && (forall fd :: fd in l.held <==> exists i :: 0 <= i < |p.socks| && Bound(p.socks[i]) && p.socks[i].fd == fd)
            && (forall i | 0 <= i < |p.socks| && Bound(p.socks[i]) :: p.socks[i].poll == l.held[p.socks[i].fd])
  {
    EmptyInv();
    LedgerOfRun(es);
    LedgerCounts(Run(Empty(), es));
  }

  lemma {:induction false} LedgerOfRun(es: seq<Event>)
    requires Inv(Empty())
    ensures LedgerOf(Run(Empty(), es)) == Ledgered(es)
  {
    if es != [] {
      var n := |es| - 1;
      LedgerOfRun(es[..n]);
      assert es[..n] + [es[n]] == es;
      hide Inv, Step, Entered, LedgerOf, Run;
      RunSnoc(Empty(), es[..n], es[n]);
      LedgerOfStep(Run(Empty(), es[..n]), es[n]);
    }
  }

  lemma LedgerCounts(p: Pool)
    requires Inv(p)
    ensures var l := LedgerOf(p);
            && |p.socks| == |l.held| + l.idle
            && (forall fd :: fd in l.held <==> exists i :: 0 <= i < |p.socks| && Bound(p.socks[i]) && p.socks[i].fd == fd)
            && (forall i | 0 <= i < |p.socks| && Bound(p.socks[i]) :: p.socks[i].poll == l.held[p.socks[i].fd])
  {
    KeptCounts(p.socks);
    assert LedgerOf(p).held.Keys == p.table.Keys;
    assert |LedgerOf(p).held| == |LedgerOf(p).held.Keys| && |p.table| == |p.table.Keys|;
    forall fd | fd in p.table
      ensures exists i :: 0 <= i < |p.socks| && Bound(p.socks[i]) && p.socks[i].fd == fd
    {
      assert Bound(p.socks[Index(p, fd)]);
    }
  }

  /** Event i serves descriptor fd, and no later event removes it. */
  ghost predicate ServedSince(es: seq<Event>, fd: nat, i: nat) {
    && i < |es| && es[i].Watch? && es[i].fd == fd && Serves(Ledgered(es[..i]), fd, es[i].makes)
    && forall j | i < j < |es| :: es[j] != Remove(fd)
  }

  /** So the descriptors bound are exactly those served at some time and not removed since. */
  lemma {:induction false} BoundIffServed(es: seq<Event>, fd: nat)
    ensures fd in Ledgered(es).held <==> exists i: nat :: ServedSince(es, fd, i)
  {
    if es != [] {
      var n := |es| - 1;
      var init, e := es[..n], es[n];
      BoundIffServed(init, fd);
      forall i: nat | i < n
        ensures ServedSince(es, fd, i) <==> ServedSince(init, fd, i) && e != Remove(fd)
      {
        assert es[..i] == init[..i];
        assert forall j | 0 <= j < n :: es[j] == init[j];
      }
      hide ServedSince, Ledgered;
      ServedLast(es, fd);
    }
  }

  lemma ServedLast(es: seq<Event>, fd: nat)
    requires es != []
    ensures var n := |es| - 1;
            && (ServedSince(es, fd, n) <==>
                  es[n].Watch? && es[n].fd == fd && Serves(Ledgered(es[..n]), fd, es[n].makes))
            && (fd in Ledgered(es).held <==>
                  (fd in Ledgered(es[..n]).held && es[n] != Remove(fd)) || ServedSince(es, fd, n))
  {
  }
}
