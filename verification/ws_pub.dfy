/**
 The publishing WebSocket node: one ring of messages, one iterator into it per socket.  Every
 method is proved to do to the ring, the session map and the sockets what PubLog.Step does to the
 log and the cursors.
 */
module WSPub {
  import opened Common
  import opened DataRings
  import opened PubLog
  import opened SessionOrder
  import G = Registry
  import R = Routes

  /** What the node reports about its sessions, and the sockets it closes. */
  datatype Control = Connected(a: nat) | Disconnected(a: nat) | CloseCalled(a: nat)

  /** A socket and the user data the node keeps in it. */
  class WebSocket {
    var position: nat
    var addr: nat
    var buffered: nat
    var sent: seq<Bytes>

    constructor ()
      ensures sent == [] && addr == 0
    {
      position, addr, buffered, sent := 0, 0, 0, [];
    }

    /** Hands data to the network; how much of it stays buffered is up to the network. */
    method Send(data: Bytes)
      modifies this`sent, this`buffered
      ensures sent == old(sent) + [data]
    {
      sent := sent + [data];
      buffered := *;
    }
  }

  /** The socket's iterator denotes its next message in a ring whose head is the given cell. */
  ghost predicate Stands(ws: WebSocket, u: Sub, r: Ring, head: nat, cells: nat)
    reads ws
  {
    && r.popped <= u.next <= r.popped + |r.entries|
    && ws.position == Cell(head, u.next - r.popped, cells)
    && ws.sent == u.sent
  }

  /** Each session is filed under the address kept in its socket, and stands where the model says. */
  ghost predicate CoupledAt(socks: map<nat, WebSocket>, subs: map<nat, Sub>, r: Ring, head: nat, cells: nat)
    reads socks.Values
  {
    && socks.Keys == subs.Keys
    && forall a | a in socks :: socks[a].addr == a && Stands(socks[a], subs[a], r, head, cells)
  }

  /** The sockets of the sessions whose next message has not been popped. */
  ghost function Spared(socks: map<nat, WebSocket>, subs: map<nat, Sub>, popped: nat): map<nat, WebSocket>
    requires socks.Keys == subs.Keys
  {
    map a | a in socks && popped <= subs[a].next :: socks[a]
  }

  /** The sessions whose next message has not been popped. */
  function Survivors(subs: map<nat, Sub>, popped: nat): map<nat, Sub> {
    map a | a in subs && popped <= subs[a].next :: subs[a]
  }

  /** What offering the newest message of the log leaves of the sessions. */
  function OfferedTo(u: Sub, log: seq<Bytes>, stuck: bool): Sub {
    if u.next == |log| - 1 then Offer(log, u, stuck) else u
  }

  function Offered(subs: map<nat, Sub>, log: seq<Bytes>, blocked: set<nat>): map<nat, Sub> {
    map a | a in subs :: OfferedTo(subs[a], log, a in blocked)
  }

  /** The trace of closing these sessions one after the other. */
  function Gone(gone: seq<nat>): seq<Control> {
    if gone == [] then []
    else
      var last := |gone| - 1;
      Gone(gone[..last]) + [CloseCalled(gone[last]), Disconnected(gone[last])]
  }

  lemma GoneAppend(gone: seq<nat>, a: nat)
    ensures Gone([]) == []
    ensures Gone(gone + [a]) == Gone(gone) + [CloseCalled(a), Disconnected(a)]
  {
    assert (gone + [a])[..|gone|] == gone;
  }

  lemma {:induction false} GoneConcat(s: seq<nat>, t: seq<nat>)
    ensures Gone(s + t) == Gone(s) + Gone(t)
  {
    if t == [] {
      assert s + t == s;
    } else {
      var last := |t| - 1;
      GoneConcat(s, t[..last]);
      assert (s + t)[..|s + t| - 1] == s + t[..last];
      Assoc(Gone(s), Gone(t[..last]), [CloseCalled(t[last]), Disconnected(t[last])]);
    }
  }

  lemma InitInv(slots: nat, capacity: nat)
    requires slots >= 1
    ensures Inv(Init(slots, capacity))
  {
  }

  lemma ConnectModel(p: Pub)
    requires Inv(p)
    ensures var p' := Step(p, Event.Connect); var a := NextAddr(p.addr);
            && Inv(p') && p'.ring == p.ring && p'.addr == a
            && p'.subs == if a in p.subs then p.subs else p.subs[a := Sub(|p.log|, |p.log|, [])]
  {
    StepInv(p, Event.Connect);
  }

  lemma LogInRing(p: Pub)
    requires Inv(p)
    ensures EndOf(p.log, p.ring) && p.ring.popped + |p.ring.entries| == |p.log|
  {
  }

  lemma CloseTwice(p: Pub, a: nat)
    requires Inv(p)
    ensures Inv(Step(p, Close(a))) && Step(Step(p, Close(a)), Close(a)) == Step(p, Close(a))
  {
    StepInv(p, Close(a));
    hide Inv;
    assert p.subs - {a} - {a} == p.subs - {a};
  }

  lemma Rejected(p: Pub, data: Bytes, blocked: set<nat>)
    requires Inv(p) && !Admits(p.ring, data)
    ensures Step(p, Event.Post(data, blocked)) == p
  {
  }

  /** What a post makes of the sessions, in the order the node does it. */
  lemma PostSubs(p: Pub, data: Bytes, blocked: set<nat>)
    requires Inv(p) && Admits(p.ring, data)
    ensures PostStep(p, data, blocked).subs ==
            Offered(Survivors(p.subs, Evict(p.ring, |data|).popped), p.log + [data], blocked)
  {
    hide Inv, Evict, Offer;
  }

  lemma PostModel(p: Pub, data: Bytes, blocked: set<nat>)
    requires Inv(p) && Admits(p.ring, data)
    ensures p.ring.slots >= 1 && p.ring.Valid() && p.ring.popped + |p.ring.entries| == |p.log|
    ensures var r' := Evict(p.ring, |data|); var log := p.log + [data];
            var p' := Step(p, Event.Post(data, blocked));
            && Inv(p') && p'.ring == r'.Append(data) && p'.log == log && p'.addr == p.addr
            && EndOf(log, p'.ring) && p'.ring.entries != []
            && p'.subs == Offered(Survivors(p.subs, r'.popped), log, blocked)
  {
    PostSubs(p, data, blocked);
    PostInv(p, data, blocked);
    PostWindow(p, data, blocked);
    LogInRing(p);
    hide Offered, Survivors, Offer, EndOf, SubOk, Ring.Valid, Evict;
  }

  lemma SurvivorsTwice(socks: map<nat, WebSocket>, subs: map<nat, Sub>, p: nat, q: nat)
    requires p <= q && socks.Keys == subs.Keys
    ensures Survivors(Survivors(subs, p), q) == Survivors(subs, q)
    ensures Spared(Spared(socks, subs, p), Survivors(subs, p), q) == Spared(socks, subs, q)
  {
  }

  lemma AllSurvive(socks: map<nat, WebSocket>, subs: map<nat, Sub>, r: Ring, head: nat, cells: nat)
    requires CoupledAt(socks, subs, r, head, cells)
    ensures socks.Keys == subs.Keys
    ensures Survivors(subs, r.popped) == subs && Spared(socks, subs, r.popped) == socks
  {
  }

  /** Storing a message moves no iterator. */
  lemma AppendCoupled(socks: map<nat, WebSocket>, subs: map<nat, Sub>, r: Ring, data: Bytes, head: nat, cells: nat)
    requires CoupledAt(socks, subs, r, head, cells) && r.Fits(|data|)
    ensures CoupledAt(socks, subs, r.Append(data), head, cells)
  {
  }

  /**
   Popping moves no iterator: the sessions standing at the head cell are those whose next message
   is popped, and the others stand right in the ring that is left.
   */
  lemma PopCoupled(socks: map<nat, WebSocket>, subs: map<nat, Sub>, r: Ring, head: nat, cells: nat)
    requires CoupledAt(socks, subs, r, head, cells)
    requires r.entries != [] && |r.entries| < cells && head < cells
    ensures CoupledAt(Spared(socks, subs, r.popped + 1), Survivors(subs, r.popped + 1),
                      r.Drop(1), Cell(head, 1, cells), cells)
    ensures socks.Keys == subs.Keys && forall a | a in socks :: socks[a].addr == a
    ensures forall a | a in socks :: socks[a].position == head <==> subs[a].next == r.popped
    ensures forall a | a in socks :: subs[a].next >= r.popped
  {
  }

  class Node {
    const ring: DataRing
    const master: G.Server
    const prefix: Text
    const wildcard: bool
    const self: R.Node
    var sessions: map<nat, WebSocket>
    var addr: nat
    var closing: bool
    var control: seq<Control>
    ghost var model: Pub

    ghost predicate Matches(ws: WebSocket, u: Sub)
      reads ring, ws
    {
      Stands(ws, u, ring.model, ring.head, ring.cells.Length)
    }

    ghost predicate Coupled(socks: map<nat, WebSocket>, subs: map<nat, Sub>)
      reads ring, socks.Values
    {
      CoupledAt(socks, subs, ring.model, ring.head, ring.cells.Length)
    }

    ghost predicate Valid()
      reads this, ring, ring.cells, sessions.Values
    {
      && !closing
      && ring.Valid()
      && Inv(model)
      && ring.model == model.ring
      && addr == model.addr
      && Coupled(sessions, model.subs)
    }

    lemma CoupledAdd(socks: map<nat, WebSocket>, subs: map<nat, Sub>, a: nat, ws: WebSocket, u: Sub)
      requires Coupled(socks, subs) && a !in socks
      requires ws.addr == a && Matches(ws, u)
      ensures Coupled(socks[a := ws], subs[a := u])
    {
    }

    lemma CoupledRemove(socks: map<nat, WebSocket>, subs: map<nat, Sub>, a: nat)
      requires Coupled(socks, subs)
      ensures Coupled(socks - {a}, subs - {a})
    {
    }

    constructor (slots: nat, capacity: nat, server: G.Server, host: Text, id: nat)
      requires slots >= 1
      ensures Valid() && fresh(ring) && fresh(ring.cells)
      ensures model == Init(slots, capacity) && sessions == map[] && control == []
      ensures master == server && (prefix, wildcard) == G.Normalise(host) && self == R.Pub(id)
    {
      ring := new DataRing(slots, capacity);
      master, self := server, R.Pub(id);
      prefix, wildcard := G.Normalise(host).0, G.Normalise(host).1;
      sessions, addr, closing, control := map[], 0, false, [];
      model := Init(slots, capacity);
    }

    /** What a live socket has been sent is its slice of the log. */
    lemma SocketsCarryTheLog(a: nat)
      requires Valid() && a in sessions
      ensures a in model.subs
      ensures var u := model.subs[a];
              && u.start <= u.next <= |model.log|
              && sessions[a].sent == model.log[u.start..u.next]
              && sessions[a].position == ring.Iterator(u.next)
              && sessions[a].addr == a
    {
      assert SubOk(model, model.subs[a]);
    }

    /** The base class's part of a connect: the address, the session map and the report. */
    method Register(ws: WebSocket)
      modifies this`addr, this`sessions, this`control, ws`addr
      ensures addr == NextAddr(old(addr)) && ws.addr == addr
      ensures sessions == if addr in old(sessions) then old(sessions) else old(sessions)[addr := ws]
      ensures control == old(control) + [Connected(addr)]
    {
      addr := NextAddr(addr);
      ws.addr := addr;
      if addr !in sessions {
        sessions := sessions[addr := ws];
      }
      control := control + [Connected(addr)];
    }

    lemma IteratorToEnd()
      requires Valid()
      ensures model.ring.popped + |model.ring.entries| == |model.log|
      ensures ring.Iterator(|model.log|) == ring.End()
      ensures sessions.Keys == model.subs.Keys
    {
    }

    /** A new socket starts at the end of the ring and gets the next address. */
    method Connect(ws: WebSocket)
      requires Valid() && ws !in sessions.Values && ws.sent == []
      modifies this, ws`position, ws`addr
      ensures Valid() && model == Step(old(model), Event.Connect)
      ensures addr == NextAddr(old(addr)) && ws.addr == addr
      ensures sessions == if addr in old(sessions) then old(sessions) else old(sessions)[addr := ws]
      ensures control == old(control) + [Connected(addr)]
    {
      hide Inv, DataRing.Valid, Step, CoupledAt;
      IteratorToEnd();
      ConnectModel(model);
      ghost var socks, subs := sessions, model.subs;
      ghost var u := Sub(|model.log|, |model.log|, []);
      ws.position := ring.End();
      Register(ws);
      model := Step(model, Event.Connect);
      assert Coupled(socks, subs);
      if addr !in socks {
        CoupledAdd(socks, subs, addr, ws, u);
      }
    }

    /** While the node itself is closing the map is left alone, so that it can be walked. */
    method Disconnect(a: nat)
      modifies this`sessions, this`control
      ensures sessions == if closing then old(sessions) else old(sessions) - {a}
      ensures control == old(control) + [Disconnected(a)]
    {
      if !closing {
        if a in sessions {
          sessions := sessions - {a};
        } else {
          assert sessions - {a} == sessions;
        }
      }
      control := control + [Disconnected(a)];
    }

    /** Closing a socket runs its close handler. */
    method CloseSocket(ws: WebSocket)
      modifies this`sessions, this`control
      ensures sessions == if closing then old(sessions) else old(sessions) - {ws.addr}
      ensures control == old(control) + [CloseCalled(ws.addr), Disconnected(ws.addr)]
    {
      control := control + [CloseCalled(ws.addr)];
      Disconnect(ws.addr);
    }

    /** The peer has gone, or the user asked to drop it. */
    method Drop(a: nat)
      requires Valid()
      modifies this
      ensures Valid() && model == Step(old(model), Close(a))
      ensures sessions == old(sessions) - {a}
      ensures control == old(control) + [Disconnected(a)]
    {
      hide Inv, DataRing.Valid, CoupledAt;
      StepInv(model, Close(a));
      CoupledRemove(sessions, model.subs, a);
      Disconnect(a);
      model := Step(model, Close(a));
    }

    /**
     The user asks to drop a session.  Ending a socket may or may not run its close handler at
     once; the session is gone either way, but in the first case it is reported twice.
     */
    method PostDisconnect(a: nat, handlerRuns: bool) returns (code: Code)
      requires Valid()
      modifies this
      ensures Valid() && code == if a in old(sessions) then Ok else ENOENT
      ensures model == if code == Ok then Step(old(model), Close(a)) else old(model)
      ensures sessions == old(sessions) - {a}
      ensures control == old(control) + if code == ENOENT then [] else
                if handlerRuns then [Disconnected(a), Disconnected(a)] else [Disconnected(a)]
    {
      hide Inv, DataRing.Valid, CoupledAt, Step, NextAddr;
      if a !in sessions {
        assert sessions - {a} == sessions;
        return ENOENT;
      }
      CloseTwice(model, a);
      if handlerRuns {
        Drop(a);
      }
      Drop(a);
      assert old(sessions) - {a} - {a} == old(sessions) - {a};
      return Ok;
    }

    /** Closes every session at the given iterator, although each close erases it from the map. */
    method CloseAt(first: nat) returns (ghost gone: seq<nat>)
      requires !closing && forall a | a in sessions :: sessions[a].addr == a
      modifies this`sessions, this`control
      ensures sessions == map a | a in old(sessions) && old(sessions)[a].position != first :: old(sessions)[a]
      ensures Ascending(gone)
      ensures forall a :: a in gone <==> a in old(sessions) && a !in sessions
      ensures control == old(control) + Gone(gone)
    {
      hide Gone, Ascending, Below;
      gone := [];
      GoneAppend([], 0);
      AscendingEmpty();
      ghost var all, left := sessions, sessions.Keys;
      var it := LowerBound(sessions.Keys, 0);
      while it.Some?
        invariant it.Some? ==> it.value in left
        invariant forall a :: a in left <==> a in all && it.Some? && a >= it.value
        invariant forall a :: a in sessions <==> a in left || (a in all && all[a].position != first)
        invariant forall a | a in sessions :: a in all && sessions[a] == all[a]
        invariant Ascending(gone) && Below(gone, it)
        invariant forall a :: a in gone <==> a in all && a !in sessions
        invariant control == old(control) + Gone(gone)
        decreases left
      {
        var a := it.value;
        var ws := sessions[a];
        it := LowerBound(sessions.Keys, a + 1);
        left := left - {a};
        AscendingAppend(gone, a, it);
        if ws.position == first {
          CloseSocket(ws);
          GoneAppend(gone, a);
          gone := gone + [a];
        }
      }
    }

    lemma AtNewest(log: seq<Bytes>, ws: WebSocket, u: Sub)
      requires ring.Valid() && EndOf(log, ring.model) && ring.model.entries != [] && Matches(ws, u)
      ensures ws.position == ring.Iterator(|log| - 1) <==> u.next == |log| - 1
    {
      ring.IteratorsCompare(u.next, |log| - 1);
    }

    /** Sends the next message to a socket that has room and is not at the end of the ring. */
    method Writeable(ws: WebSocket, ghost log: seq<Bytes>, ghost u: Sub)
      requires ring.Valid() && EndOf(log, ring.model) && Matches(ws, u)
      modifies ws`position, ws`sent, ws`buffered
      ensures Matches(ws, Offer(log, u, old(ws.buffered) > 0))
    {
      if ws.buffered > 0 {
        return;
      }
      ring.IteratorsCompare(u.next, |log|);
      if ws.position == ring.End() {
        return;
      }
      ring.MessageAt(u.next);
      var data := ring.At(ws.position);
      ws.position := ring.Next(ws.position);
      ws.Send(data);
    }

    /** Pops the oldest message and closes the sessions that were still to be sent it. */
    method EvictOne(ghost subs: map<nat, Sub>) returns (ghost gone: seq<nat>)
      requires ring.Valid() && ring.model.entries != [] && Coupled(sessions, subs) && !closing
      modifies this`sessions, this`control, ring
      ensures ring.Valid() && ring.model == old(ring.model).Drop(1)
      ensures Coupled(sessions, Survivors(subs, ring.model.popped))
      ensures sessions == Spared(old(sessions), subs, ring.model.popped)
      ensures forall a :: a in gone <==> a in old(sessions) && a !in sessions
      ensures Ascending(gone) && control == old(control) + Gone(gone)
      ensures ring.tail == old(ring.tail)
    {
      hide Gone, Ascending, Ring.Valid, DataRing.Valid, CoupledAt;
      var first := ring.Begin();
      ring.Bounds();
      PopCoupled(sessions, subs, ring.model, ring.head, ring.cells.Length);
      ring.PopFront();
      gone := CloseAt(first);
      assert sessions == Spared(old(sessions), subs, ring.model.popped);
    }

    lemma CoupledDistinct(socks: map<nat, WebSocket>, subs: map<nat, Sub>)
      requires Coupled(socks, subs)
      ensures socks.Keys == subs.Keys
      ensures forall a, b | a in socks && b in socks && a != b :: socks[a] != socks[b]
      ensures forall a | a in socks :: Matches(socks[a], subs[a]) && socks[a].addr == a
    {
    }

    method OfferAt(a: nat, last: nat, ghost log: seq<Bytes>, ghost subs: map<nat, Sub>)
      requires ring.Valid() && EndOf(log, ring.model) && ring.model.entries != []
      requires Coupled(sessions, subs) && last == ring.Iterator(|log| - 1) && a in sessions
      modifies sessions[a]
      ensures Coupled(sessions, subs[a := OfferedTo(subs[a], log, old(sessions[a].buffered) > 0)])
    {
      hide DataRing.Valid, Ring.Valid, EndOf, CoupledAt, Stands, DataRing.Iterator, Offer;
      CoupledDistinct(sessions, subs);
      CoupledRemove(sessions, subs, a);
      var ws := sessions[a];
      ghost var u := OfferedTo(subs[a], log, ws.buffered > 0);
      AtNewest(log, ws, subs[a]);
      if ws.position == last {
        Writeable(ws, log, subs[a]);
      }
      assert Coupled(sessions - {a}, subs - {a});
      CoupledAdd(sessions - {a}, subs - {a}, a, ws, u);
      assert (sessions - {a})[a := ws] == sessions;
      assert (subs - {a})[a := u] == subs[a := u];
    }

    /** Hands the newest message to the sessions that stood at the end of the ring before it came. */
    method OfferNewest(last: nat, ghost log: seq<Bytes>, ghost subs: map<nat, Sub>, ghost blocked: set<nat>)
      requires ring.Valid() && EndOf(log, ring.model) && ring.model.entries != []
      requires Coupled(sessions, subs) && last == ring.Iterator(|log| - 1)
      requires forall a | a in sessions :: a in blocked <==> sessions[a].buffered > 0
      modifies sessions.Values
      ensures Coupled(sessions, Offered(subs, log, blocked))
    {
      hide DataRing.Valid, Ring.Valid, EndOf, DataRing.Iterator, OfferedTo, CoupledAt, Stands;
      CoupledDistinct(sessions, subs);
      ghost var now := subs;
      ghost var left := sessions.Keys;
      var it := LowerBound(sessions.Keys, 0);
      while it.Some?
        invariant it.Some? ==> it.value in sessions
        invariant forall a :: a in left <==> a in sessions && it.Some? && a >= it.value
        invariant Coupled(sessions, now) && now.Keys == subs.Keys
        invariant forall a | a in left :: sessions[a].buffered == old(sessions[a].buffered)
        invariant forall a | a in sessions ::
            now[a] == if a in left then subs[a] else OfferedTo(subs[a], log, a in blocked)
        decreases left
      {
        var a := it.value;
        OfferAt(a, last, log, now);
        now := now[a := OfferedTo(subs[a], log, a in blocked)];
        it := LowerBound(sessions.Keys, a + 1);
        left := left - {a};
      }
      assert now == Offered(subs, log, blocked);
    }

    /**
     Retries the push, popping one message after each refusal.  A session survives with its
     iterator untouched exactly if its next message was not popped.
     */
    method MakeRoom(data: Bytes, ghost subs: map<nat, Sub>) returns (ghost gone: seq<nat>)
      requires ring.Valid() && ring.model.slots >= 1 && Admits(ring.model, data)
      requires Coupled(sessions, subs) && !closing
      modifies this`sessions, this`control, ring, ring.cells
      ensures ring.Valid() && ring.model == Evict(old(ring.model), |data|).Append(data)
      ensures Coupled(sessions, Survivors(subs, Evict(old(ring.model), |data|).popped))
      ensures sessions == Spared(old(sessions), subs, Evict(old(ring.model), |data|).popped)
      ensures forall a :: a in gone <==> a in old(sessions) && a !in sessions
      ensures NoRepeats(gone) && control == old(control) + Gone(gone)
      ensures ring.model.popped <= old(ring.model.popped + |ring.model.entries|)
      ensures ring.Iterator(old(ring.model.popped + |ring.model.entries|)) == old(ring.End())
    {
      hide DataRing.Valid, Ring.Valid, Ring.Fits, Ring.Append, CoupledAt, Gone, Ascending, Evict, Survivors;
      ghost var r0, all := ring.model, sessions;
      ghost var end := r0.popped + |r0.entries|;
      gone := [];
      GoneAppend([], 0);
      AllSurvive(all, subs, r0, ring.head, ring.cells.Length);
      ring.Bounds();
      while true
        invariant ring.Valid() && ring.model.Valid() && r0.popped <= ring.model.popped
        invariant ring.model.slots >= 1 && Admits(ring.model, data)
        invariant ring.model.popped + |ring.model.entries| == end && ring.tail == old(ring.tail)
        invariant Evict(r0, |data|) == Evict(ring.model, |data|)
        invariant Coupled(sessions, Survivors(subs, ring.model.popped))
        invariant all.Keys == subs.Keys && sessions == Spared(all, subs, ring.model.popped)
        invariant forall a :: a in gone <==> a in all && a !in sessions
        invariant NoRepeats(gone) && control == old(control) + Gone(gone)
        decreases |ring.model.entries|
      {
        ghost var r := ring.model;
        ring.Bounds();
        EvictUnfold(r, |data|);
        ghost var head, cells := ring.head, ring.cells.Length;
        var stored := ring.PushBack(data);
        if stored {
          AppendCoupled(sessions, Survivors(subs, r.popped), r, data, head, cells);
          AppendEnd(r, data);
          return;
        }
        SurvivorsTwice(all, subs, r.popped, r.popped + 1);
        ghost var more := EvictOne(Survivors(subs, r.popped));
        GoneConcat(gone, more);
        Assoc(old(control), Gone(gone), Gone(more));
        NoRepeatsAppend(gone, more);
        gone := gone + more;
      }
    }

    lemma AppendEnd(r: Ring, data: Bytes)
      requires r.Fits(|data|)
      ensures r.Append(data).popped == r.popped
    {
    }

    /**
     Publishes a message: older ones are popped until it fits, the sessions that lose one are
     closed, and the sessions that were up to date and whose socket is empty are sent it at once.
     */
    method Post(data: Bytes) returns (code: Code, ghost gone: seq<nat>)
      requires Valid()
      modifies this, ring, ring.cells, sessions.Values
      ensures Valid()
      ensures code == if |data| > ring.capacity / 2 then EINVAL else Ok
      ensures var blocked := set a | a in old(sessions) && old(sessions[a].buffered) > 0;
              model == Step(old(model), Event.Post(data, blocked))
      ensures forall a | a in sessions :: a in old(sessions) && sessions[a] == old(sessions)[a]
      ensures forall ws | ws in old(sessions.Values) && ws !in sessions.Values :: unchanged(ws)
      ensures NoRepeats(gone) && forall a :: a in gone <==> a in old(sessions) && a !in sessions
      ensures control == old(control) + Gone(gone)
    {
      hide Inv, DataRing.Valid, Ring.Valid, CoupledAt, Step, Evict, Ring.Append, Gone, Survivors, Offered, EndOf;
      gone := [];
      ring.Bounds();
      if |data| > ring.capacity / 2 {
        Rejected(model, data, set a | a in old(sessions) && old(sessions[a].buffered) > 0);
        GoneAppend([], 0);
        return EINVAL, [];
      }
      ghost var blocked := set a | a in sessions && sessions[a].buffered > 0;
      PostModel(model, data, blocked);
      ghost var log := model.log + [data];
      var last := ring.End();
      gone := MakeRoom(data, model.subs);
      OfferNewest(last, log, Survivors(model.subs, Evict(model.ring, |data|).popped), blocked);
      model := Step(model, Event.Post(data, blocked));
      code := Ok;
    }

    /** A socket has written out what was buffered: it is sent its next message, if it has one. */
    method Drain(a: nat)
      requires Valid() && a in sessions
      modifies this`model, sessions[a]
      ensures Valid() && model == Step(old(model), Event.Drain(a, old(sessions[a].buffered) > 0))
    {
      hide Inv, DataRing.Valid, Ring.Valid, CoupledAt, Stands, Offer;
      ghost var stuck := sessions[a].buffered > 0;
      StepInv(model, Event.Drain(a, stuck));
      CoupledDistinct(sessions, model.subs);
      LogInRing(model);
      CoupledRemove(sessions, model.subs, a);
      var ws := sessions[a];
      Writeable(ws, model.log, model.subs[a]);
      assert Coupled(sessions - {a}, model.subs - {a});
      CoupledAdd(sessions - {a}, model.subs - {a}, a, ws, Offer(model.log, model.subs[a], stuck));
      assert (sessions - {a})[a := ws] == sessions;
      model := Step(model, Event.Drain(a, stuck));
      assert model.subs == (old(model).subs - {a})[a := model.subs[a]];
    }

    /**
     The node opens: its ring is emptied and it takes its place in the route table of its kind of
     path, unless another node has it; only then does it start to count addresses.
     */
    method OpenNode() returns (code: Code)
      requires ring.Valid() && ring.model.slots >= 1 && sessions == map[] && !closing
      modifies this`addr, this`model, ring, master
      ensures ring.Valid() && ring.model == Ring(old(ring.model.slots), ring.capacity, 0, [], 0)
      ensures var mine := if wildcard then old(master.nodesWildcard) else old(master.nodes);
              var (t, found) := G.Add(mine, prefix, self);
              && code == (if found == Ok then Ok else EINVAL)
              && (wildcard ==> master.nodesWildcard == t && master.nodes == old(master.nodes))
              && (!wildcard ==> master.nodes == t && master.nodesWildcard == old(master.nodesWildcard))
      ensures code == if G.HasKey(if wildcard then old(master.nodesWildcard) else old(master.nodes), prefix)
                      then EINVAL else Ok
      ensures code == Ok ==> R.Entry(prefix, self) in if wildcard then master.nodesWildcard else master.nodes
      ensures code == Ok ==> Valid() && model == Init(old(ring.model.slots), ring.capacity)
      ensures code != Ok ==> addr == old(addr) && model == old(model)
    {
      hide G.Add, G.HasKey, DataRing.Valid, Inv;
      ghost var slots := ring.model.slots;
      ring.Clear();
      code := master.NodeAdd(prefix, wildcard, self);
      if code != Ok {
        return EINVAL;
      }
      addr := 0;
      model := Init(slots, ring.capacity);
      InitInv(slots, ring.capacity);
    }

    /**
     The node closes: every session is closed and reported, only then is the map emptied, and last
     the node leaves the route table, if the entry there is its own.
     */
    method CloseNode() returns (ghost gone: seq<nat>)
      requires sessions == map[] || Valid()
      modifies this`closing, this`sessions, this`control, master
      ensures sessions == map[] && !closing
      ensures Ascending(gone) && forall a :: a in gone <==> a in old(sessions)
      ensures control == old(control) + Gone(gone)
      ensures master.nodes ==
              if wildcard then old(master.nodes) else G.Remove(old(master.nodes), prefix, self).0
      ensures master.nodesWildcard ==
              if wildcard then G.Remove(old(master.nodesWildcard), prefix, self).0 else old(master.nodesWildcard)
    {
      hide Gone, Ascending, Below, Inv, DataRing.Valid, CoupledAt, G.Remove;
      if sessions != map[] {
        CoupledDistinct(sessions, model.subs);
      }
      closing := true;
      gone := CloseAll();
      sessions := map[];
      var code := master.NodeRemove(prefix, wildcard, self);
      closing := false;
    }

    /** Closes and reports every session, with the map as it is. */
    method CloseAll() returns (ghost gone: seq<nat>)
      requires closing && forall a | a in sessions :: sessions[a].addr == a
      modifies this`sessions, this`control
      ensures sessions == old(sessions)
      ensures Ascending(gone) && forall a :: a in gone <==> a in sessions
      ensures control == old(control) + Gone(gone)
    {
      hide Gone, Ascending, Below;
      gone := [];
      GoneAppend([], 0);
      AscendingEmpty();
      ghost var left := sessions.Keys;
      var it := LowerBound(sessions.Keys, 0);
      while it.Some?
        invariant sessions == old(sessions)
        invariant it.Some? ==> it.value in sessions
        invariant forall a :: a in left <==> a in sessions && it.Some? && a >= it.value
        invariant Ascending(gone) && Below(gone, it)
        invariant forall a :: a in gone <==> a in sessions && a !in left
        invariant control == old(control) + Gone(gone)
        decreases left
      {
        var a := it.value;
        CloseSocket(sessions[a]);
        GoneAppend(gone, a);
        it := LowerBound(sessions.Keys, a + 1);
        left := left - {a};
        AscendingAppend(gone, a, it);
        gone := gone + [a];
      }
    }
  }
}
