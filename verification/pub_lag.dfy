/** How far a subscriber may fall behind before a post closes it, from the sizes of the ring alone. */
module PubLag {
  import opened Common
  import opened DataRings
  import opened PubLog
  import opened RingLayout

  predicate NotClosed(a: nat, es: seq<Event>) { forall e | e in es :: e != Close(a) }

  /** What a session is still to be sent. */
  function Unsent(p: Pub, a: nat): seq<Bytes>
    requires Inv(p) && a in p.subs
  {
    assert SubOk(p, p.subs[a]);
    p.log[p.subs[a].next..]
  }

  // ----- The layout is kept -----

  lemma StepLaid(p: Pub, e: Event)
    requires Inv(p) && Laid(p.ring)
    ensures Laid(Step(p, e).ring)
  {
    if e.Post? && Admits(p.ring, e.data) {
      var k := EvictPopsTheLeast(p.ring, |e.data|);
      DropLaid(p.ring, k);
      hide Laid, Ring.Fits, Ring.Append;
      AppendLaid(Evict(p.ring, |e.data|), e.data);
    }
  }

  lemma {:induction false} RunLaid(p: Pub, es: seq<Event>)
    requires Inv(p) && Laid(p.ring)
    ensures Laid(Run(p, es).ring)
    decreases |es|
  {
    if es != [] {
      hide Inv, Step, Laid;
      StepInv(p, es[0]);
      StepLaid(p, es[0]);
      RunLaid(Step(p, es[0]), es[1..]);
    }
  }

  lemma Reached(slots: nat, capacity: nat, es: seq<Event>)
    requires slots >= 1
    ensures Inv(Init(slots, capacity))
    ensures var p := Run(Init(slots, capacity), es);
            Laid(p.ring) && p.ring.slots == slots && p.ring.capacity == capacity
  {
    assert Inv(Init(slots, capacity));
    RunLaid(Init(slots, capacity), es);
  }

  /** What the ring holds from a session's next message on is what it is still to be sent. */
  lemma UnsentIsStored(p: Pub, a: nat)
    requires Inv(p) && a in p.subs
    ensures var k := p.subs[a].next - p.ring.popped;
            && 0 <= k <= |p.ring.entries|
            && |p.ring.entries[k..]| == |Unsent(p, a)|
            && Size(p.ring.entries[k..]) == Total(Unsent(p, a))
  {
    assert SubOk(p, p.subs[a]);
    var k := p.subs[a].next - p.ring.popped;
    SizeIsTotal(p.ring.entries[k..], Unsent(p, a));
  }

  // ----- Who is spared -----

  lemma SparedByPost(p: Pub, data: Bytes, blocked: set<nat>, a: nat)
    requires Inv(p) && Laid(p.ring) && a in p.subs && Admits(p.ring, data)
    requires |Unsent(p, a)| < p.ring.slots && 2 * (Total(Unsent(p, a)) + |data|) <= p.ring.capacity
    ensures a in PostStep(p, data, blocked).subs
  {
    hide Laid, Ring.Fits;
    UnsentIsStored(p, a);
    var k := p.subs[a].next - p.ring.popped;
    DropLaid(p.ring, k);
    RoomInHalf(p.ring.Drop(k), |data|);
    PostClosesOnlyOfNecessity(p, data, blocked, a);
  }

  lemma NextGrows(p: Pub, e: Event, a: nat)
    requires Inv(p) && a in p.subs && a in Step(p, e).subs
    ensures p.subs[a].next <= Step(p, e).subs[a].next
  {
    hide Inv, Evict;
  }

  /** A step that leaves a session leaves it no more to be sent than it had, and what the step publishes. */
  lemma UnsentShrinks(p: Pub, e: Event, a: nat) returns (d: nat)
    requires Inv(p) && a in p.subs && Inv(Step(p, e)) && a in Step(p, e).subs
    ensures d <= |Unsent(p, a) + Accepted(p.ring.capacity, e)|
    ensures Unsent(Step(p, e), a) == (Unsent(p, a) + Accepted(p.ring.capacity, e))[d..]
  {
    hide Inv, Step, SubOk, Accepted, Unsent;
    StepLog(p, e);
    NextGrows(p, e, a);
    SubIsOk(p, a);
    SubIsOk(Step(p, e), a);
    d := Step(p, e).subs[a].next - p.subs[a].next;
    LaterSlice(p.log, Accepted(p.ring.capacity, e), p.subs[a].next, d);
  }

  lemma LaterSlice(log: seq<Bytes>, more: seq<Bytes>, u: nat, d: nat)
    requires u <= |log| && u + d <= |log + more|
    ensures (log + more)[u + d..] == (log[u..] + more)[d..]
  {
  }

  lemma SubIsOk(p: Pub, a: nat)
    requires Inv(p) && a in p.subs
    ensures SubOk(p, p.subs[a]) && p.ring.popped <= p.subs[a].next <= |p.log|
    ensures Unsent(p, a) == p.log[p.subs[a].next..]
  {
  }

  lemma {:induction false} TotalOfRest(parts: seq<Bytes>, d: nat)
    requires d <= |parts|
    ensures Total(parts[d..]) <= Total(parts)
  {
    TotalAppend(parts[..d], parts[d..]);
    assert parts[..d] + parts[d..] == parts;
  }

  /** The messages a session is still to be sent when it has been through a run, and all that comes in it. */
  function Ahead(p: Pub, a: nat, es: seq<Event>): seq<Bytes>
    requires Inv(p) && a in p.subs
  {
    Unsent(p, a) + Published(p.ring.capacity, es)
  }

  lemma AheadShrinks(p: Pub, e: Event, es: seq<Event>, a: nat)
    requires Inv(p) && a in p.subs && Inv(Step(p, e)) && a in Step(p, e).subs
    requires Step(p, e).ring.capacity == p.ring.capacity
    ensures |Ahead(Step(p, e), a, es)| <= |Ahead(p, a, [e] + es)|
    ensures Total(Ahead(Step(p, e), a, es)) <= Total(Ahead(p, a, [e] + es))
  {
    hide Step, Inv;
    var d := UnsentShrinks(p, e, a);
    var first := Unsent(p, a) + Accepted(p.ring.capacity, e);
    var more := Published(p.ring.capacity, es);
    assert ([e] + es)[1..] == es;
    Assoc(Unsent(p, a), Accepted(p.ring.capacity, e), more);
    assert Ahead(p, a, [e] + es) == first + more;
    TotalAppend(first, more);
    TotalAppend(first[d..], more);
    TotalOfRest(first, d);
  }

  /** The next event of a run in which a session may not be closed does not close it. */
  lemma SparedByStep(p: Pub, e: Event, es: seq<Event>, a: nat)
    requires Inv(p) && Laid(p.ring) && a in p.subs && e != Close(a)
    requires |Ahead(p, a, [e] + es)| <= p.ring.slots && 2 * Total(Ahead(p, a, [e] + es)) <= p.ring.capacity
    ensures a in Step(p, e).subs
  {
    if e.Post? && Admits(p.ring, e.data) {
      var more := Published(p.ring.capacity, es);
      assert ([e] + es)[1..] == es;
      assert Published(p.ring.capacity, [e] + es) == [e.data] + more;
      TotalAppend(Unsent(p, a), [e.data] + more);
      assert ([e.data] + more)[1..] == more;
      SparedByPost(p, e.data, e.blocked, a);
    }
    hide Inv, Laid, Evict;
  }

  lemma {:induction false} SparedByRun(p: Pub, es: seq<Event>, a: nat)
    requires Inv(p) && Laid(p.ring) && a in p.subs && NotClosed(a, es)
    requires |Ahead(p, a, es)| <= p.ring.slots && 2 * Total(Ahead(p, a, es)) <= p.ring.capacity
    ensures a in Run(p, es).subs
    decreases |es|
  {
    if es != [] {
      var e, rest := es[0], es[1..];
      assert [e] + rest == es && e in es && forall f | f in rest :: f in es;
      StepInv(p, e);
      StepLaid(p, e);
      SparedByStep(p, e, rest, a);
      AheadShrinks(p, e, rest, a);
      hide Inv, Step, Laid, Ahead;
      SparedByRun(Step(p, e), rest, a);
    }
  }

  /**
   A session that nobody closes outlives every run in which all it lags behind at the start and all
   that is published are no more messages than the ring has slots, and at most half its bytes:
   whatever was published before, however slowly it drains and whoever else is there.
   */
  lemma WithinHalfIsKept(slots: nat, capacity: nat, pre: seq<Event>, es: seq<Event>, a: nat)
    requires slots >= 1 && NotClosed(a, es)
    ensures Inv(Init(slots, capacity))
    ensures var p := Run(Init(slots, capacity), pre);
            a in p.subs ==>
              var all := p.log[p.subs[a].next..] + Published(capacity, es);
              |all| <= slots && 2 * Total(all) <= capacity ==> a in Run(Init(slots, capacity), pre + es).subs
  {
    Reached(slots, capacity, pre);
    var p := Run(Init(slots, capacity), pre);
    RunAppend(Init(slots, capacity), pre, es);
    if a in p.subs && |Ahead(p, a, es)| <= slots && 2 * Total(Ahead(p, a, es)) <= capacity {
      SparedByRun(p, es, a);
    }
    assert a in p.subs ==> SubOk(p, p.subs[a]);
  }

  // ----- Who is not -----

  /** No live session ever lags by more messages than there are slots, or by more bytes than the buffer has. */
  lemma LagIsBounded(slots: nat, capacity: nat, es: seq<Event>, a: nat)
    requires slots >= 1
    ensures Inv(Init(slots, capacity))
    ensures var p := Run(Init(slots, capacity), es);
            a in p.subs ==> |Unsent(p, a)| <= slots && Total(Unsent(p, a)) <= capacity
  {
    Reached(slots, capacity, es);
    var p := Run(Init(slots, capacity), es);
    if a in p.subs {
      UnsentIsStored(p, a);
      var k := p.subs[a].next - p.ring.popped;
      DropLaid(p.ring, k);
      SizeWithinCapacity(p.ring.Drop(k));
    }
  }

  /** So a lagging session that would have more is closed by the post. */
  lemma TooFarBehindIsClosed(slots: nat, capacity: nat, es: seq<Event>, a: nat, data: Bytes, blocked: set<nat>)
    requires slots >= 1 && |data| <= capacity / 2
    ensures Inv(Init(slots, capacity))
    ensures var p := Run(Init(slots, capacity), es);
            a in p.subs && Unsent(p, a) != [] && (|Unsent(p, a)| == slots || Total(Unsent(p, a)) + |data| > capacity) ==>
              a !in Run(Init(slots, capacity), es + [Post(data, blocked)]).subs
  {
    Reached(slots, capacity, es);
    var p := Run(Init(slots, capacity), es);
    var e := Post(data, blocked);
    RunAppend(Init(slots, capacity), es, [e]);
    RunOne(p, e);
    var p' := Step(p, e);
    if a in p.subs && Unsent(p, a) != [] && a in p'.subs {
      LagGrows(p, data, blocked, a);
      LagIsBounded(slots, capacity, es + [e], a);
    }
  }

  lemma LagGrows(p: Pub, data: Bytes, blocked: set<nat>, a: nat)
    requires Inv(p) && Admits(p.ring, data) && a in p.subs && Unsent(p, a) != []
    requires Inv(PostStep(p, data, blocked)) && a in PostStep(p, data, blocked).subs
    ensures var p' := PostStep(p, data, blocked);
            |Unsent(p', a)| == |Unsent(p, a)| + 1 && Total(Unsent(p', a)) == Total(Unsent(p, a)) + |data|
  {
    var p' := PostStep(p, data, blocked);
    SubIsOk(p, a);
    SubIsOk(p', a);
    PostLeaves(p, data, blocked, a);
    StepLog(p, Post(data, blocked));
    hide Inv, PostStep, SubOk;
    assert Unsent(p', a) == Unsent(p, a) + [data];
    TotalAppend(Unsent(p, a), [data]);
    assert Total([data]) == |data| by { assert [data][1..] == []; }
  }

  lemma PostLeaves(p: Pub, data: Bytes, blocked: set<nat>, a: nat)
    requires Inv(p) && Admits(p.ring, data) && a in p.subs && p.subs[a].next < |p.log|
    ensures a in PostStep(p, data, blocked).subs ==> PostStep(p, data, blocked).subs[a] == p.subs[a]
  {
    hide Inv, Evict;
  }

  // ----- The first round of the ring -----

  /** Nothing has been popped, and the messages fill the buffer from its start. */
  ghost predicate FirstRound(p: Pub) {
    && Inv(p) && p.ring.popped == 0 && p.ring.write == Total(p.log)
    && forall i | 0 <= i < |p.ring.entries| :: p.ring.entries[i].End() <= p.ring.write
  }

  lemma FirstRoundPost(p: Pub, data: Bytes, blocked: set<nat>)
    requires FirstRound(p) && Admits(p.ring, data)
    requires |p.log| < p.ring.slots && Total(p.log) + |data| <= p.ring.capacity
    ensures FirstRound(PostStep(p, data, blocked))
    ensures forall a | a in p.subs :: a in PostStep(p, data, blocked).subs
  {
    var p' := PostStep(p, data, blocked);
    assert p.ring.Free(p.ring.write, |data|) && p.ring.Fits(|data|);
    assert Evict(p.ring, |data|) == p.ring;
    PostInv(p, data, blocked);
    TotalAppend(p.log, [data]);
    assert Total([data]) == |data| by { assert [data][1..] == []; }
    hide Evict, Ring.Fits, Ring.Valid;
    assert p'.ring.entries == p.ring.entries + [Slot(p.ring.write, data)];
    forall a | a in p.subs
      ensures a in p'.subs
    {
      assert SubOk(p, p.subs[a]);
    }
  }

  lemma FirstRoundStep(p: Pub, e: Event)
    requires FirstRound(p)
    requires var now := Accepted(p.ring.capacity, e);
             |p.log + now| <= p.ring.slots && Total(p.log) + Total(now) <= p.ring.capacity
    ensures FirstRound(Step(p, e)) && forall a | a in p.subs && e != Close(a) :: a in Step(p, e).subs
  {
    if e.Post? {
      if Admits(p.ring, e.data) {
        assert [e.data][1..] == [];
        FirstRoundPost(p, e.data, e.blocked);
      }
    } else {
      StepInv(p, e);
      OnlyPostsStore(p, e);
      hide Inv, Step;
    }
  }

  lemma OnlyPostsStore(p: Pub, e: Event)
    requires Inv(p) && !e.Post?
    ensures Step(p, e).ring == p.ring && Step(p, e).log == p.log
    ensures forall a | a in p.subs && e != Close(a) :: a in Step(p, e).subs
  {
    hide Inv;
  }

  predicate Room(p: Pub, es: seq<Event>) {
    && |p.log + Published(p.ring.capacity, es)| <= p.ring.slots
    && Total(p.log + Published(p.ring.capacity, es)) <= p.ring.capacity
  }

  lemma RoomNext(p: Pub, es: seq<Event>)
    requires FirstRound(p) && es != [] && Room(p, es)
    ensures FirstRound(Step(p, es[0])) && Room(Step(p, es[0]), es[1..])
    ensures forall a | a in p.subs && es[0] != Close(a) :: a in Step(p, es[0]).subs
  {
    var now, later := Accepted(p.ring.capacity, es[0]), Published(p.ring.capacity, es[1..]);
    Assoc(p.log, now, later);
    TotalAppend(p.log + now, later);
    TotalAppend(p.log, now);
    StepInv(p, es[0]);
    StepLog(p, es[0]);
    FirstRoundStep(p, es[0]);
    hide Inv, Step, FirstRound;
  }

  lemma {:induction false} FirstRoundRun(p: Pub, es: seq<Event>)
    requires FirstRound(p) && Room(p, es)
    ensures FirstRound(Run(p, es))
    decreases |es|
  {
    if es != [] {
      RoomNext(p, es);
      hide Step, Room;
      FirstRoundRun(Step(p, es[0]), es[1..]);
    }
  }

  lemma {:induction false} FirstRoundKeeps(p: Pub, es: seq<Event>, a: nat)
    requires FirstRound(p) && Room(p, es) && a in p.subs && NotClosed(a, es)
    ensures a in Run(p, es).subs
    decreases |es|
  {
    if es != [] {
      assert es[0] in es && forall f | f in es[1..] :: f in es;
      RoomNext(p, es);
      hide Step, Room;
      FirstRoundKeeps(Step(p, es[0]), es[1..], a);
    }
  }

  lemma StartsInFirstRound(slots: nat, capacity: nat, es: seq<Event>)
    requires slots >= 1
    requires |Published(capacity, es)| <= slots && Total(Published(capacity, es)) <= capacity
    ensures FirstRound(Init(slots, capacity)) && Room(Init(slots, capacity), es)
  {
    hide Published;
    var init := Init(slots, capacity);
    assert init.log + Published(capacity, es) == Published(capacity, es);
  }

  lemma RoomForBoth(slots: nat, capacity: nat, pre: seq<Event>, post: seq<Event>)
    requires |Published(capacity, pre + post)| <= slots && Total(Published(capacity, pre + post)) <= capacity
    ensures |Published(capacity, pre)| <= slots && Total(Published(capacity, pre)) <= capacity
    ensures Published(capacity, pre + post) == Published(capacity, pre) + Published(capacity, post)
  {
    hide Published;
    PublishedAppend(capacity, pre, post);
    TotalAppend(Published(capacity, pre), Published(capacity, post));
  }

  lemma RoomLater(slots: nat, capacity: nat, pre: seq<Event>, post: seq<Event>)
    requires slots >= 1
    requires |Published(capacity, pre + post)| <= slots && Total(Published(capacity, pre + post)) <= capacity
    ensures var p := Init(slots, capacity);
            FirstRound(p) && FirstRound(Run(p, pre)) && Room(Run(p, pre), post)
  {
    RoomForBoth(slots, capacity, pre, post);
    StartsInFirstRound(slots, capacity, pre);
    hide Published, Step;
    FirstRoundRun(Init(slots, capacity), pre);
    LogIsPublished(Init(slots, capacity), pre);
    assert Init(slots, capacity).log + Published(capacity, pre) == Published(capacity, pre);
  }

  /**
   As long as no more messages have been published than the ring has slots, and no more bytes than it
   has, nothing is popped, and a session is gone only if somebody closed it.
   */
  lemma NothingIsPoppedInTheFirstRound(slots: nat, capacity: nat, pre: seq<Event>, post: seq<Event>, a: nat)
    requires slots >= 1
    requires |Published(capacity, pre + post)| <= slots && Total(Published(capacity, pre + post)) <= capacity
    ensures Inv(Init(slots, capacity))
    ensures Run(Init(slots, capacity), pre + post).ring.popped == 0
    ensures a in Run(Init(slots, capacity), pre).subs && NotClosed(a, post) ==>
              a in Run(Init(slots, capacity), pre + post).subs
  {
    var p := Init(slots, capacity);
    RoomLater(slots, capacity, pre, post);
    hide Published, Run, Room, Init, Inv;
    RunAppend(p, pre, post);
    FirstRoundRun(Run(p, pre), post);
    if a in Run(p, pre).subs && NotClosed(a, post) {
      FirstRoundKeeps(Run(p, pre), post, a);
    }
  }
}
