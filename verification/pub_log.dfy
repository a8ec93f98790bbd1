/**
 What a publishing node means to its subscribers: one log of everything published, a window of it
 that the ring still holds, and for every live session the number of its next unsent message.
 */
module PubLog {
  import opened Common
  import opened DataRings

  /** A live session: the log length at its connect, its next message, and what it was sent. */
  datatype Sub = Sub(start: nat, next: nat, sent: seq<Bytes>)

  datatype Pub = Pub(ring: Ring, log: seq<Bytes>, subs: map<nat, Sub>, addr: nat)

  /** `blocked` is what the sockets answer when asked whether data is still buffered in them. */
  datatype Event =
    | Connect
    | Post(data: Bytes, blocked: set<nat>)
    | Drain(a: nat, stuck: bool)
    | Close(a: nat)

  function Init(slots: nat, capacity: nat): Pub {
    Pub(Ring(slots, capacity, 0, [], 0), [], map[], 0)
  }

  function NextAddr(a: nat): nat { (a + 1) % U64 }

  predicate Admits(r: Ring, data: Bytes) { |data| <= r.capacity / 2 }

  function Deliver(log: seq<Bytes>, u: Sub): Sub
    requires u.next < |log|
  {
    Sub(u.start, u.next + 1, u.sent + [log[u.next]])
  }

  function Offer(log: seq<Bytes>, u: Sub, stuck: bool): Sub {
    if !stuck && u.next < |log| then Deliver(log, u) else u
  }

  ghost predicate SubOk(p: Pub, u: Sub) {
    && p.ring.popped <= u.next <= |p.log|
    && u.start <= u.next
    && u.sent == p.log[u.start..u.next]
  }

  /** The ring holds the end of the log. */
  ghost predicate EndOf(log: seq<Bytes>, r: Ring) {
    && |log| == r.popped + |r.entries|
    && (forall i | r.popped <= i < |log| :: r.entries[i - r.popped].data == log[i])
  }

  ghost predicate WindowOk(p: Pub) {
    p.ring.Valid() && p.ring.slots >= 1 && EndOf(p.log, p.ring)
  }

  /** And every session's next message lies in the window it holds, or just past it. */
  ghost predicate Inv(p: Pub) {
    WindowOk(p) && forall a | a in p.subs :: SubOk(p, p.subs[a])
  }

  /** A post: make room, close whoever lost a message, hand the new one to whoever was up to date. */
  function PostStep(p: Pub, data: Bytes, blocked: set<nat>): Pub
    requires Inv(p)
  {
    if !Admits(p.ring, data) then p
    else
      var ring := Evict(p.ring, |data|);
      var log := p.log + [data];
      p.(ring := ring.Append(data), log := log,
         subs := map a | a in p.subs && ring.popped <= p.subs[a].next ::
           if p.subs[a].next == |p.log| then Offer(log, p.subs[a], a in blocked) else p.subs[a])
  }

  function Step(p: Pub, e: Event): Pub
    requires Inv(p)
  {
    match e
    case Connect =>
      var a := NextAddr(p.addr);
      p.(addr := a,
         subs := if a in p.subs then p.subs else p.subs[a := Sub(|p.log|, |p.log|, [])])
    case Post(data, blocked) => PostStep(p, data, blocked)
    case Drain(a, stuck) =>
      if a in p.subs then p.(subs := p.subs[a := Offer(p.log, p.subs[a], stuck)]) else p
    case Close(a) => p.(subs := p.subs - {a})
  }

  lemma OfferOk(p: Pub, u: Sub, stuck: bool)
    requires SubOk(p, u)
    ensures SubOk(p, Offer(p.log, u, stuck))
  {
    if !stuck && u.next < |p.log| {
      assert p.log[u.start..u.next + 1] == p.log[u.start..u.next] + [p.log[u.next]];
    }
  }

  lemma WindowKept(p: Pub, p': Pub)
    requires WindowOk(p) && p'.ring == p.ring && p'.log == p.log
    ensures WindowOk(p') && p'.ring.popped <= |p'.log|
  {
  }

  lemma StepInv(p: Pub, e: Event)
    requires Inv(p)
    ensures Inv(Step(p, e))
    ensures Step(p, e).ring.slots == p.ring.slots && Step(p, e).ring.capacity == p.ring.capacity
    ensures p.log <= Step(p, e).log && p.ring.popped <= Step(p, e).ring.popped
  {
    hide WindowOk, Evict;
    match e
    case Connect =>
      WindowKept(p, Step(p, e));
    case Post(data, blocked) => if Admits(p.ring, data) { PostInv(p, data, blocked); }
    case Drain(a, stuck) =>
      WindowKept(p, Step(p, e));
      if a in p.subs { OfferOk(p, p.subs[a], stuck); }
    case Close(a) =>
      WindowKept(p, Step(p, e));
  }

  /** A session whose next message survives the popping is still right about the longer log. */
  lemma SubSurvives(p: Pub, p': Pub, u: Sub)
    requires SubOk(p, u) && p.log <= p'.log && p'.ring.popped <= u.next
    ensures SubOk(p', u)
  {
    assert p'.log[..|p.log|] == p.log;
  }

  lemma PostWindow(p: Pub, data: Bytes, blocked: set<nat>)
    requires Inv(p) && Admits(p.ring, data)
    ensures var p' := PostStep(p, data, blocked);
            WindowOk(p') && p'.log == p.log + [data]
    ensures p.ring.popped <= Evict(p.ring, |data|).popped
  {
    var ring := Evict(p.ring, |data|);
    var k := EvictPopsTheLeast(p.ring, |data|);
    AppendValid(ring, data);
    hide Evict, Ring.Valid, Ring.Fits, Ring.Place, Ring.Append, EndOf;
    EndOfDrop(p.log, p.ring, k);
    EndOfAppend(p.log, ring, data);
  }

  lemma EndOfDrop(log: seq<Bytes>, r: Ring, k: nat)
    requires EndOf(log, r) && k <= |r.entries|
    ensures EndOf(log, r.Drop(k))
  {
  }

  lemma EndOfAppend(log: seq<Bytes>, r: Ring, data: Bytes)
    requires EndOf(log, r) && r.Fits(|data|)
    ensures EndOf(log + [data], r.Append(data))
    ensures r.Append(data).slots == r.slots
  {
  }

  lemma PostInv(p: Pub, data: Bytes, blocked: set<nat>)
    requires Inv(p) && Admits(p.ring, data)
    ensures var p' := PostStep(p, data, blocked);
            && Inv(p')
            && p'.ring.slots == p.ring.slots && p'.ring.capacity == p.ring.capacity
            && p.ring.popped <= p'.ring.popped && p.log <= p'.log
  {
    var p' := PostStep(p, data, blocked);
    PostWindow(p, data, blocked);
    hide Evict, WindowOk;
    forall a | a in p'.subs
      ensures SubOk(p', p'.subs[a])
    {
      SubSurvives(p, p', p.subs[a]);
      OfferOk(p', p.subs[a], a in blocked);
    }
  }

  function Run(p: Pub, es: seq<Event>): (p': Pub)
    requires Inv(p)
    ensures Inv(p')
    ensures p'.ring.slots == p.ring.slots && p'.ring.capacity == p.ring.capacity
    ensures p.log <= p'.log && p.ring.popped <= p'.ring.popped
    decreases |es|
  {
    if es == [] then p
    else
      StepInv(p, es[0]);
      Run(Step(p, es[0]), es[1..])
  }

  lemma {:induction false} RunAppend(p: Pub, es: seq<Event>, fs: seq<Event>)
    requires Inv(p)
    ensures Run(p, es + fs) == Run(Run(p, es), fs)
    decreases |es|
  {
    hide Inv, Step;
    if es == [] {
      assert es + fs == fs;
    } else {
      StepInv(p, es[0]);
      RunAppend(Step(p, es[0]), es[1..], fs);
      assert (es + fs)[1..] == es[1..] + fs;
    }
  }

  lemma RunOne(p: Pub, e: Event)
    requires Inv(p)
    ensures Run(p, [e]) == Step(p, e)
  {
    hide Inv, Step;
    assert [e][1..] == [];
    StepInv(p, e);
  }

  /** The messages accepted in a run: those of at most half the buffer. */
  function Published(capacity: nat, es: seq<Event>): seq<Bytes> {
    if es == [] then [] else Accepted(capacity, es[0]) + Published(capacity, es[1..])
  }

  function Accepted(capacity: nat, e: Event): seq<Bytes> {
    if e.Post? && |e.data| <= capacity / 2 then [e.data] else []
  }

  lemma {:induction false} PublishedAppend(capacity: nat, es: seq<Event>, fs: seq<Event>)
    ensures Published(capacity, es + fs) == Published(capacity, es) + Published(capacity, fs)
  {
    if es == [] {
      assert es + fs == fs;
    } else {
      PublishedAppend(capacity, es[1..], fs);
      assert (es + fs)[1..] == es[1..] + fs;
      Assoc(Accepted(capacity, es[0]), Published(capacity, es[1..]), Published(capacity, fs));
    }
  }

  lemma StepLog(p: Pub, e: Event)
    requires Inv(p)
    ensures Step(p, e).log == p.log + Accepted(p.ring.capacity, e)
  {
    hide Evict, Inv;
  }

  lemma {:induction false} LogIsPublished(p: Pub, es: seq<Event>)
    requires Inv(p)
    ensures Run(p, es).log == p.log + Published(p.ring.capacity, es)
    decreases |es|
  {
    if es != [] {
      hide Inv, Step;
      StepInv(p, es[0]);
      StepLog(p, es[0]);
      LogIsPublished(Step(p, es[0]), es[1..]);
      Assoc(p.log, Accepted(p.ring.capacity, es[0]), Published(p.ring.capacity, es[1..]));
    }
  }

  function Connects(es: seq<Event>): nat {
    if es == [] then 0 else (if es[0].Connect? then 1 else 0) + Connects(es[1..])
  }

  lemma {:induction false} ConnectsAppend(es: seq<Event>, fs: seq<Event>)
    ensures Connects(es + fs) == Connects(es) + Connects(fs)
  {
    if es == [] {
      assert es + fs == fs;
    } else {
      ConnectsAppend(es[1..], fs);
      assert (es + fs)[1..] == es[1..] + fs;
    }
  }

  /** Live sessions are numbered from 1 up to the last address given. */
  ghost predicate Numbered(p: Pub) { forall a | a in p.subs :: 1 <= a <= p.addr }

  lemma StepNumbered(p: Pub, e: Event)
    requires Inv(p) && Numbered(p) && p.addr + Connects([e]) < U64
    ensures Numbered(Step(p, e)) && Step(p, e).addr == p.addr + Connects([e])
  {
    hide Inv, Evict;
    assert [e][1..] == [];
  }

  /** Until the counter wraps, sessions are numbered from 1 in the order they connect. */
  lemma {:induction false} AddressesAreFresh(p: Pub, es: seq<Event>)
    requires Inv(p) && Numbered(p) && p.addr + Connects(es) < U64
    ensures Numbered(Run(p, es)) && Run(p, es).addr == p.addr + Connects(es)
    decreases |es|
  {
    if es != [] {
      hide Inv, Step, Numbered;
      StepInv(p, es[0]);
      ConnectsAppend([es[0]], es[1..]);
      assert [es[0]] + es[1..] == es;
      StepNumbered(p, es[0]);
      AddressesAreFresh(Step(p, es[0]), es[1..]);
    }
  }

  /** Nothing but its own connect changes where a session started. */
  lemma {:induction false} StartStays(p: Pub, es: seq<Event>, a: nat)
    requires Inv(p) && 1 <= a <= p.addr && p.addr + Connects(es) < U64
    ensures a in Run(p, es).subs ==> a in p.subs && Run(p, es).subs[a].start == p.subs[a].start
    decreases |es|
  {
    hide Inv;
    if es != [] {
      StepInv(p, es[0]);
      StartStays(Step(p, es[0]), es[1..], a);
    }
  }

  lemma ConnectStep(p: Pub)
    requires Inv(p) && Numbered(p) && p.addr + 1 < U64
    ensures var p' := Step(p, Connect);
            && Run(p, [Connect]) == p'
            && p'.ring == p.ring && p'.log == p.log && p'.addr == p.addr + 1
            && Numbered(p') && p'.addr in p'.subs
            && p'.subs[p'.addr] == Sub(|p.log|, |p.log|, [])
  {
    hide Inv, Run;
    StepInv(p, Connect);
    RunOne(p, Connect);
  }

  /** The state in which a run of the given shape leaves the session made by its middle connect. */
  lemma AfterConnect(slots: nat, capacity: nat, pre: seq<Event>, post: seq<Event>)
    returns (p1: Pub, a: nat)
    requires slots >= 1 && Connects(pre + [Connect] + post) < U64
    ensures Inv(p1) && p1.ring.capacity == capacity
    ensures a == Connects(pre) + 1 == p1.addr && p1.addr + Connects(post) < U64
    ensures Numbered(p1)
    ensures a in p1.subs && p1.subs[a] == Sub(|p1.log|, |p1.log|, [])
    ensures p1.log == Published(capacity, pre)
    ensures Run(Init(slots, capacity), pre + [Connect] + post) == Run(p1, post)
  {
    var init := Init(slots, capacity);
    assert Inv(init) && Connects([Connect]) == 1;
    ConnectsAppend(pre + [Connect], post);
    ConnectsAppend(pre, [Connect]);
    hide Run, Published, Inv, Step, Connects;
    AddressesAreFresh(init, pre);
    LogIsPublished(init, pre);
    var p0 := Run(init, pre);
    assert Inv(p0);
    ConnectStep(p0);
    StepInv(p0, Connect);
    p1 := Step(p0, Connect);
    a := p1.addr;
    RunAppend(init, pre, [Connect]);
    RunAppend(init, pre + [Connect], post);
  }

  /**
   The main result.  Split any run at any connect: if the session created there is still alive at
   the end, then what it was sent is the published log from its connect up to its next message,
   whatever was popped or closed on the way.
   */
  lemma SentIsASliceOfTheLog(slots: nat, capacity: nat, pre: seq<Event>, post: seq<Event>)
    requires slots >= 1
    requires Connects(pre + [Connect] + post) < U64
    ensures var a := Connects(pre) + 1;
            var p := Run(Init(slots, capacity), pre + [Connect] + post);
            a in p.subs ==>
              var from := |Published(capacity, pre)|;
              var all := Published(capacity, pre + [Connect] + post);
              && from <= p.subs[a].next <= |all|
              && p.subs[a].sent == all[from..p.subs[a].next]
              && p.ring.popped <= p.subs[a].next
  {
    hide Published, Run, Connects;
    var p1, a := AfterConnect(slots, capacity, pre, post);
    StartStays(p1, post, a);
    LogIsPublished(Init(slots, capacity), pre + [Connect] + post);
  }

  /** A session that is never found blocked and never closed by either side. */
  predicate Smooth(a: nat, es: seq<Event>) {
    forall e | e in es ::
      && (e.Post? ==> a !in e.blocked)
      && (e.Close? ==> e.a != a)
  }

  ghost predicate UpToDate(p: Pub, a: nat) {
    && a in p.subs && p.subs[a].next == |p.log|
    && 1 <= a <= p.addr
  }

  lemma SmoothStep(p: Pub, e: Event, a: nat)
    requires Inv(p) && UpToDate(p, a) && Smooth(a, [e])
    requires p.addr + Connects([e]) < U64
    ensures UpToDate(Step(p, e), a)
  {
    assert [e][0] in [e] && [e][1..] == [];
    StepInv(p, e);
    hide Inv, Evict;
    if e.Post? && Admits(p.ring, e.data) {
      PostWindow(p, e.data, e.blocked);
      PoppedIsPublished(p, e.data);
    }
  }

  lemma PoppedIsPublished(p: Pub, data: Bytes)
    requires Inv(p) && Admits(p.ring, data)
    ensures Evict(p.ring, |data|).popped <= |p.log|
  {
    var k := EvictPopsTheLeast(p.ring, |data|);
  }

  /** Such a session is never evicted and is always up to date. */
  lemma {:induction false} SmoothSessionKeepsUp(p: Pub, es: seq<Event>, a: nat)
    requires Inv(p) && UpToDate(p, a) && Smooth(a, es)
    requires p.addr + Connects(es) < U64 && Numbered(p)
    ensures UpToDate(Run(p, es), a)
    decreases |es|
  {
    if es != [] {
      assert es[0] in es;
      assert forall e | e in [es[0]] + es[1..] :: e in es;
      ConnectsAppend([es[0]], es[1..]);
      assert [es[0]] + es[1..] == es;
      StepInv(p, es[0]);
      StepNumbered(p, es[0]);
      SmoothStep(p, es[0], a);
      hide Inv, Step, Numbered, UpToDate, Connects;
      SmoothSessionKeepsUp(Step(p, es[0]), es[1..], a);
    }
  }

  /** So it is sent everything published after its connect. */
  lemma SmoothSessionGetsEverything(slots: nat, capacity: nat, pre: seq<Event>, post: seq<Event>)
    requires slots >= 1
    requires Connects(pre + [Connect] + post) < U64
    requires Smooth(Connects(pre) + 1, post)
    ensures var a := Connects(pre) + 1;
            var p := Run(Init(slots, capacity), pre + [Connect] + post);
            a in p.subs && p.subs[a].sent == Published(capacity, post)
  {
    hide Published, Run, Connects;
    var p1, a := AfterConnect(slots, capacity, pre, post);
    SmoothSessionKeepsUp(p1, post, a);
    StartStays(p1, post, a);
    LogIsPublished(p1, post);
    assert (p1.log + Published(capacity, post))[|p1.log|..] == Published(capacity, post);
  }

  /** A closed session is gone for good: no later connect is given its address. */
  lemma ClosedForGood(p: Pub, es: seq<Event>, a: nat)
    requires Inv(p) && 1 <= a <= p.addr && p.addr + Connects(es) < U64
    ensures a !in Run(Step(p, Close(a)), es).subs
  {
    StepInv(p, Close(a));
    StartStays(Step(p, Close(a)), es, a);
  }

  /**
   When a post closes a session: exactly when no amount of popping that spares the session's
   unsent messages would make room for the new one.
   */
  lemma PostClosesOnlyOfNecessity(p: Pub, data: Bytes, blocked: set<nat>, a: nat)
    requires Inv(p) && Admits(p.ring, data) && a in p.subs
    ensures a !in PostStep(p, data, blocked).subs <==>
            (forall k: nat | k <= p.subs[a].next - p.ring.popped :: !p.ring.Drop(k).Fits(|data|))
  {
    var ring := Evict(p.ring, |data|);
    var k := EvictPopsTheLeast(p.ring, |data|);
    assert ring.popped == p.ring.popped + k && p.ring.Drop(k).Fits(|data|);
  }

  /**
   A surviving session is up to date after a post exactly if it was so before and its socket took
   the message: a session that lags is not helped by a post, even when its socket is empty.
   */
  lemma OnlyDrainsCatchUp(p: Pub, data: Bytes, blocked: set<nat>, a: nat)
    requires Inv(p) && Admits(p.ring, data) && a in PostStep(p, data, blocked).subs
    ensures var p' := PostStep(p, data, blocked);
            && a in p.subs
            && (p'.subs[a].next == |p'.log| <==> p.subs[a].next == |p.log| && a !in blocked)
            && p'.subs[a].sent ==
               p.subs[a].sent + (if p'.subs[a].next == |p'.log| then [data] else [])
  {
  }

  /** A session's socket has written out its data and takes the next message. */
  function Catches(a: nat, e: Event): nat { if e == Drain(a, false) then 1 else 0 }

  function Caught(a: nat, es: seq<Event>): nat {
    if es == [] then 0 else Catches(a, es[0]) + Caught(a, es[1..])
  }

  /** Starting so many messages behind, drains never make up for it all: told by the events alone. */
  predicate StaysBehind(capacity: nat, a: nat, behind: int, es: seq<Event>)
    decreases |es|
  {
    && behind > 0
    && (es == [] || StaysBehind(capacity, a, behind + |Accepted(capacity, es[0])| - Catches(a, es[0]), es[1..]))
  }

  lemma BehindStep(p: Pub, e: Event, a: nat)
    requires Inv(p) && a in p.subs && p.subs[a].next < |p.log|
    requires 1 <= a <= p.addr && p.addr + Connects([e]) < U64
    ensures a in Step(p, e).subs ==>
              && Step(p, e).subs[a].next == p.subs[a].next + Catches(a, e)
              && |Step(p, e).log| == |p.log| + |Accepted(p.ring.capacity, e)|
    ensures 1 <= a <= Step(p, e).addr && Step(p, e).addr + Connects([]) <= p.addr + Connects([e])
  {
    hide Inv, Evict;
    StepLog(p, e);
    assert [e][1..] == [];
  }

  /**
   A subscriber that lags moves on by one message for every drain of its empty socket and by nothing
   else: over any run in which the drains do not catch up with what is published, posts never help
   it, whether its socket is empty or not, and it is behind to the end.
   */
  lemma {:induction false} LaggardsMoveByDrains(p: Pub, es: seq<Event>, a: nat)
    requires Inv(p) && a in p.subs && 1 <= a <= p.addr && p.addr + Connects(es) < U64
    requires StaysBehind(p.ring.capacity, a, |p.log| - p.subs[a].next, es)
    ensures var p' := Run(p, es);
            a in p'.subs ==>
              && p'.subs[a].next == p.subs[a].next + Caught(a, es)
              && |p'.log| - p'.subs[a].next ==
                 |p.log| - p.subs[a].next + |Published(p.ring.capacity, es)| - Caught(a, es)
              && p'.subs[a].next < |p'.log|
    decreases |es|
  {
    if es != [] {
      var e, rest := es[0], es[1..];
      var p1 := Step(p, e);
      assert [e] + rest == es && Connects([]) == 0;
      ConnectsAppend([e], rest);
      StepInv(p, e);
      BehindStep(p, e, a);
      hide Inv, Step, Connects;
      if a in p1.subs {
        LaggardsMoveByDrains(p1, rest, a);
      } else {
        StartStays(p1, rest, a);
      }
    }
  }

  /** In particular if all its drains together are fewer than the messages it lags behind. */
  lemma {:induction false} TooFewDrains(capacity: nat, a: nat, behind: nat, es: seq<Event>)
    requires Caught(a, es) < behind
    ensures StaysBehind(capacity, a, behind, es)
    decreases |es|
  {
    if es != [] {
      TooFewDrains(capacity, a, behind + |Accepted(capacity, es[0])| - Catches(a, es[0]), es[1..]);
    }
  }

  /** A post for which there is room pops nothing. */
  lemma PostWithRoom(p: Pub, data: Bytes, blocked: set<nat>, a: nat)
    requires Inv(p) && Admits(p.ring, data) && p.ring.Fits(|data|) && a in p.subs
    ensures var p' := PostStep(p, data, blocked);
            && p'.ring == p.ring.Append(data) && p'.log == p.log + [data]
            && a in p'.subs
            && (p.subs[a].next < |p.log| || a in blocked ==> p'.subs[a] == p.subs[a])
  {
    assert Evict(p.ring, |data|) == p.ring;
    hide Evict, Ring.Fits, Ring.Append, Ring.Valid;
  }

  lemma Blocked(slots: nat, capacity: nat, m: Bytes)
    requires slots >= 1 && |m| <= capacity / 2
    ensures var p := Run(Init(slots, capacity), [Connect, Post(m, {1})]);
            && p.ring == Ring(slots, capacity, 0, [Slot(0, m)], |m|) && p.log == [m]
            && 1 in p.subs && p.subs[1] == Sub(0, 0, [])
  {
    var p0 := Init(slots, capacity);
    assert [Connect, Post(m, {1})] == [Connect] + [Post(m, {1})];
    ConnectStep(p0);
    var p1 := Run(p0, [Connect]);
    RunAppend(p0, [Connect], [Post(m, {1})]);
    hide Inv;
    RunOne(p1, Post(m, {1}));
    PostWithRoom(p1, m, {1}, 1);
  }

  /**
   Such sessions occur: one found blocked by the first post is alive after the second, its socket
   empty, and has been sent neither message.
   */
  lemma LagsWithEmptySocket(slots: nat, capacity: nat, m: Bytes, n: Bytes)
    requires slots >= 2 && |m| + |n| <= capacity && |m| <= capacity / 2 && |n| <= capacity / 2
    ensures var p := Run(Init(slots, capacity), [Connect, Post(m, {1}), Post(n, {})]);
            p.log == [m, n] && 1 in p.subs && p.subs[1] == Sub(0, 0, [])
  {
    var first, last := [Connect, Post(m, {1})], Post(n, {});
    assert Inv(Init(slots, capacity));
    Blocked(slots, capacity, m);
    var p := Run(Init(slots, capacity), first);
    hide Inv, Run;
    assert first + [last] == [Connect, Post(m, {1}), last];
    RunAppend(Init(slots, capacity), first, [last]);
    RunOne(p, last);
    assert p.ring.Fits(|n|);
    PostWithRoom(p, n, {}, 1);
  }
}
