/**
 A server-sent-events session: one slot for a frame waiting to be written, overwritten by the next
 post and emptied when the socket can be written.
 */
module EventSlot {
  import opened Common
  import opened EventStream

  /** `ended` is a drop the user asked for, `gone` a dropped session, `wire` the frames written. */
  datatype Slot = Slot(pending: Text, ended: bool, gone: bool, wire: seq<Text>)

  datatype Event =
    | Post(message: Text)
    | Disconnect
    | Writable(ok: bool)

  const FRESH := Slot([], false, false, [])

  function Step(s: Slot, e: Event): Slot {
    if s.gone then s
    else
      match e
      case Post(m) => s.(pending := Frame(m))
      case Disconnect => s.(ended := true)
      case Writable(ok) =>
        if s.pending != [] && !ok then s.(gone := true)
        else
          var written := if s.pending != [] then s.wire + [s.pending] else s.wire;
          s.(pending := [], wire := written, gone := s.ended)
  }

  function Run(es: seq<Event>): Slot {
    if es == [] then FRESH else Step(Run(es[..|es| - 1]), es[|es| - 1])
  }

  /** Event i is a post, and between it and event w there is neither another post nor a write. */
  ghost predicate Unanswered(es: seq<Event>, i: nat, w: nat) {
    && i < w <= |es| && es[i].Post?
    && forall j | i < j < w :: es[j].Disconnect?
  }

  /** A post that is still the latest one when the socket can next be written. */
  ghost predicate Taken(es: seq<Event>, i: nat) {
    exists w :: i < w < |es| && es[w].Writable? && Unanswered(es, i, w)
  }

  lemma UnansweredPrefix(es: seq<Event>, e: Event, i: nat, w: nat)
    requires w <= |es|
    ensures Unanswered(es + [e], i, w) <==> Unanswered(es, i, w)
  {
    var es' := es + [e];
    assert forall j | 0 <= j < |es| :: es'[j] == es[j];
  }

  lemma TakenSnoc(es: seq<Event>, e: Event, i: nat)
    ensures Taken(es + [e], i) <==> Taken(es, i) || (e.Writable? && Unanswered(es, i, |es|))
  {
    var es' := es + [e];
    if Taken(es', i) {
      var w :| i < w < |es'| && es'[w].Writable? && Unanswered(es', i, w);
      UnansweredPrefix(es, e, i, w);
    }
    if Taken(es, i) {
      var w :| i < w < |es| && es[w].Writable? && Unanswered(es, i, w);
      UnansweredPrefix(es, e, i, w);
      assert es'[w].Writable?;
    }
    if e.Writable? && Unanswered(es, i, |es|) {
      UnansweredPrefix(es, e, i, |es|);
      assert es'[|es|].Writable?;
    }
  }

  /** The slot holds the latest post not yet written, if there is one. */
  lemma {:induction false} SlotHoldsLatest(es: seq<Event>)
    requires !Run(es).gone
    ensures forall i: nat | Unanswered(es, i, |es|) :: Run(es).pending == Frame(es[i].message)
    ensures Run(es).pending != [] <==> exists i: nat :: Unanswered(es, i, |es|)
  {
    if es != [] {
      var init, e, n := es[..|es| - 1], es[|es| - 1], |es| - 1;
      assert es == init + [e];
      SlotHoldsLatest(init);
      forall i: nat | i < n
        ensures Unanswered(es, i, |es|) <==> Unanswered(init, i, n) && e.Disconnect?
      {
        UnansweredPrefix(init, e, i, n);
      }
      assert e.Post? ==> Unanswered(es, n, |es|);
      assert Run(init).pending != [] && e.Disconnect? ==> exists i: nat :: Unanswered(es, i, |es|) by {
        if Run(init).pending != [] && e.Disconnect? {
          var i: nat :| Unanswered(init, i, n);
          assert Unanswered(es, i, |es|);
        }
      }
    }
  }

  /** The user has asked before event w to drop the session. */
  predicate Asked(es: seq<Event>, w: nat)
    requires w <= |es|
  {
    exists d :: 0 <= d < w && es[d].Disconnect?
  }

  /** There is a post to write when event w comes. */
  ghost predicate Waiting(es: seq<Event>, w: nat) { exists i: nat :: Unanswered(es, i, w) }

  /** The write at w drops the session: the user had asked for it, or it fails with a post to write. */
  ghost predicate Drops(es: seq<Event>, w: nat) {
    w < |es| && es[w].Writable? && (Asked(es, w) || (!es[w].ok && Waiting(es, w)))
  }

  lemma DropsPrefix(es: seq<Event>, e: Event, w: nat)
    requires w < |es|
    ensures Drops(es + [e], w) <==> Drops(es, w)
  {
    var es' := es + [e];
    assert forall d | 0 <= d < |es| :: es'[d] == es[d];
    forall i: nat
      ensures Unanswered(es', i, w) <==> Unanswered(es, i, w)
    {
      UnansweredPrefix(es, e, i, w);
    }
  }

  lemma {:induction false} EndedIfAsked(es: seq<Event>)
    requires !Run(es).gone
    ensures Run(es).ended <==> Asked(es, |es|)
  {
    if es != [] {
      var n := |es| - 1;
      EndedIfAsked(es[..n]);
      assert forall d | 0 <= d < n :: es[..n][d] == es[d];
    }
  }

  lemma DropsLast(init: seq<Event>, e: Event)
    ensures Drops(init + [e], |init|) <==>
            e.Writable? && (Asked(init, |init|) || (!e.ok && Waiting(init, |init|)))
  {
    var es, n := init + [e], |init|;
    assert forall d | 0 <= d < n :: es[d] == init[d];
    forall i: nat
      ensures Unanswered(es, i, n) <==> Unanswered(init, i, n)
    {
      UnansweredPrefix(init, e, i, n);
    }
    hide Unanswered;
  }

  lemma PendingIfWaiting(es: seq<Event>)
    requires !Run(es).gone
    ensures Run(es).pending != [] <==> Waiting(es, |es|)
  {
    SlotHoldsLatest(es);
  }

  lemma RunSnoc(es: seq<Event>, e: Event)
    ensures Run(es + [e]) == Step(Run(es), e)
  {
    assert (es + [e])[..|es|] == es;
  }

  lemma StepDrops(s: Slot, e: Event)
    requires !s.gone
    ensures Step(s, e).gone <==> e.Writable? && (s.ended || (!e.ok && s.pending != []))
  {
  }

  /** The next event drops a live session exactly if it is such a write. */
  lemma DropsNow(es: seq<Event>)
    requires es != [] && !Run(es[..|es| - 1]).gone
    ensures Run(es).gone <==> Drops(es, |es| - 1)
  {
    hide Drops, Asked, Waiting, Step, Run;
    var n := |es| - 1;
    var init := es[..n];
    assert init + [es[n]] == es;
    RunSnoc(init, es[n]);
    StepDrops(Run(init), es[n]);
    EndedIfAsked(init);
    PendingIfWaiting(init);
    DropsLast(init, es[n]);
  }

  /** A session is gone exactly if some write came that drops it: told by the events alone. */
  lemma {:induction false} GoneIffDropped(es: seq<Event>)
    ensures Run(es).gone <==> exists w: nat :: Drops(es, w)
  {
    if es != [] {
      var n := |es| - 1;
      var init := es[..n];
      assert init + [es[n]] == es;
      GoneIffDropped(init);
      forall w: nat | w < n
        ensures Drops(es, w) <==> Drops(init, w)
      {
        DropsPrefix(init, es[n], w);
      }
      if Run(init).gone {
        var w: nat :| Drops(init, w);
        assert Drops(es, w);
      } else {
        DropsNow(es);
        hide Drops;
        assert forall w: nat | Drops(es, w) :: w == n || Drops(init, w) by {
          BeforeOrLast(es);
        }
      }
    }
  }

  lemma BeforeOrLast(es: seq<Event>)
    requires es != []
    ensures forall w: nat | Drops(es, w) :: w == |es| - 1 || Drops(es[..|es| - 1], w)
  {
    var n := |es| - 1;
    assert es[..n] + [es[n]] == es;
    forall w: nat | Drops(es, w) && w != n
      ensures Drops(es[..n], w)
    {
      DropsPrefix(es[..n], es[n], w);
    }
  }

  lemma OneLatest(es: seq<Event>, i: nat, j: nat)
    requires Unanswered(es, i, |es|) && Unanswered(es, j, |es|)
    ensures i == j
  {
  }

  /**
   How many events had a say in what was written: all of them while the session lives, and otherwise
   those up to the write that dropped it, which itself counts unless it failed.
   */
  function Heard(es: seq<Event>): (m: nat)
    ensures m <= |es|
    ensures !Run(es).gone ==> m == |es|
  {
    if es == [] then 0
    else
      var init, e := es[..|es| - 1], es[|es| - 1];
      if Run(init).gone then Heard(init)
      else if e.Writable? && !e.ok && Run(init).pending != [] then |init|
      else |es|
  }

  lemma SameDropsBefore(es: seq<Event>, n: nat)
    requires es != [] && n < |es|
    ensures forall w: nat | w < n :: Drops(es, w) <==> Drops(es[..|es| - 1], w)
  {
    var last := |es| - 1;
    assert es[..last] + [es[last]] == es;
    forall w: nat | w < n
      ensures Drops(es, w) <==> Drops(es[..last], w)
    {
      DropsPrefix(es[..last], es[last], w);
    }
  }

  /** The first write that drops the session: it was live before, and what follows changes nothing. */
  lemma {:induction false} HeardEndsAtTheDrop(es: seq<Event>) returns (d: nat)
    requires Run(es).gone
    ensures d < |es| && es[d].Writable?
    ensures !Run(es[..d]).gone && Run(es[..d + 1]) == Run(es)
    ensures es[d].ok ==> Run(es[..d]).ended
    ensures Drops(es, d) && forall w: nat | w < d :: !Drops(es, w)
    ensures Heard(es) == if es[d].ok || Run(es[..d]).pending == [] then d + 1 else d
  {
    var n := |es| - 1;
    d := n;
    if Run(es[..n]).gone {
      d := HeardEndsAtTheDrop(es[..n]);
      assert es[..n][..d] == es[..d] && es[..n][..d + 1] == es[..d + 1];
      SameDropsBefore(es, d + 1);
    } else {
      assert es[..n + 1] == es;
      DropsNow(es);
      GoneIffDropped(es[..n]);
      SameDropsBefore(es, n);
    }
  }

  /**
   Of every session, live or dropped, the frames written are those of the posts that were the latest
   when the socket could next be written, each once and in order; every other post is lost or still
   waiting. The write that ends a session counts, a write that fails does not.
   */
  lemma {:induction false} WrittenAreTaken(es: seq<Event>) returns (at: seq<nat>)
    ensures |at| == |Run(es).wire|
    ensures forall k | 0 <= k < |at| :: at[k] < |es| && es[at[k]].Post? && Run(es).wire[k] == Frame(es[at[k]].message)
    ensures forall k, l | 0 <= k < l < |at| :: at[k] < at[l]
    ensures forall i: nat :: i in at <==> Taken(es[..Heard(es)], i)
  {
    at := [];
    if es != [] {
      var init, e, n := es[..|es| - 1], es[|es| - 1], |es| - 1;
      assert es == init + [e];
      at := WrittenAreTaken(init);
      if Run(init).gone || Heard(es) == n {
        assert es[..Heard(es)] == init[..Heard(init)];
      } else {
        assert es[..Heard(es)] == es && init[..Heard(init)] == init;
        at := OneMoreEvent(init, e, at);
      }
    }
  }

  lemma OneMoreEvent(init: seq<Event>, e: Event, before: seq<nat>) returns (at: seq<nat>)
    requires !Run(init).gone
    requires e.Writable? && !e.ok ==> Run(init).pending == []
    requires |before| == |Run(init).wire|
    requires forall k | 0 <= k < |before| ::
               before[k] < |init| && init[before[k]].Post? && Run(init).wire[k] == Frame(init[before[k]].message)
    requires forall k, l | 0 <= k < l < |before| :: before[k] < before[l]
    requires forall i: nat :: i in before <==> Taken(init, i)
    ensures |at| == |Run(init + [e]).wire|
    ensures forall k | 0 <= k < |at| ::
              && at[k] < |init| + 1 && (init + [e])[at[k]].Post?
              && Run(init + [e]).wire[k] == Frame((init + [e])[at[k]].message)
    ensures forall k, l | 0 <= k < l < |at| :: at[k] < at[l]
    ensures forall i: nat :: i in at <==> Taken(init + [e], i)
  {
    var es, n := init + [e], |init|;
    assert es[..n] == init;
    at := before;
    SlotHoldsLatest(init);
    forall i: nat
      ensures Taken(es, i) <==> Taken(init, i) || (e.Writable? && Unanswered(init, i, n))
    {
      TakenSnoc(init, e, i);
    }
    hide Taken, Unanswered, Frame;
    assert forall k | 0 <= k < |at| :: at[k] in at;
    if e.Writable? && Run(init).pending != [] {
      var i: nat :| Unanswered(init, i, n);
      LatestIsLast(init, i);
      at := at + [i];
    }
  }

  lemma LatestIsLast(es: seq<Event>, i: nat)
    requires Unanswered(es, i, |es|)
    ensures forall j: nat | Unanswered(es, j, |es|) :: j == i
    ensures forall j: nat | Taken(es, j) :: j < i
  {
    forall j: nat | Unanswered(es, j, |es|)
      ensures j == i
    {
      OneLatest(es, i, j);
    }
    forall j: nat | Taken(es, j)
      ensures j < i
    {
      var w :| j < w < |es| && es[w].Writable? && Unanswered(es, j, w);
      assert es[j].Post? && w <= i;
    }
  }

  function Joined(frames: seq<Text>): Text {
    if frames == [] then [] else frames[0] + Joined(frames[1..])
  }

  lemma {:induction false} JoinedFrames(frames: seq<Text>, messages: seq<Text>)
    requires |frames| == |messages| && forall k | 0 <= k < |frames| :: frames[k] == Frame(messages[k])
    ensures Joined(frames) == Frames(messages)
  {
    if frames != [] {
      JoinedFrames(frames[1..], messages[1..]);
    }
  }

  /**
   End to end, for every session, live or dropped: a client makes of what is written exactly the taken
   posts, if and only if they have no line breaks.
   */
  lemma ClientSeesTakenPosts(es: seq<Event>) returns (at: seq<nat>, taken: seq<Text>)
    ensures forall k, l | 0 <= k < l < |at| :: at[k] < at[l]
    ensures forall i: nat :: i in at <==> Taken(es[..Heard(es)], i)
    ensures |taken| == |at| && forall k | 0 <= k < |at| :: at[k] < |es| && es[at[k]] == Post(taken[k])
    ensures Parse(Joined(Run(es).wire)) == taken <==> forall m | m in taken :: Plain(m)
  {
    at := WrittenAreTaken(es);
    taken := seq(|at|, k requires 0 <= k < |at| => es[at[k]].message);
    JoinedFrames(Run(es).wire, taken);
    FramingRoundTrip(taken);
  }

  class Session {
    var pending: Text
    var ended: bool
    var gone: bool
    var wire: seq<Text>

    ghost function Value(): Slot
      reads this
    {
      Slot(pending, ended, gone, wire)
    }

    constructor ()
      ensures Value() == FRESH
    {
      pending, ended, gone, wire := [], false, false, [];
    }

    /** A post to a live session; whatever still waits in the slot is dropped. */
    method Post(message: Text)
      requires !gone
      modifies this
      ensures Value() == Step(old(Value()), Event.Post(message))
    {
      var buf := Copy(message);
      pending := buf[..];
    }

    method Disconnect()
      requires !gone
      modifies this
      ensures Value() == Step(old(Value()), Event.Disconnect)
    {
      ended := true;
    }

    /** The socket can be written; false drops the session. */
    method Writable(ok: bool) returns (keep: bool)
      requires !gone
      modifies this
      ensures Value() == Step(old(Value()), Event.Writable(ok)) && keep == !gone
    {
      if pending != [] {
        if !ok {
          gone := true;
          return false;
        }
        wire := wire + [pending];
        pending := [];
      }
      if ended {
        gone := true;
        return false;
      }
      return true;
    }
  }
}
