/**
 The client channel as a state machine: transfers kept by address, the posts that start, feed and
 end them, curl's callbacks, and the pass that later reaps the transfers that have ended.
 */
module Multiplex {
  import opened Common
  import T = Transfer

  datatype Mode = Single | PerData | Full

  datatype Chan = Chan(mode: Mode, cfg: T.Config, autoclose: bool,
                       sessions: map<nat, T.Session>, pending: bool, open: bool)

  /** curl's callbacks into one session. */
  datatype Callback =
    | Body(data: Bytes)
    | Wants(size: nat)
    | Line(line: Text)
    | Done(code: int)

  /** `accepted`, `fits` and `parses` are the answers of curl and of the message decoder. */
  datatype Event =
    | PostData(a: nat, data: Bytes, accepted: bool)
    | PostConnect(a: nat, fits: bool, parses: bool, accepted: bool)
    | PostDisconnect(a: nat)
    | PostOther(a: nat, control: bool)
    | Curl(a: nat, cb: Callback)
    | Process

  datatype Tagged = Tagged(a: nat, out: T.Out)

  function FromCurl(cb: Callback): T.Event {
    match cb
    case Body(data) => T.Write(data)
    case Wants(size) => T.Read(size)
    case Line(line) => T.Header(line)
    case Done(code) => T.Finalize(code, false)
  }

  ghost predicate Valid(ch: Chan) {
    forall a | a in ch.sessions :: ch.sessions[a].roff <= |ch.sessions[a].rbuf|
  }

  predicate Ended(s: T.Session) { s.state == T.Closing || s.state == T.Error }

  /** What an event means to the session at its address, if there is one. */
  function ToSession(mode: Mode, e: Event): Option<T.Event> {
    match e
    case PostData(_, data, _) => if mode == PerData then None else Some(T.Feed(data))
    case PostDisconnect(_) => Some(T.Finalize(0, true))
    case Curl(_, cb) => Some(FromCurl(cb))
    case PostConnect(_, _, _, _) => None
    case PostOther(_, _) => None
    case Process => None
  }

  /** The body of the session an event starts, if it may start one. */
  function Starts(mode: Mode, e: Event): Option<Bytes> {
    match e
    case PostData(_, data, accepted) => if mode == PerData && accepted then Some(data) else None
    case PostConnect(_, fits, parses, accepted) =>
      if mode == Full && fits && parses && accepted then Some([]) else None
    case _ => None
  }

  // ----- What an event says by itself -----

  /** A post that starts a session at its address, if that is free. */
  predicate Opens(mode: Mode, e: Event) {
    || (e.PostData? && mode == PerData && e.accepted)
    || (e.PostConnect? && mode == Full && e.fits && e.parses && e.accepted)
  }

  /** The upload data such a post brings: a data post its message, a Connect message none. */
  function Carried(e: Event): Bytes { if e.PostData? then e.data else [] }

  /** The user's disconnect and curl's report end a session. */
  predicate EndsAt(a: nat, e: Event) {
    (e.PostDisconnect? || (e.Curl? && e.cb.Done?)) && e.a == a
  }

  function EndCount(a: nat, es: seq<Event>): nat {
    if es == [] then 0 else (if EndsAt(a, es[0]) then 1 else 0) + EndCount(a, es[1..])
  }

  predicate Going(a: nat, es: seq<Event>) { forall e | e in es :: !EndsAt(a, e) }

  /** No pass comes between the session's end and the end of the run. */
  predicate NotReaped(a: nat, es: seq<Event>, ended: bool) {
    es == [] || (!(es[0].Process? && ended) && NotReaped(a, es[1..], ended || EndsAt(a, es[0])))
  }

  lemma StartsMeans(mode: Mode, e: Event)
    ensures Starts(mode, e) == if Opens(mode, e) then Some(Carried(e)) else None
    ensures Opens(mode, e) ==> !e.Process? && ToSession(mode, e).None?
  {
  }

  lemma EndsMeans(mode: Mode, a: nat, e: Event)
    ensures EndsAt(a, e) <==>
            !e.Process? && e.a == a && ToSession(mode, e).Some? && ToSession(mode, e).value.Finalize?
  {
  }

  function Step(ch: Chan, e: Event): (ch': Chan)
    requires Valid(ch)
    ensures Valid(ch') && ch'.mode == ch.mode && ch'.cfg == ch.cfg && ch'.autoclose == ch.autoclose
  {
    if e.Process? then
      var left := map a | a in ch.sessions && !Ended(ch.sessions[a]) :: ch.sessions[a];
      ch.(sessions := left, pending := false, open := ch.open && !(ch.autoclose && left == map[]))
    else if e.a in ch.sessions then
      match ToSession(ch.mode, e)
      case None => ch
      case Some(te) =>
        ch.(sessions := ch.sessions[e.a := T.Next(ch.cfg, ch.sessions[e.a], te)],
            pending := ch.pending || te.Finalize?)
    else
      match Starts(ch.mode, e)
      case None => ch
      case Some(body) => ch.(sessions := ch.sessions[e.a := T.Start(body)])
  }

  function Emits(ch: Chan, e: Event): seq<Tagged>
    requires Valid(ch)
  {
    if !e.Process? && e.a in ch.sessions && ToSession(ch.mode, e).Some? then
      Tag(e.a, T.Given(ch.cfg, ch.sessions[e.a], ToSession(ch.mode, e).value))
    else []
  }

  /** The result code of a post. */
  function Reply(ch: Chan, e: Event): Code {
    match e
    case PostData(a, _, accepted) =>
      if ch.mode == PerData then
        if a in ch.sessions then EEXIST else if !accepted then EINVAL else Ok
      else if a in ch.sessions then Ok else EEXIST
    case PostConnect(a, fits, parses, accepted) =>
      if ch.mode != Full then ENOENT
      else if !fits then EMSGSIZE
      else if !parses then EINVAL
      else if a in ch.sessions then EEXIST
      else if !accepted then EINVAL
      else Ok
    case PostDisconnect(a) => if a in ch.sessions then Ok else EEXIST
    case PostOther(_, control) => if control then ENOENT else Ok
    case Curl(_, _) => Ok
    case Process => Ok
  }

  function Tag(a: nat, outs: seq<T.Out>): (ts: seq<Tagged>)
    ensures |ts| == |outs| && forall i | 0 <= i < |outs| :: ts[i] == Tagged(a, outs[i])
  {
    seq(|outs|, i requires 0 <= i < |outs| => Tagged(a, outs[i]))
  }

  function Run(ch: Chan, es: seq<Event>): (ch': Chan)
    requires Valid(ch)
    ensures Valid(ch') && ch'.mode == ch.mode && ch'.cfg == ch.cfg && ch'.autoclose == ch.autoclose
    decreases |es|
  {
    if es == [] then ch else Run(Step(ch, es[0]), es[1..])
  }

  function Trace(ch: Chan, es: seq<Event>): seq<Tagged>
    requires Valid(ch)
    decreases |es|
  {
    if es == [] then [] else Emits(ch, es[0]) + Trace(Step(ch, es[0]), es[1..])
  }

  lemma {:induction false} RunAppend(ch: Chan, es: seq<Event>, fs: seq<Event>)
    requires Valid(ch)
    ensures Run(ch, es + fs) == Run(Run(ch, es), fs)
    ensures Trace(ch, es + fs) == Trace(ch, es) + Trace(Run(ch, es), fs)
    decreases |es|
  {
    hide Step, Emits, Valid;
    if es == [] {
      assert es + fs == fs;
    } else {
      var ch' := Step(ch, es[0]);
      RunAppend(ch', es[1..], fs);
      assert (es + fs)[1..] == es[1..] + fs;
      Assoc(Emits(ch, es[0]), Trace(ch', es[1..]), Trace(Run(ch', es[1..]), fs));
    }
  }

  /** A post that is refused changes nothing and gives nothing out; one that starts a session finds its address free. */
  lemma RefusedPostsDoNothing(ch: Chan, e: Event)
    requires Valid(ch) && !e.Process? && !e.Curl?
    ensures Reply(ch, e) != Ok ==> Step(ch, e) == ch && Emits(ch, e) == []
    ensures e.a !in ch.sessions ==>
              (e.a in Step(ch, e).sessions <==> Opens(ch.mode, e)) && (Opens(ch.mode, e) ==> Reply(ch, e) == Ok)
    ensures forall b | b != e.a :: b in ch.sessions <==> b in Step(ch, e).sessions
  {
  }

  /** A pass is pending exactly if there is a session that has ended: none waits in vain, and no pass comes for nothing. */
  ghost predicate PendingIfEnded(ch: Chan) {
    ch.pending <==> exists a :: a in ch.sessions && Ended(ch.sessions[a])
  }

  lemma {:induction false} NoLostReaping(ch: Chan, es: seq<Event>)
    requires Valid(ch) && PendingIfEnded(ch)
    ensures PendingIfEnded(Run(ch, es))
    decreases |es|
  {
    if es != [] {
      StepPending(ch, es[0]);
      hide Step, PendingIfEnded, Valid;
      NoLostReaping(Step(ch, es[0]), es[1..]);
    }
  }

  lemma StepPending(ch: Chan, e: Event)
    requires Valid(ch) && PendingIfEnded(ch)
    ensures PendingIfEnded(Step(ch, e))
  {
    hide T.Next, Ended, ToSession, Starts;
    var ch' := Step(ch, e);
    if !e.Process? && e.a in ch.sessions && ToSession(ch.mode, e).Some? {
      var te := ToSession(ch.mode, e).value;
      EndedStep(ch.cfg, ch.sessions[e.a], te);
      if a :| a in ch.sessions && Ended(ch.sessions[a]) {
        assert a in ch'.sessions && Ended(ch'.sessions[a]);
      }
      assert te.Finalize? ==> Ended(ch'.sessions[e.a]);
    } else if !e.Process? && e.a !in ch.sessions && Starts(ch.mode, e).Some? {
      NotEndedAtStart(Starts(ch.mode, e).value);
      if a :| a in ch.sessions && Ended(ch.sessions[a]) {
        assert a in ch'.sessions && Ended(ch'.sessions[a]);
      }
    }
  }

  /**
   One pass removes exactly the ended sessions, whatever came before it, and an address it frees
   can be used again at once, while before the pass it is refused: in every mode, for every event
   that could start a session.
   */
  lemma ProcessFreesAddresses(ch: Chan, a: nat, start: Event)
    requires Valid(ch) && a in ch.sessions && Opens(ch.mode, start) && start.a == a
    ensures Reply(ch, start) == EEXIST && Step(ch, start) == ch && Emits(ch, start) == []
    ensures var ch' := Step(ch, Process);
            && !ch'.pending
            && (a in ch'.sessions <==> !Ended(ch.sessions[a]))
            && (a in ch'.sessions ==> ch'.sessions[a] == ch.sessions[a])
            && (Ended(ch.sessions[a]) ==>
                  && Reply(ch', start) == Ok
                  && Step(ch', start).sessions == ch'.sessions[a := T.Start(Carried(start))])
  {
  }

  /** With autoclose, and only then, a pass closes the channel, exactly if it leaves no session. */
  lemma AutocloseWhenEmpty(ch: Chan)
    requires Valid(ch)
    ensures Step(ch, Process).open <==>
            ch.open && (ch.autoclose ==> exists a :: a in ch.sessions && !Ended(ch.sessions[a]))
  {
    var ch' := Step(ch, Process);
    if a :| a in ch.sessions && !Ended(ch.sessions[a]) {
      assert a in ch'.sessions;
    } else {
      assert ch'.sessions == map[];
    }
  }

  lemma {:induction false} OnlyPassesClose(ch: Chan, es: seq<Event>)
    requires Valid(ch) && (!ch.autoclose || Process !in es)
    ensures Run(ch, es).open == ch.open
    decreases |es|
  {
    if es != [] {
      assert es[0] in es && forall e | e in es[1..] :: e in es;
      OnlyPassesClose(Step(ch, es[0]), es[1..]);
    }
  }

  // ----- What a post is answered -----

  /** The answer to every post, case by case. */
  lemma Answers(ch: Chan, a: nat, data: Bytes, fits: bool, parses: bool, accepted: bool, control: bool)
    ensures Reply(ch, PostData(a, data, accepted)) == Ok <==>
            if ch.mode == PerData then a !in ch.sessions && accepted else a in ch.sessions
    ensures Reply(ch, PostData(a, data, accepted)) == EEXIST <==>
            if ch.mode == PerData then a in ch.sessions else a !in ch.sessions
    ensures Reply(ch, PostData(a, data, accepted)) in {Ok, EEXIST, EINVAL}
    ensures Reply(ch, PostDisconnect(a)) == if a in ch.sessions then Ok else EEXIST
    ensures var r := Reply(ch, PostConnect(a, fits, parses, accepted));
            && (r == Ok <==> ch.mode == Full && fits && parses && a !in ch.sessions && accepted)
            && (r == ENOENT <==> ch.mode != Full)
            && (r == EMSGSIZE <==> ch.mode == Full && !fits)
            && (r == EEXIST <==> ch.mode == Full && fits && parses && a in ch.sessions)
    ensures Reply(ch, PostOther(a, true)) == ENOENT && Reply(ch, PostOther(a, false)) == Ok
  {
  }

  /** Messages of other types do nothing, whatever they are answered. */
  lemma OtherPostsDoNothing(ch: Chan, a: nat, control: bool)
    requires Valid(ch)
    ensures Step(ch, PostOther(a, control)) == ch && Emits(ch, PostOther(a, control)) == []
  {
  }

  // ----- The life of an address -----

  /** No session, one that runs, one that has ended and waits to be reaped. */
  datatype Life = Free | Busy | Over

  function LifeOf(ch: Chan, a: nat): Life {
    if a !in ch.sessions then Free else if Ended(ch.sessions[a]) then Over else Busy
  }

  /** An address is taken by a start, over at the first end, and free again at the next pass. */
  function LifeStep(mode: Mode, a: nat, l: Life, e: Event): Life {
    match l
    case Free => if Opens(mode, e) && e.a == a then Busy else Free
    case Busy => if EndsAt(a, e) then Over else Busy
    case Over => if e.Process? then Free else Over
  }

  function LifeRun(mode: Mode, a: nat, l: Life, es: seq<Event>): Life
    decreases |es|
  {
    if es == [] then l else LifeRun(mode, a, LifeStep(mode, a, l, es[0]), es[1..])
  }

  lemma LifeOfStep(ch: Chan, a: nat, e: Event)
    requires Valid(ch)
    ensures LifeOf(Step(ch, e), a) == LifeStep(ch.mode, a, LifeOf(ch, a), e)
  {
    hide T.Next, Ended, ToSession, Starts, Opens, EndsAt;
    StartsMeans(ch.mode, e);
    EndsMeans(ch.mode, a, e);
    if e.Process? {
    } else if e.a != a {
      ElsewhereUnchanged(ch, a, e);
      hide Step;
    } else {
      if a !in ch.sessions {
        if Starts(ch.mode, e).Some? {
          NotEndedAtStart(Starts(ch.mode, e).value);
        }
      } else if ToSession(ch.mode, e).Some? {
        EndedStep(ch.cfg, ch.sessions[a], ToSession(ch.mode, e).value);
      }
    }
  }

  lemma ElsewhereUnchanged(ch: Chan, a: nat, e: Event)
    requires Valid(ch) && !e.Process? && e.a != a
    ensures a in Step(ch, e).sessions <==> a in ch.sessions
    ensures a in ch.sessions ==> Step(ch, e).sessions[a] == ch.sessions[a]
  {
    hide T.Next, ToSession, Starts;
  }

  lemma NotEndedAtStart(body: Bytes)
    ensures !Ended(T.Start(body))
  {
  }

  lemma EndedStep(cfg: T.Config, s: T.Session, te: T.Event)
    requires s.roff <= |s.rbuf|
    ensures Ended(T.Next(cfg, s, te)) <==> Ended(s) || te.Finalize?
  {
  }

  lemma {:induction false} LifeOfRun(ch: Chan, a: nat, es: seq<Event>)
    requires Valid(ch)
    ensures LifeOf(Run(ch, es), a) == LifeRun(ch.mode, a, LifeOf(ch, a), es)
    decreases |es|
  {
    if es != [] {
      LifeOfStep(ch, a, es[0]);
      hide Step, Valid, LifeOf, LifeStep;
      LifeOfRun(Step(ch, es[0]), a, es[1..]);
    }
  }

  /**
   Over every run, with whatever happens at other addresses: a start is accepted exactly when the
   life of its address, told by its own events and the passes alone, is free; else it is refused
   and changes nothing.
   */
  lemma AddressIsUsableIffFree(ch: Chan, es: seq<Event>, a: nat, start: Event)
    requires Valid(ch) && Opens(ch.mode, start) && start.a == a
    ensures var end := Run(ch, es);
            if LifeRun(ch.mode, a, LifeOf(ch, a), es) == Free then
              && Reply(end, start) == Ok
              && Step(end, start) == end.(sessions := end.sessions[a := T.Start(Carried(start))])
            else
              Reply(end, start) == EEXIST && Step(end, start) == end
  {
    LifeOfRun(ch, a, es);
  }

  // ----- Sessions do not affect one another -----

  function Only(a: nat, m: map<nat, T.Session>): map<nat, T.Session> {
    map k | k in m && k == a :: m[k]
  }

  /** The events that concern one address: its own, and the reaping passes. */
  function Concerns(a: nat, es: seq<Event>): seq<Event> {
    if es == [] then []
    else (if es[0].Process? || es[0].a == a then [es[0]] else []) + Concerns(a, es[1..])
  }

  /** What was given out for one address. */
  function For(a: nat, ts: seq<Tagged>): seq<T.Out> {
    if ts == [] then []
    else (if ts[0].a == a then [ts[0].out] else []) + For(a, ts[1..])
  }

  lemma {:induction false} ForAppend(a: nat, s: seq<Tagged>, t: seq<Tagged>)
    ensures For(a, s + t) == For(a, s) + For(a, t)
  {
    if s == [] {
      assert s + t == t;
    } else {
      ForAppend(a, s[1..], t);
      assert (s + t)[1..] == s[1..] + t;
      Assoc(if s[0].a == a then [s[0].out] else [], For(a, s[1..]), For(a, t));
    }
  }

  lemma {:induction false} ForTag(a: nat, b: nat, outs: seq<T.Out>)
    ensures For(a, Tag(b, outs)) == if a == b then outs else []
  {
    if outs != [] {
      assert Tag(b, outs)[1..] == Tag(b, outs[1..]);
      ForTag(a, b, outs[1..]);
    }
  }

  /** Two channels that agree at one address. */
  ghost predicate AgreeAt(a: nat, ch: Chan, solo: Chan) {
    && solo.mode == ch.mode && solo.cfg == ch.cfg
    && Only(a, solo.sessions) == Only(a, ch.sessions)
  }

  lemma AgreeAtMeans(a: nat, ch: Chan, solo: Chan)
    ensures AgreeAt(a, ch, solo) <==>
            && solo.mode == ch.mode && solo.cfg == ch.cfg
            && (a in ch.sessions <==> a in solo.sessions)
            && (a in ch.sessions ==> solo.sessions[a] == ch.sessions[a])
  {
    assert a in Only(a, ch.sessions) <==> a in ch.sessions;
    assert a in Only(a, solo.sessions) <==> a in solo.sessions;
  }

  lemma OwnStep(a: nat, ch: Chan, solo: Chan, e: Event)
    requires Valid(ch) && Valid(solo) && AgreeAt(a, ch, solo) && (e.Process? || e.a == a)
    ensures AgreeAt(a, Step(ch, e), Step(solo, e)) && Emits(ch, e) == Emits(solo, e)
  {
    hide AgreeAt, T.Next, T.Given, ToSession, Starts;
    AgreeAtMeans(a, ch, solo);
    AgreeAtMeans(a, Step(ch, e), Step(solo, e));
  }

  lemma ForeignStep(a: nat, ch: Chan, solo: Chan, e: Event)
    requires Valid(ch) && AgreeAt(a, ch, solo) && !e.Process? && e.a != a
    ensures AgreeAt(a, Step(ch, e), solo) && For(a, Emits(ch, e)) == []
  {
    hide AgreeAt, T.Next, T.Given, ToSession, Starts;
    AgreeAtMeans(a, ch, solo);
    AgreeAtMeans(a, Step(ch, e), solo);
    if e.a in ch.sessions && ToSession(ch.mode, e).Some? {
      ForTag(a, e.a, T.Given(ch.cfg, ch.sessions[e.a], ToSession(ch.mode, e).value));
    }
  }

  /**
   Isolation: what happens at an address, and what is given out for it, is what would happen if the
   events of all other addresses were struck from the run and no other session existed.
   */
  lemma {:induction false} Isolation(a: nat, ch: Chan, solo: Chan, es: seq<Event>)
    requires Valid(ch) && Valid(solo) && AgreeAt(a, ch, solo)
    ensures AgreeAt(a, Run(ch, es), Run(solo, Concerns(a, es)))
    ensures For(a, Trace(ch, es)) == For(a, Trace(solo, Concerns(a, es)))
    decreases |es|
  {
    if es != [] {
      var e, rest := es[0], Concerns(a, es[1..]);
      var ch' := Step(ch, e);
      ForAppend(a, Emits(ch, e), Trace(ch', es[1..]));
      if e.Process? || e.a == a {
        OwnStep(a, ch, solo, e);
        hide Step, Emits, Valid, AgreeAt, For;
        Isolation(a, ch', Step(solo, e), es[1..]);
        assert Concerns(a, es)[1..] == rest;
        ForAppend(a, Emits(solo, e), Trace(Step(solo, e), rest));
      } else {
        ForeignStep(a, ch, solo, e);
        hide Step, Emits, Valid, AgreeAt, For;
        Isolation(a, ch', solo, es[1..]);
        assert Concerns(a, es) == rest;
      }
    }
  }

  // ----- A session is a transfer -----

  function Own(mode: Mode, a: nat, e: Event): seq<T.Event> {
    if !e.Process? && e.a == a && ToSession(mode, e).Some? then [ToSession(mode, e).value] else []
  }

  /** The events of one session among those of the channel. */
  function Project(mode: Mode, a: nat, es: seq<Event>): seq<T.Event> {
    if es == [] then [] else Own(mode, a, es[0]) + Project(mode, a, es[1..])
  }

  lemma SessionStep(ch: Chan, a: nat, e: Event)
    requires Valid(ch) && a in ch.sessions && ch.sessions[a].state != T.Error
    requires !(e.Process? && ch.sessions[a].state == T.Closing)
    ensures var ch' := Step(ch, e); var s := ch.sessions[a];
            && a in ch'.sessions
            && ch'.sessions[a] == T.After(ch.cfg, s, Own(ch.mode, a, e))
            && For(a, Emits(ch, e)) == T.Outs(ch.cfg, s, Own(ch.mode, a, e))
            && ch'.sessions[a].state != T.Error
            && (ch'.sessions[a].state == T.Closing <==>
                  s.state == T.Closing || EndsAt(a, e))
  {
    hide T.Next, T.Given, T.Outs, T.After, ToSession, Starts, For, EndsAt;
    var s := ch.sessions[a];
    ForTag(a, a, []);
    T.RunNone(ch.cfg, s);
    EndsMeans(ch.mode, a, e);
    if !e.Process? && e.a == a && ToSession(ch.mode, e).Some? {
      T.NextState(ch.cfg, s, ToSession(ch.mode, e).value);
      T.RunOne(ch.cfg, s, ToSession(ch.mode, e).value);
      ForTag(a, a, T.Given(ch.cfg, s, ToSession(ch.mode, e).value));
    } else if !e.Process? && e.a != a {
      ElsewhereUnchanged(ch, a, e);
      NothingForOthers(ch, a, e);
      hide Step, Emits;
    }
  }

  lemma NothingForOthers(ch: Chan, a: nat, e: Event)
    requires Valid(ch) && !e.Process? && e.a != a
    ensures For(a, Emits(ch, e)) == []
  {
    hide T.Given, ToSession, For;
    ForTag(a, a, []);
    if e.a in ch.sessions && ToSession(ch.mode, e).Some? {
      ForTag(a, e.a, T.Given(ch.cfg, ch.sessions[e.a], ToSession(ch.mode, e).value));
    }
  }

  /** While it lives, a session among many is the transfer of its own events. */
  lemma {:induction false} SessionIsATransfer(ch: Chan, a: nat, es: seq<Event>)
    requires Valid(ch) && a in ch.sessions && ch.sessions[a].state != T.Error
    requires NotReaped(a, es, ch.sessions[a].state == T.Closing)
    ensures a in Run(ch, es).sessions
    ensures Run(ch, es).sessions[a] == T.After(ch.cfg, ch.sessions[a], Project(ch.mode, a, es))
    ensures For(a, Trace(ch, es)) == T.Outs(ch.cfg, ch.sessions[a], Project(ch.mode, a, es))
    decreases |es|
  {
    if es != [] {
      SessionStep(ch, a, es[0]);
      hide Step, Emits, Valid, For, Own;
      var own := Own(ch.mode, a, es[0]);
      SessionIsATransfer(Step(ch, es[0]), a, es[1..]);
      ForAppend(a, Emits(ch, es[0]), Trace(Step(ch, es[0]), es[1..]));
      T.RunAppend(ch.cfg, ch.sessions[a], own, Project(ch.mode, a, es[1..]));
    }
  }

  /** There is a session at the address all along the run. */
  ghost predicate Kept(ch: Chan, a: nat, es: seq<Event>)
    requires Valid(ch)
  {
    forall n | 0 <= n <= |es| :: a in Run(ch, es[..n]).sessions
  }

  lemma KeptNow(ch: Chan, a: nat, es: seq<Event>)
    requires Valid(ch)
    ensures Kept(ch, a, es) ==> a in ch.sessions
    ensures es == [] && a in ch.sessions ==> Kept(ch, a, es)
  {
    assert es[..0] == [];
    assert Kept(ch, a, es) ==> a in Run(ch, es[..0]).sessions;
  }

  lemma RunCons(ch: Chan, es: seq<Event>, n: nat)
    requires Valid(ch) && n < |es|
    ensures Run(ch, es[..n + 1]) == Run(Step(ch, es[0]), es[1..][..n])
  {
    assert es[..n + 1][1..] == es[1..][..n];
  }

  lemma KeptCons(ch: Chan, a: nat, es: seq<Event>)
    requires Valid(ch) && es != []
    ensures Kept(ch, a, es) <==> a in ch.sessions && Kept(Step(ch, es[0]), a, es[1..])
  {
    hide Step, Valid, Run;
    var ch', rest := Step(ch, es[0]), es[1..];
    KeptNow(ch, a, es);
    if Kept(ch, a, es) {
      forall n | 0 <= n <= |rest|
        ensures a in Run(ch', rest[..n]).sessions
      {
        RunCons(ch, es, n);
        assert a in Run(ch, es[..n + 1]).sessions;
      }
    }
    if a in ch.sessions && Kept(ch', a, rest) {
      KeptNow(ch, a, []);
      forall n | 0 <= n <= |es|
        ensures a in Run(ch, es[..n]).sessions
      {
        if n > 0 {
          RunCons(ch, es, n - 1);
          assert a in Run(ch', rest[..n - 1]).sessions;
        } else {
          assert es[..0] == [][..0];
        }
      }
    }
  }

  /** `NotReaped` says exactly that. */
  lemma {:induction false} NotReapedIsKept(ch: Chan, a: nat, es: seq<Event>)
    requires Valid(ch) && a in ch.sessions && ch.sessions[a].state != T.Error
    ensures NotReaped(a, es, ch.sessions[a].state == T.Closing) <==> Kept(ch, a, es)
    decreases |es|
  {
    hide Kept, Own;
    if es == [] {
      KeptNow(ch, a, es);
    } else {
      var e, ch' := es[0], Step(ch, es[0]);
      KeptCons(ch, a, es);
      KeptNow(ch', a, es[1..]);
      if !(e.Process? && ch.sessions[a].state == T.Closing) {
        SessionStep(ch, a, e);
        NotReapedIsKept(ch', a, es[1..]);
      }
    }
  }

  /**
   From its start to its reaping a session holds its address: every start there is refused, and after
   the first pass that follows its end, and not before, a start is accepted.
   */
  lemma AddressIsHeldUntilReaped(ch: Chan, a: nat, es: seq<Event>, again: Event)
    requires Valid(ch) && a in ch.sessions && (ch.sessions[a].state == T.Opening || ch.sessions[a].state == T.Active)
    requires NotReaped(a, es, false) && Opens(ch.mode, again) && again.a == a
    ensures Reply(Run(ch, es), again) == EEXIST && Step(Run(ch, es), again) == Run(ch, es)
    ensures Reply(Run(ch, es + [Process]), again) == if Going(a, es) then EEXIST else Ok
  {
    var end := Run(ch, es);
    SessionIsATransfer(ch, a, es);
    T.StatesMoveForward(ch.cfg, ch.sessions[a], Project(ch.mode, a, es));
    ProjectedEnds(ch.mode, a, es);
    RunAppend(ch, es, [Process]);
    assert Run(end, [Process]) == Step(end, Process) by {
      assert [Process][1..] == [];
    }
    hide Run, Trace, Project, NotReaped, Step, Reply, Opens, Going;
    ProcessFreesAddresses(end, a, again);
    StillRefused(Step(end, Process), a, again);
  }

  lemma StillRefused(ch: Chan, a: nat, start: Event)
    requires Valid(ch) && Opens(ch.mode, start) && start.a == a
    ensures a in ch.sessions ==> Reply(ch, start) == EEXIST
  {
  }

  lemma OwnEnds(mode: Mode, a: nat, e: Event, rest: seq<T.Event>)
    ensures T.Finalizes(Own(mode, a, e) + rest) == (if EndsAt(a, e) then 1 else 0) + T.Finalizes(rest)
  {
    var own := Own(mode, a, e);
    EndsMeans(mode, a, e);
    if own == [] {
      assert own + rest == rest;
    } else {
      assert (own + rest)[1..] == rest;
    }
  }

  lemma {:induction false} ProjectedEnds(mode: Mode, a: nat, es: seq<Event>)
    ensures T.Finalizes(Project(mode, a, es)) == EndCount(a, es)
    ensures Going(a, es) <==> EndCount(a, es) == 0
    ensures Going(a, es) <==> T.Running(Project(mode, a, es))
  {
    T.RunningCounts(Project(mode, a, es));
    if es != [] {
      hide T.Finalizes, T.Running, Own, EndsAt;
      ProjectedEnds(mode, a, es[1..]);
      OwnEnds(mode, a, es[0], Project(mode, a, es[1..]));
      assert es[0] in es && forall e | e in es :: e == es[0] || e in es[1..];
      assert forall e | e in es[1..] :: e in es;
    }
  }

  /** Everything posted to an address. */
  function Posted(a: nat, es: seq<Event>): Bytes {
    if es == [] then []
    else (if es[0].PostData? && es[0].a == a then es[0].data else []) + Posted(a, es[1..])
  }

  /** All body data curl has passed on for an address. */
  function Bodies(a: nat, es: seq<Event>): Bytes {
    if es == [] then []
    else
      (if es[0].Curl? && es[0].a == a && es[0].cb.Body? then es[0].cb.data else []) + Bodies(a, es[1..])
  }

  lemma OwnData(mode: Mode, a: nat, e: Event, rest: seq<T.Event>)
    ensures T.Fed(Own(mode, a, e) + rest) ==
            (if e.PostData? && e.a == a && mode != PerData then e.data else []) + T.Fed(rest)
    ensures T.Received(Own(mode, a, e) + rest) ==
            (if e.Curl? && e.a == a && e.cb.Body? then e.cb.data else []) + T.Received(rest)
  {
    var own := Own(mode, a, e);
    if own == [] {
      assert own + rest == rest;
    } else {
      assert (own + rest)[1..] == rest;
    }
  }

  lemma {:induction false} ProjectedData(mode: Mode, a: nat, es: seq<Event>)
    ensures T.Fed(Project(mode, a, es)) == if mode == PerData then [] else Posted(a, es)
    ensures T.Received(Project(mode, a, es)) == Bodies(a, es)
  {
    if es != [] {
      hide T.Fed, T.Received, Own;
      ProjectedData(mode, a, es[1..]);
      OwnData(mode, a, es[0], Project(mode, a, es[1..]));
    } else {
      assert T.Fed([]) == [] && T.Received([]) == [];
    }
  }

  lemma {:induction false} ProjectAppend(mode: Mode, a: nat, es: seq<Event>, fs: seq<Event>)
    ensures Project(mode, a, es + fs) == Project(mode, a, es) + Project(mode, a, fs)
  {
    hide Own;
    if es == [] {
      assert es + fs == fs;
    } else {
      ProjectAppend(mode, a, es[1..], fs);
      assert (es + fs)[1..] == es[1..] + fs;
      Assoc(Own(mode, a, es[0]), Project(mode, a, es[1..]), Project(mode, a, fs));
    }
  }

  lemma ProjectCons(mode: Mode, a: nat, e: Event, rest: seq<Event>)
    ensures Project(mode, a, [e] + rest) == Own(mode, a, e) + Project(mode, a, rest)
  {
    assert ([e] + rest)[1..] == rest;
  }

  lemma NotReapedCons(a: nat, e: Event, rest: seq<Event>, ended: bool)
    ensures NotReaped(a, [e] + rest, ended) <==>
            !(e.Process? && ended) && NotReaped(a, rest, ended || EndsAt(a, e))
  {
    assert ([e] + rest)[1..] == rest;
  }

  lemma {:induction false} NotReapedAppend(a: nat, es: seq<Event>, fs: seq<Event>, ended: bool)
    requires NotReaped(a, es, ended) && NotReaped(a, fs, ended || !Going(a, es))
    ensures NotReaped(a, es + fs, ended)
  {
    hide NotReaped, EndsAt;
    if es == [] {
      assert es + fs == fs;
    } else {
      var e, rest := es[0], es[1..];
      assert es == [e] + rest && es + fs == [e] + (rest + fs);
      assert forall f | f in es :: f == e || f in rest;
      assert e in es && forall f | f in rest :: f in es;
      NotReapedCons(a, e, rest, ended);
      NotReapedCons(a, e, rest + fs, ended);
      NotReapedAppend(a, rest, fs, ended || EndsAt(a, e));
    }
  }

  lemma {:induction false} GoingIsNotReaped(a: nat, es: seq<Event>)
    requires Going(a, es)
    ensures NotReaped(a, es, false)
  {
    if es != [] {
      assert es[0] in es && forall e | e in es[1..] :: e in es;
      GoingIsNotReaped(a, es[1..]);
    }
  }

  /**
   Uploads: however posts and reads of many sessions interleave, curl has been given for a session
   the first bytes of its body and of what was posted to its address since it started, in order. In
   single mode the session is the one the channel opens with, otherwise one that a post started.
   */
  lemma UploadIsolation(ch: Chan, a: nat, body: Bytes, es: seq<Event>)
    requires Valid(ch) && a in ch.sessions && ch.sessions[a] == T.Start(body)
    requires NotReaped(a, es, false)
    ensures var end := Run(ch, es);
            var all := body + (if ch.mode == PerData then [] else Posted(a, es));
            && a in end.sessions
            && end.sessions[a].rbuf == all
            && end.sessions[a].roff <= |all|
            && T.Uploaded(For(a, Trace(ch, es))) == all[..end.sessions[a].roff]
  {
    var s := T.Start(body);
    var own := Project(ch.mode, a, es);
    SessionIsATransfer(ch, a, es);
    ProjectedData(ch.mode, a, es);
    T.UploadConservation(ch.cfg, s, own);
    hide T.After, T.Outs, T.Uploaded, Run, Trace;
    assert s.rbuf[..0] + T.Uploaded(T.Outs(ch.cfg, s, own)) == T.Uploaded(T.Outs(ch.cfg, s, own));
  }

  /**
   The same from the post that starts a session, told by the posts alone: a data post uploads its
   message, a Connect message what is posted afterwards.
   */
  lemma StartedUpload(ch: Chan, a: nat, start: Event, es: seq<Event>)
    requires Valid(ch) && (start.PostData? || start.PostConnect?) && start.a == a
    requires Reply(ch, start) == Ok && (start.PostData? ==> ch.mode == PerData) && NotReaped(a, es, false)
    ensures a !in ch.sessions
    ensures var end := Run(ch, [start] + es);
            var all := if start.PostData? then start.data else Posted(a, es);
            && a in end.sessions
            && end.sessions[a].rbuf == all
            && end.sessions[a].roff <= |all|
            && T.Uploaded(For(a, Trace(ch, [start] + es))) == all[..end.sessions[a].roff]
  {
    StartedFresh(ch, a, start);
    var body := Carried(start);
    FirstStep(ch, start, es);
    UploadIsolation(Step(ch, start), a, body, es);
    assert start.PostData? ==> body + [] == body;
    assert start.PostConnect? ==> body + Posted(a, es) == Posted(a, es);
  }

  /** An accepted post that starts a session leaves a fresh one at its address, and the others as they were. */
  lemma StartedFresh(ch: Chan, a: nat, start: Event)
    requires Valid(ch) && (start.PostData? || start.PostConnect?) && start.a == a
    requires Reply(ch, start) == Ok && (start.PostData? ==> ch.mode == PerData)
    ensures a !in ch.sessions && Opens(ch.mode, start)
    ensures var ch' := Step(ch, start); var body := if start.PostData? then start.data else [];
            && a in ch'.sessions
            && ch'.sessions[a] == T.Session(T.Opening, [], body, 0, map[])
            && ch'.sessions - {a} == ch.sessions && ch'.pending == ch.pending
            && Emits(ch, start) == []
  {
  }

  /**
   Deliveries, to the first end of a session and until it is reaped, whatever else the channel was
   doing: the data messages of its address add up to the body data curl passed on for it, followed
   by the last, partial message again for every end after the first.
   */
  lemma DeliveryUntilReaped(ch: Chan, a: nat, body: Bytes, pre: seq<Event>, end: Event, post: seq<Event>)
    requires Valid(ch) && a in ch.sessions && ch.sessions[a] == T.Start(body)
    requires Going(a, pre) && EndsAt(a, end) && NotReaped(a, post, true)
    ensures a in Run(ch, pre).sessions
    ensures var rest := Run(ch, pre).sessions[a].wbuf; var again := EndCount(a, post);
            && T.Body(For(a, Trace(ch, pre + [end] + post))) == Bodies(a, pre) + T.Times(rest, again)
            && (T.Body(For(a, Trace(ch, pre + [end] + post))) == Bodies(a, pre) <==> again == 0 || rest == [])
  {
    var mode, all := ch.mode, pre + [end] + post;
    EndsMeans(mode, a, end);
    var own, last, more := Project(mode, a, pre), ToSession(mode, end).value, Project(mode, a, post);
    OneEnd(mode, a, pre, end, post);
    hide T.Outs, T.After, T.Body, T.Received, Run, Trace, NotReaped, Project, For, Bodies, Going, EndCount, EndsAt;
    ProjectedEnds(mode, a, pre);
    ProjectedEnds(mode, a, post);
    SessionIsATransfer(ch, a, pre);
    SessionIsATransfer(ch, a, all);
    ProjectedData(mode, a, pre);
    T.WholeTransfer(ch.cfg, body, own, last, more);
    T.ExactTransfer(ch.cfg, body, own, last, more);
  }

  lemma OneEnd(mode: Mode, a: nat, pre: seq<Event>, end: Event, post: seq<Event>)
    requires Going(a, pre) && EndsAt(a, end) && NotReaped(a, post, true)
    ensures NotReaped(a, pre, false) && NotReaped(a, pre + [end] + post, false)
    ensures ToSession(mode, end).Some?
    ensures Project(mode, a, pre + [end] + post) ==
            Project(mode, a, pre) + [ToSession(mode, end).value] + Project(mode, a, post)
  {
    var tail := [end] + post;
    EndsMeans(mode, a, end);
    assert tail[1..] == post && pre + tail == pre + [end] + post;
    assert Own(mode, a, end) == [ToSession(mode, end).value];
    GoingIsNotReaped(a, pre);
    NotReapedAppend(a, pre, tail, false);
    ProjectAppend(mode, a, pre, tail);
    Assoc(Project(mode, a, pre), [ToSession(mode, end).value], Project(mode, a, post));
  }

  /** So when curl reports a transfer done that nobody ended before, nothing is lost and nothing doubled. */
  lemma DeliveryIsolation(ch: Chan, a: nat, body: Bytes, es: seq<Event>, code: int)
    requires Valid(ch) && a in ch.sessions && ch.sessions[a] == T.Start(body) && Going(a, es)
    ensures T.Body(For(a, Trace(ch, es + [Curl(a, Done(code))]))) == Bodies(a, es)
  {
    var end := Curl(a, Done(code));
    assert es + [end] + [] == es + [end];
    DeliveryUntilReaped(ch, a, body, es, end, []);
  }

  lemma StartedDelivery(ch: Chan, a: nat, start: Event, es: seq<Event>, code: int)
    requires Valid(ch) && (start.PostData? || start.PostConnect?) && start.a == a && Going(a, es)
    requires Reply(ch, start) == Ok && (start.PostData? ==> ch.mode == PerData)
    ensures T.Body(For(a, Trace(ch, [start] + (es + [Curl(a, Done(code))])))) == Bodies(a, es)
  {
    StartedFresh(ch, a, start);
    FirstStep(ch, start, es + [Curl(a, Done(code))]);
    DeliveryIsolation(Step(ch, start), a, Carried(start), es, code);
  }

  lemma FirstStep(ch: Chan, start: Event, es: seq<Event>)
    requires Valid(ch) && !start.Process? && start.a !in ch.sessions
    ensures Run(ch, [start] + es) == Run(Step(ch, start), es)
    ensures Trace(ch, [start] + es) == Trace(Step(ch, start), es)
  {
    assert ([start] + es)[1..] == es;
    assert [] + Trace(Step(ch, start), es) == Trace(Step(ch, start), es);
  }

  /** The user ends a session and curl then reports it done, with no pass in between. */
  function Twice(b: Byte, code: int): seq<Event> {
    [Curl(0, Body([b]))] + ([PostDisconnect(0)] + ([Curl(0, Done(code))] + []))
  }

  lemma TwiceProjected(b: Byte, code: int)
    ensures Project(Single, 0, Twice(b, code)) == [T.Write([b]), T.Finalize(0, true), T.Finalize(code, false)]
    ensures NotReaped(0, Twice(b, code), false)
  {
    var first, middle, last := Curl(0, Body([b])), PostDisconnect(0), Curl(0, Done(code));
    assert Project(Single, 0, []) == [] && NotReaped(0, [], true);
    hide Project, NotReaped;
    ProjectCons(Single, 0, first, [middle] + ([last] + []));
    ProjectCons(Single, 0, middle, [last] + []);
    ProjectCons(Single, 0, last, []);
    NotReapedCons(0, first, [middle] + ([last] + []), false);
    NotReapedCons(0, middle, [last] + [], false);
    NotReapedCons(0, last, [], true);
  }

  /** Of the one byte received in such a run, the user of a single-mode channel is given two. */
  lemma EndedByUserAndCurl(b: Byte, code: int)
    ensures var ch := Chan(Single, T.Config(false, 10), false, map[0 := T.Start([])], false, true);
            && Bodies(0, Twice(b, code)) == [b]
            && T.Body(For(0, Trace(ch, Twice(b, code)))) == [b, b]
  {
    hide Trace, For, Bodies, NotReaped, Project, Twice, T.Outs, T.Body, T.Received;
    var ch := Chan(Single, T.Config(false, 10), false, map[0 := T.Start([])], false, true);
    TwiceProjected(b, code);
    ProjectedData(Single, 0, Twice(b, code));
    SessionIsATransfer(ch, 0, Twice(b, code));
    T.EndedTwice(b, code);
  }
}
