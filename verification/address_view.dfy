/**
 What the user and curl see at one address of the client channel, told by the events of the channel:
 the response with its headers, the data, the reports, and the upload that curl is handed.
 */
module AddressView {
  import opened Common
  import opened Headers
  import opened Multiplex
  import T = Transfer

  /** The codes of the reports, in order. */
  function Codes(outs: seq<T.Out>): seq<int> {
    if outs == [] then [] else (if outs[0].Disconnect? then [outs[0].code] else []) + Codes(outs[1..])
  }

  lemma {:induction false} CodesAppend(s: seq<T.Out>, t: seq<T.Out>)
    ensures Codes(s + t) == Codes(s) + Codes(t)
  {
    if s == [] {
      assert s + t == t;
    } else {
      CodesAppend(s[1..], t);
      assert (s + t)[1..] == s[1..] + t;
      Assoc(if s[0].Disconnect? then [s[0].code] else [], Codes(s[1..]), Codes(t));
    }
  }

  lemma {:induction false} NoCodes(outs: seq<T.Out>)
    requires forall o | o in outs :: !o.Disconnect?
    ensures Codes(outs) == []
  {
    if outs != [] {
      assert outs[0] in outs && forall o | o in outs[1..] :: o in outs;
      NoCodes(outs[1..]);
    }
  }

  /** The codes with which curl has reported transfers of an address done. */
  function DoneCodes(a: nat, es: seq<Event>): seq<int> {
    if es == [] then []
    else (if es[0].Curl? && es[0].a == a && es[0].cb.Done? then [es[0].cb.code] else []) + DoneCodes(a, es[1..])
  }

  lemma CodesOfStep(cfg: T.Config, s: T.Session, te: T.Event)
    requires s.roff <= |s.rbuf|
    ensures Codes(T.Given(cfg, s, te)) == if te.Finalize? && !te.skip then [te.code] else []
  {
    hide T.Rechunk;
    if te.Finalize? {
      var flush := if s.wbuf == [] then [] else [T.Data(s.wbuf)];
      NoCodes(flush);
      CodesAppend(flush, if te.skip then [] else [T.Disconnect(te.code)]);
    } else {
      NoCodes(T.Given(cfg, s, te));
    }
  }

  lemma CodesOfOwn(cfg: T.Config, s: T.Session, mode: Mode, a: nat, e: Event)
    requires s.roff <= |s.rbuf|
    ensures Codes(T.Outs(cfg, s, Own(mode, a, e))) ==
            if e.Curl? && e.a == a && e.cb.Done? then [e.cb.code] else []
  {
    var own := Own(mode, a, e);
    T.RunNone(cfg, s);
    if own != [] {
      T.RunOne(cfg, s, own[0]);
      CodesOfStep(cfg, s, own[0]);
    }
    hide T.Outs, T.Given;
  }

  lemma {:induction false} CodesOfProject(cfg: T.Config, s: T.Session, mode: Mode, a: nat, es: seq<Event>)
    requires s.roff <= |s.rbuf|
    ensures Codes(T.Outs(cfg, s, Project(mode, a, es))) == DoneCodes(a, es)
    decreases |es|
  {
    T.RunNone(cfg, s);
    if es != [] {
      hide Own, T.Outs, T.After, Codes;
      var own, rest := Own(mode, a, es[0]), Project(mode, a, es[1..]);
      T.RunAppend(cfg, s, own, rest);
      CodesOfOwn(cfg, s, mode, a, es[0]);
      CodesOfProject(cfg, T.After(cfg, s, own), mode, a, es[1..]);
      CodesAppend(T.Outs(cfg, s, own), T.Outs(cfg, T.After(cfg, s, own), rest));
    }
  }

  /**
   Reports: until a session is reaped, the user gets one Disconnect for each time curl reports the
   transfer done, with curl's code, and none for his own disconnects.
   */
  lemma ReportsAtAddress(ch: Chan, a: nat, es: seq<Event>)
    requires Valid(ch) && a in ch.sessions && ch.sessions[a].state != T.Error
    requires NotReaped(a, es, ch.sessions[a].state == T.Closing)
    ensures Codes(For(a, Trace(ch, es))) == DoneCodes(a, es)
  {
    SessionIsATransfer(ch, a, es);
    CodesOfProject(ch.cfg, ch.sessions[a], ch.mode, a, es);
  }

  /** What the two ends give out: what is left in the buffer, and only from curl's a report. */
  lemma GivenAtEnd(ch: Chan, a: nat, code: int)
    requires Valid(ch) && a in ch.sessions
    ensures var wbuf := ch.sessions[a].wbuf; var rest := if wbuf == [] then [] else [Tagged(a, T.Data(wbuf))];
            && Emits(ch, PostDisconnect(a)) == rest
            && Emits(ch, Curl(a, Done(code))) == rest + [Tagged(a, T.Disconnect(code))]
  {
  }

  /** The header lines curl has passed on for an address. */
  function LinesAt(a: nat, es: seq<Event>): seq<Text> {
    if es == [] then []
    else
      var e := es[|es| - 1];
      LinesAt(a, es[..|es| - 1]) + (if e.Curl? && e.a == a && e.cb.Line? then [e.cb.line] else [])
  }

  predicate BodyAt(a: nat, e: Event) { e.Curl? && e.a == a && e.cb.Body? }

  predicate NoBodyAt(a: nat, es: seq<Event>) { forall e | e in es :: !BodyAt(a, e) }

  lemma OwnLine(mode: Mode, a: nat, e: Event, before: seq<T.Event>)
    ensures T.Lines(before + Own(mode, a, e)) ==
            T.Lines(before) + (if e.Curl? && e.a == a && e.cb.Line? then [e.cb.line] else [])
  {
    var own := Own(mode, a, e);
    if own == [] {
      assert before + own == before;
    } else {
      T.LinesSnoc(before, own[0]);
    }
  }

  lemma ProjectSnoc(mode: Mode, a: nat, es: seq<Event>, e: Event)
    ensures Project(mode, a, es + [e]) == Project(mode, a, es) + Own(mode, a, e)
  {
    ProjectAppend(mode, a, es, [e]);
    ProjectCons(mode, a, e, []);
    assert [e] + [] == [e];
    assert Project(mode, a, []) == [] && Own(mode, a, e) + [] == Own(mode, a, e);
  }

  lemma LinesAtSnoc(a: nat, es: seq<Event>, e: Event)
    ensures LinesAt(a, es + [e]) == LinesAt(a, es) + (if e.Curl? && e.a == a && e.cb.Line? then [e.cb.line] else [])
  {
    assert (es + [e])[..|es|] == es;
  }

  lemma {:induction false} ProjectedLines(mode: Mode, a: nat, es: seq<Event>)
    ensures T.Lines(Project(mode, a, es)) == LinesAt(a, es)
    decreases |es|
  {
    if es == [] {
      assert T.Lines(Project(mode, a, es)) == [];
    } else {
      hide T.Lines, Project, LinesAt, Own;
      var init, e := es[..|es| - 1], es[|es| - 1];
      assert init + [e] == es;
      ProjectedLines(mode, a, init);
      ProjectSnoc(mode, a, init, e);
      LinesAtSnoc(a, init, e);
      OwnLine(mode, a, e, Project(mode, a, init));
    }
  }

  lemma {:induction false} ProjectedQuiet(mode: Mode, a: nat, es: seq<Event>)
    requires NoBodyAt(a, es)
    ensures T.NoWrite(Project(mode, a, es))
  {
    if es != [] {
      assert es[0] in es && forall e | e in es[1..] :: e in es;
      ProjectedQuiet(mode, a, es[1..]);
    }
  }

  /**
   The response: until body data comes for an address its user sees nothing; then one Connect, with the
   fields of the last header block curl had passed on for the address by then, and data messages of at
   least recv-size bytes.
   */
  lemma SeenAtAddress(ch: Chan, a: nat, body: Bytes, quiet: seq<Event>, first: Event, more: seq<Event>)
    requires Valid(ch) && a in ch.sessions && ch.sessions[a] == T.Start(body)
    requires Going(a, quiet) && NoBodyAt(a, quiet) && BodyAt(a, first) && Going(a, more)
    ensures T.Seen(For(a, Trace(ch, quiet))) == []
    ensures var seen := T.Seen(For(a, Trace(ch, quiet + [first] + more)));
            && seen != [] && seen[0] == T.Connect(ParseAll(LinesAt(a, quiet)))
            && forall o | o in seen[1..] :: o.Data? && (!ch.cfg.chunked ==> |o.data| >= ch.cfg.recvSize)
  {
    var mode, all := ch.mode, quiet + [first] + more;
    ProjectedEnds(mode, a, quiet);
    ProjectedEnds(mode, a, more);
    ProjectedLines(mode, a, quiet);
    ProjectedQuiet(mode, a, quiet);
    GoingThrough(a, quiet, first, more);
    ProjectThrough(mode, a, quiet, first, more);
    hide Project, NotReaped, For, Trace, Run, T.Outs, T.After, T.Seen, LinesAt, ParseAll, Going, NoBodyAt;
    SessionIsATransfer(ch, a, quiet);
    SessionIsATransfer(ch, a, all);
    T.TraceOfTransfer(ch.cfg, body, Project(mode, a, quiet), T.Write(first.cb.data), Project(mode, a, more));
  }

  lemma GoingThrough(a: nat, quiet: seq<Event>, first: Event, more: seq<Event>)
    requires Going(a, quiet) && BodyAt(a, first) && Going(a, more)
    ensures NotReaped(a, quiet, false) && NotReaped(a, quiet + [first] + more, false)
  {
    GoingIsNotReaped(a, quiet);
    GoingIsNotReaped(a, quiet + [first] + more);
  }

  lemma ProjectThrough(mode: Mode, a: nat, quiet: seq<Event>, first: Event, more: seq<Event>)
    requires BodyAt(a, first)
    ensures Project(mode, a, quiet + [first] + more) ==
            Project(mode, a, quiet) + [T.Write(first.cb.data)] + Project(mode, a, more)
  {
    assert quiet + [first] + more == quiet + ([first] + more);
    ProjectAppend(mode, a, quiet, [first] + more);
    ProjectCons(mode, a, first, more);
    Assoc(Project(mode, a, quiet), [T.Write(first.cb.data)], Project(mode, a, more));
  }

  /**
   The upload: asked for `size` bytes, the channel hands curl the next ones of the session's body and
   of what was posted to its address, as many as asked for or as there are.
   */
  lemma HandedOnRequest(ch: Chan, a: nat, body: Bytes, es: seq<Event>, size: nat)
    requires Valid(ch) && a in ch.sessions && ch.sessions[a] == T.Start(body) && NotReaped(a, es, false)
    ensures var all := body + (if ch.mode == PerData then [] else Posted(a, es));
            var sent := |T.Uploaded(For(a, Trace(ch, es)))|;
            && sent <= |all|
            && var n := if |all| - sent < size then |all| - sent else size;
               Emits(Run(ch, es), Curl(a, Wants(size))) == [Tagged(a, T.Upload(all[sent..sent + n]))]
  {
    hide Run, Trace, For, Emits, NotReaped, Posted, T.Uploaded;
    UploadIsolation(ch, a, body, es);
    HandedAtOnce(Run(ch, es), a, size);
  }

  lemma HandedAtOnce(ch: Chan, a: nat, size: nat)
    requires Valid(ch) && a in ch.sessions
    ensures var s := ch.sessions[a]; var left := |s.rbuf| - s.roff; var n := if left < size then left else size;
            Emits(ch, Curl(a, Wants(size))) == [Tagged(a, T.Upload(s.rbuf[s.roff..s.roff + n]))]
  {
    var s := ch.sessions[a];
    assert T.Available(s, size) == if |s.rbuf| - s.roff < size then |s.rbuf| - s.roff else size;
  }
}
