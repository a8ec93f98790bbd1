/**
 One transfer: the receive buffer that regroups body data into messages, the upload buffer, the
 header block and the life of the session, from the point where it is handed to curl.
 */
module Transfer {
  import opened Common
  import opened Headers

  datatype State = Closed | Opening | Active | Closing | Error

  datatype Config = Config(chunked: bool, recvSize: nat)

  datatype Session = Session(state: State, wbuf: Bytes, rbuf: Bytes, roff: nat, headers: Fields)

  /** What a session gives out: messages to the user, and upload data to curl. */
  datatype Out =
    | Connect(headers: Fields)
    | Data(data: Bytes)
    | Disconnect(code: int)
    | Upload(data: Bytes)

  /** What happens to a session: curl's callbacks, data posted by the user, and its end. */
  datatype Event =
    | Write(data: Bytes)
    | Read(size: nat)
    | Header(line: Text)
    | Feed(data: Bytes)
    | Finalize(code: int, skip: bool)

  function Start(body: Bytes): Session {
    Session(Opening, [], body, 0, map[])
  }

  /** How received bytes are regrouped: the messages to give out, and what stays buffered. */
  function Rechunk(cfg: Config, wbuf: Bytes, data: Bytes): (seq<Bytes>, Bytes) {
    var all := wbuf + data;
    var size := cfg.recvSize;
    if cfg.chunked || (wbuf == [] && |data| > size) then ([data], wbuf)
    else if |all| < size then ([], all)
    else if |all| >= 2 * size && |all| > size then ([all[..size], all[size..]], [])
    else ([all[..size]], all[size..])
  }

  /** The buffer between calls: never as much as a message. */
  predicate Partial(cfg: Config, wbuf: Bytes) {
    wbuf == [] || (!cfg.chunked && |wbuf| < cfg.recvSize)
  }

  function Messages(parts: seq<Bytes>): (outs: seq<Out>)
    ensures |outs| == |parts| && forall i | 0 <= i < |parts| :: outs[i] == Data(parts[i])
  {
    seq(|parts|, i requires 0 <= i < |parts| => Data(parts[i]))
  }

  function Opened(s: Session): Session {
    if s.state == Opening then s.(state := Active) else s
  }

  function Greeting(s: Session): seq<Out> {
    if s.state == Opening then [Connect(s.headers)] else []
  }

  function Available(s: Session, size: nat): (n: nat)
    requires s.roff <= |s.rbuf|
    ensures s.roff + n <= |s.rbuf| && n <= size
    ensures n < size ==> s.roff + n == |s.rbuf|
  {
    if |s.rbuf| - s.roff <= size then |s.rbuf| - s.roff else size
  }

  function Next(cfg: Config, s: Session, e: Event): (s': Session)
    requires s.roff <= |s.rbuf|
    ensures s'.roff <= |s'.rbuf|
  {
    match e
    case Write(data) =>
      if Opened(s).state == Active then Opened(s).(wbuf := Rechunk(cfg, s.wbuf, data).1) else s
    case Read(size) => s.(roff := s.roff + Available(s, size))
    case Header(line) => s.(headers := Parse(s.headers, line))
    case Feed(data) => s.(rbuf := s.rbuf + data)
    case Finalize(_, _) => s.(state := Closing)
  }

  function Given(cfg: Config, s: Session, e: Event): seq<Out>
    requires s.roff <= |s.rbuf|
  {
    match e
    case Write(data) =>
      if Opened(s).state == Active then Greeting(s) + Messages(Rechunk(cfg, s.wbuf, data).0) else []
    case Read(size) => [Upload(s.rbuf[s.roff..s.roff + Available(s, size)])]
    case Header(_) => []
    case Feed(_) => []
    case Finalize(code, skip) =>
      (if s.wbuf == [] then [] else [Data(s.wbuf)]) + (if skip then [] else [Disconnect(code)])
  }

  function After(cfg: Config, s: Session, es: seq<Event>): (s': Session)
    requires s.roff <= |s.rbuf|
    ensures s'.roff <= |s'.rbuf|
    decreases |es|
  {
    if es == [] then s else After(cfg, Next(cfg, s, es[0]), es[1..])
  }

  function Outs(cfg: Config, s: Session, es: seq<Event>): seq<Out>
    requires s.roff <= |s.rbuf|
    decreases |es|
  {
    if es == [] then [] else Given(cfg, s, es[0]) + Outs(cfg, Next(cfg, s, es[0]), es[1..])
  }

  lemma {:induction false} RunAppend(cfg: Config, s: Session, es: seq<Event>, fs: seq<Event>)
    requires s.roff <= |s.rbuf|
    ensures After(cfg, s, es + fs) == After(cfg, After(cfg, s, es), fs)
    ensures Outs(cfg, s, es + fs) == Outs(cfg, s, es) + Outs(cfg, After(cfg, s, es), fs)
    decreases |es|
  {
    hide Next, Given;
    if es == [] {
      assert es + fs == fs;
    } else {
      var s' := Next(cfg, s, es[0]);
      RunAppend(cfg, s', es[1..], fs);
      assert (es + fs)[1..] == es[1..] + fs;
      Assoc(Given(cfg, s, es[0]), Outs(cfg, s', es[1..]), Outs(cfg, After(cfg, s', es[1..]), fs));
    }
  }

  lemma RunNone(cfg: Config, s: Session)
    requires s.roff <= |s.rbuf|
    ensures After(cfg, s, []) == s && Outs(cfg, s, []) == []
  {
  }

  lemma RunOne(cfg: Config, s: Session, e: Event)
    requires s.roff <= |s.rbuf|
    ensures After(cfg, s, [e]) == Next(cfg, s, e) && Outs(cfg, s, [e]) == Given(cfg, s, e)
  {
    assert [e][1..] == [];
    assert Given(cfg, s, e) + [] == Given(cfg, s, e);
  }

  /** The body bytes handed to the user. */
  function Body(outs: seq<Out>): Bytes {
    if outs == [] then []
    else (if outs[0].Data? then outs[0].data else []) + Body(outs[1..])
  }

  /** The upload bytes handed to curl. */
  function Uploaded(outs: seq<Out>): Bytes {
    if outs == [] then []
    else (if outs[0].Upload? then outs[0].data else []) + Uploaded(outs[1..])
  }

  lemma {:induction false} BodyAppend(a: seq<Out>, b: seq<Out>)
    ensures Body(a + b) == Body(a) + Body(b)
  {
    if a == [] {
      assert a + b == b;
    } else {
      BodyAppend(a[1..], b);
      assert (a + b)[1..] == a[1..] + b;
      Assoc(if a[0].Data? then a[0].data else [], Body(a[1..]), Body(b));
    }
  }

  lemma {:induction false} UploadedAppend(a: seq<Out>, b: seq<Out>)
    ensures Uploaded(a + b) == Uploaded(a) + Uploaded(b)
  {
    if a == [] {
      assert a + b == b;
    } else {
      UploadedAppend(a[1..], b);
      assert (a + b)[1..] == a[1..] + b;
      Assoc(if a[0].Upload? then a[0].data else [], Uploaded(a[1..]), Uploaded(b));
    }
  }

  lemma {:induction false} BodyOfMessages(parts: seq<Bytes>)
    ensures Body(Messages(parts)) == Flatten(parts)
  {
    if parts != [] {
      assert Messages(parts)[1..] == Messages(parts[1..]);
      BodyOfMessages(parts[1..]);
    }
  }

  /** Body data received: the concatenation of the chunks passed to `write`. */
  function Received(es: seq<Event>): Bytes {
    if es == [] then []
    else (if es[0].Write? then es[0].data else []) + Received(es[1..])
  }

  function Fed(es: seq<Event>): Bytes {
    if es == [] then []
    else (if es[0].Feed? then es[0].data else []) + Fed(es[1..])
  }

  predicate Running(es: seq<Event>) { forall e | e in es :: !e.Finalize? }

  /**
   Regrouping loses nothing: at most two messages come of one chunk, none too small; a buffered one
   is given out as soon as it is full. In chunked mode every chunk is a message, and otherwise one that
   is larger than a message and finds the buffer empty.
   */
  lemma RechunkConserves(cfg: Config, wbuf: Bytes, data: Bytes)
    requires Partial(cfg, wbuf)
    ensures var (parts, rest) := Rechunk(cfg, wbuf, data);
            && Flatten(parts) + rest == wbuf + data
            && Partial(cfg, rest)
            && |parts| <= 2
            && (!cfg.chunked ==> forall p | p in parts :: |p| >= cfg.recvSize)
            && (cfg.chunked || (wbuf == [] && |data| > cfg.recvSize) ==> parts == [data])
            && (parts != [] && wbuf != [] ==> |parts[0]| == cfg.recvSize)
  {
    var all := wbuf + data;
    var size := cfg.recvSize;
    var (parts, rest) := Rechunk(cfg, wbuf, data);
    FlattenSmall(parts);
    if cfg.chunked || (wbuf == [] && |data| > size) {
      assert all == data;
    } else if |all| >= size {
      assert all[..size] + all[size..] == all;
    }
  }

  lemma FlattenSmall(parts: seq<Bytes>)
    ensures |parts| == 0 ==> Flatten(parts) == []
    ensures |parts| == 1 ==> Flatten(parts) == parts[0]
    ensures |parts| == 2 ==> Flatten(parts) == parts[0] + parts[1]
  {
    if |parts| == 2 {
      assert Flatten(parts[1..]) == parts[1] + Flatten(parts[1..][1..]);
      assert Flatten(parts[1..][1..]) == [];
      assert parts[1] + [] == parts[1];
    }
  }

  /** Until the transfer ends, what was given out and what is buffered is what was received. */
  lemma {:induction false} ReceiveConservation(cfg: Config, s: Session, es: seq<Event>)
    requires s.roff <= |s.rbuf| && Partial(cfg, s.wbuf) && Running(es)
    requires s.state == Opening || s.state == Active
    ensures Body(Outs(cfg, s, es)) + After(cfg, s, es).wbuf == s.wbuf + Received(es)
    ensures Partial(cfg, After(cfg, s, es).wbuf)
    ensures After(cfg, s, es).state == Opening || After(cfg, s, es).state == Active
    decreases |es|
  {
    if es == [] {
      assert s.wbuf + [] == s.wbuf == [] + s.wbuf;
    } else {
      var s' := Next(cfg, s, es[0]);
      assert es[0] in es && forall e | e in es[1..] :: e in es;
      StepConserves(cfg, s, es[0]);
      ReceiveConservation(cfg, s', es[1..]);
      BodyAppend(Given(cfg, s, es[0]), Outs(cfg, s', es[1..]));
      hide Next, Given, Partial, Body;
      var chunk := if es[0].Write? then es[0].data else [];
      Assoc(Body(Given(cfg, s, es[0])), Body(Outs(cfg, s', es[1..])), After(cfg, s, es).wbuf);
      Assoc(Body(Given(cfg, s, es[0])), s'.wbuf, Received(es[1..]));
      Assoc(s.wbuf, chunk, Received(es[1..]));
    }
  }

  lemma StepConserves(cfg: Config, s: Session, e: Event)
    requires s.roff <= |s.rbuf| && Partial(cfg, s.wbuf) && !e.Finalize?
    requires s.state == Opening || s.state == Active
    ensures var s' := Next(cfg, s, e);
            && Body(Given(cfg, s, e)) + s'.wbuf == s.wbuf + (if e.Write? then e.data else [])
            && Partial(cfg, s'.wbuf)
            && (s'.state == Opening || s'.state == Active)
  {
    if e.Write? {
      var parts := Rechunk(cfg, s.wbuf, e.data).0;
      RechunkConserves(cfg, s.wbuf, e.data);
      BodyOfMessages(parts);
      BodyAppend(Greeting(s), Messages(parts));
      assert Body(Greeting(s)) == [];
      assert [] + Body(Messages(parts)) == Flatten(parts);
    } else {
      assert Body(Given(cfg, s, e)) == [];
    }
  }

  /** What the user sees: upload data goes to curl. */
  function Seen(outs: seq<Out>): seq<Out> {
    if outs == [] then []
    else (if outs[0].Upload? then [] else [outs[0]]) + Seen(outs[1..])
  }

  lemma {:induction false} SeenAppend(a: seq<Out>, b: seq<Out>)
    ensures Seen(a + b) == Seen(a) + Seen(b)
  {
    if a == [] {
      assert a + b == b;
    } else {
      SeenAppend(a[1..], b);
      assert (a + b)[1..] == a[1..] + b;
      Assoc(if a[0].Upload? then [] else [a[0]], Seen(a[1..]), Seen(b));
    }
  }

  function Times(data: Bytes, n: nat): Bytes {
    if n == 0 then [] else data + Times(data, n - 1)
  }

  function Finalizes(es: seq<Event>): nat {
    if es == [] then 0 else (if es[0].Finalize? then 1 else 0) + Finalizes(es[1..])
  }

  /** What the user sees at every end: the rest of the body, and a report unless it is skipped. */
  function Farewells(rest: Bytes, es: seq<Event>): seq<Out> {
    if es == [] then []
    else Farewell(rest, es[0]) + Farewells(rest, es[1..])
  }

  function Farewell(rest: Bytes, e: Event): seq<Out> {
    match e
    case Finalize(code, skip) => (if rest == [] then [] else [Data(rest)]) + (if skip then [] else [Disconnect(code)])
    case _ => []
  }

  /**
   Once it is closing a session shows its buffer, and a report, again at every further end, and
   nothing else whatever happens.
   */
  lemma {:induction false} ClosingRepeats(cfg: Config, s: Session, es: seq<Event>)
    requires s.roff <= |s.rbuf| && s.state == Closing
    ensures Seen(Outs(cfg, s, es)) == Farewells(s.wbuf, es)
    ensures Body(Outs(cfg, s, es)) == Times(s.wbuf, Finalizes(es))
    ensures After(cfg, s, es).state == Closing && After(cfg, s, es).wbuf == s.wbuf
    ensures forall o | o in Outs(cfg, s, es) :: !o.Connect?
    decreases |es|
  {
    if es != [] {
      var s' := Next(cfg, s, es[0]);
      BodyOfFinalize(cfg, s, es[0]);
      SeenAtEnd(cfg, s, es[0]);
      hide Given, Next, Body, Seen, Farewell;
      ClosingRepeats(cfg, s', es[1..]);
      SeenAppend(Given(cfg, s, es[0]), Outs(cfg, s', es[1..]));
      BodyAppend(Given(cfg, s, es[0]), Outs(cfg, s', es[1..]));
    }
  }

  lemma SeenAtEnd(cfg: Config, s: Session, e: Event)
    requires s.roff <= |s.rbuf| && (e.Finalize? || s.state == Closing)
    ensures Seen(Given(cfg, s, e)) == Farewell(s.wbuf, e)
  {
    var given := Given(cfg, s, e);
    if e.Finalize? {
      NothingHidden(given);
    } else if e.Read? {
      assert given[1..] == [];
    }
  }

  lemma {:induction false} NothingHidden(outs: seq<Out>)
    requires forall o | o in outs :: !o.Upload?
    ensures Seen(outs) == outs
  {
    if outs != [] {
      assert outs[0] in outs && forall o | o in outs[1..] :: o in outs;
      NothingHidden(outs[1..]);
    }
  }

  lemma BodyOfFinalize(cfg: Config, s: Session, e: Event)
    requires s.roff <= |s.rbuf| && (e.Finalize? || s.state == Closing)
    ensures Body(Given(cfg, s, e)) == if e.Finalize? then s.wbuf else []
    ensures Next(cfg, s, e).state == Closing && Next(cfg, s, e).wbuf == s.wbuf
    ensures forall o | o in Given(cfg, s, e) :: !o.Connect?
  {
    if e.Finalize? {
      var flush := if s.wbuf == [] then [] else [Data(s.wbuf)];
      var end := if e.skip then [] else [Disconnect(e.code)];
      BodyAppend(flush, end);
      assert Body(end) == [];
      assert Body(flush) == s.wbuf + [] == s.wbuf;
    }
  }

  /**
   A whole transfer, to its first end and beyond: the user is given the received bytes, followed by
   the last, partial message again for every end after the first.
   */
  lemma WholeTransfer(cfg: Config, body: Bytes, pre: seq<Event>, end: Event, post: seq<Event>)
    requires Running(pre) && end.Finalize?
    ensures var rest := After(cfg, Start(body), pre).wbuf;
            Body(Outs(cfg, Start(body), pre + [end] + post)) == Received(pre) + Times(rest, Finalizes(post))
  {
    var s0 := Start(body);
    var s1 := After(cfg, s0, pre);
    var s2 := Next(cfg, s1, end);
    RunAppend(cfg, s0, pre + [end], post);
    RunAppend(cfg, s0, pre, [end]);
    RunOne(cfg, s1, end);
    ReceiveConservation(cfg, s0, pre);
    ClosingRepeats(cfg, s2, post);
    BodyOfFinalize(cfg, s1, end);
    hide Outs, Given, After, Body, Received, Times;
    BodyAppend(Outs(cfg, s0, pre) + Given(cfg, s1, end), Outs(cfg, s2, post));
    BodyAppend(Outs(cfg, s0, pre), Given(cfg, s1, end));
    assert s0.wbuf + Received(pre) == Received(pre);
  }

  /** So nothing is duplicated exactly if the session ends once, or ends with an empty buffer. */
  lemma ExactTransfer(cfg: Config, body: Bytes, pre: seq<Event>, end: Event, post: seq<Event>)
    requires Running(pre) && end.Finalize?
    ensures Body(Outs(cfg, Start(body), pre + [end] + post)) == Received(pre) <==>
            Finalizes(post) == 0 || After(cfg, Start(body), pre).wbuf == []
  {
    var rest := After(cfg, Start(body), pre).wbuf;
    WholeTransfer(cfg, body, pre, end, post);
    TimesLength(rest, Finalizes(post));
    if Times(rest, Finalizes(post)) == [] {
      assert Received(pre) + [] == Received(pre);
    }
  }

  /** The shortest such run: one byte, and two ends before the session is reaped. */
  lemma EndedTwice(b: Byte, code: int)
    ensures var es := [Write([b]), Finalize(0, true), Finalize(code, false)];
            && Received(es) == [b]
            && Body(Outs(Config(false, 10), Start([]), es)) == [b, b]
  {
    var cfg, pre, post := Config(false, 10), [Write([b])], [Finalize(code, false)];
    var es := [Write([b]), Finalize(0, true), Finalize(code, false)];
    assert es == pre + [Finalize(0, true)] + post;
    assert pre[1..] == [] && post[1..] == [];
    assert es[1..] == [Finalize(0, true), Finalize(code, false)] && es[1..][1..] == post;
    RunOne(cfg, Start([]), Write([b]));
    WholeTransfer(cfg, [], pre, Finalize(0, true), post);
    assert Received(post) == [] && Received(es[1..]) == [];
  }

  lemma {:induction false} TimesLength(data: Bytes, n: nat)
    ensures Times(data, n) == [] <==> n == 0 || data == []
  {
    if n > 0 {
      TimesLength(data, n - 1);
    }
  }

  predicate NoWrite(es: seq<Event>) { forall e | e in es :: !e.Write? }

  function Lines(es: seq<Event>): seq<Text> {
    if es == [] then []
    else
      var e := es[|es| - 1];
      Lines(es[..|es| - 1]) + (if e.Header? then [e.line] else [])
  }

  lemma SeenOfMessages(parts: seq<Bytes>)
    ensures Seen(Messages(parts)) == Messages(parts)
  {
    if parts != [] {
      assert Messages(parts)[1..] == Messages(parts[1..]);
      SeenOfMessages(parts[1..]);
    }
  }

  lemma SilentStep(cfg: Config, s: Session, e: Event)
    requires s.roff <= |s.rbuf| && s.state == Opening && s.wbuf == [] && !e.Write? && !e.Finalize?
    ensures var s' := Next(cfg, s, e);
            && s'.state == Opening && s'.wbuf == []
            && s'.headers == if e.Header? then Parse(s.headers, e.line) else s.headers
    ensures Seen(Given(cfg, s, e)) == []
  {
    if e.Read? {
      assert Given(cfg, s, e)[1..] == [];
    }
  }

  lemma ParseSnoc(lines: seq<Text>, line: Text)
    ensures ParseAll(lines + [line]) == Parse(ParseAll(lines), line)
  {
    assert (lines + [line])[..|lines|] == lines;
  }

  lemma LinesSnoc(es: seq<Event>, e: Event)
    ensures Lines(es + [e]) == if e.Header? then Lines(es) + [e.line] else Lines(es)
  {
    assert (es + [e])[..|es|] == es;
  }

  /** Before the first body data nothing is seen, and the header lines are collected. */
  lemma {:induction false} Silent(cfg: Config, body: Bytes, es: seq<Event>)
    requires Running(es) && NoWrite(es)
    ensures var s := After(cfg, Start(body), es);
            s.state == Opening && s.wbuf == [] && s.headers == ParseAll(Lines(es))
    ensures Seen(Outs(cfg, Start(body), es)) == []
    decreases |es|
  {
    if es == [] {
      assert Outs(cfg, Start(body), es) == [];
    } else {
      var init, e := es[..|es| - 1], es[|es| - 1];
      assert e in es && init + [e] == es;
      hide Given, Next, Parse, ParseAll, Outs, After, Lines, Seen;
      LinesSnoc(init, e);
      Silent(cfg, body, init);
      var s := After(cfg, Start(body), init);
      RunAppend(cfg, Start(body), init, [e]);
      RunOne(cfg, s, e);
      SilentStep(cfg, s, e);
      SeenAppend(Outs(cfg, Start(body), init), Given(cfg, s, e));
      if e.Header? {
        ParseSnoc(Lines(init), e.line);
      }
    }
  }

  /** While a transfer is active it gives out data messages only, none smaller than recv-size. */
  lemma {:induction false} ActiveGivesData(cfg: Config, s: Session, es: seq<Event>)
    requires s.roff <= |s.rbuf| && Partial(cfg, s.wbuf) && Running(es) && s.state == Active
    ensures var seen := Seen(Outs(cfg, s, es));
            forall o | o in seen :: o.Data? && (!cfg.chunked ==> |o.data| >= cfg.recvSize)
    decreases |es|
  {
    if es != [] {
      var e, s' := es[0], Next(cfg, s, es[0]);
      assert e in es && forall f | f in es[1..] :: f in es;
      StepConserves(cfg, s, e);
      ActiveGivesData(cfg, s', es[1..]);
      SeenAppend(Given(cfg, s, e), Outs(cfg, s', es[1..]));
      ActiveStep(cfg, s, e);
    }
  }

  lemma ActiveStep(cfg: Config, s: Session, e: Event)
    requires s.roff <= |s.rbuf| && Partial(cfg, s.wbuf) && !e.Finalize? && s.state == Active
    ensures Next(cfg, s, e).state == Active
    ensures forall o | o in Seen(Given(cfg, s, e)) ::
              o.Data? && (!cfg.chunked ==> |o.data| >= cfg.recvSize)
  {
    if e.Write? {
      var parts := Rechunk(cfg, s.wbuf, e.data).0;
      RechunkConserves(cfg, s.wbuf, e.data);
      SeenOfMessages(parts);
      assert Given(cfg, s, e) == Messages(parts);
    } else if e.Read? {
      assert Given(cfg, s, e)[1..] == [];
    }
  }

  /**
   What the user sees of a transfer up to its end: nothing if no body data came; else one Connect,
   with the fields of the last header block before the first body data, and then data messages,
   each of at least recv-size bytes.
   */
  lemma TraceOfTransfer(cfg: Config, body: Bytes, quiet: seq<Event>, first: Event, more: seq<Event>)
    requires Running(quiet) && NoWrite(quiet) && first.Write? && Running(more)
    ensures Seen(Outs(cfg, Start(body), quiet)) == []
    ensures var seen := Seen(Outs(cfg, Start(body), quiet + [first] + more));
            && seen != [] && seen[0] == Connect(ParseAll(Lines(quiet)))
            && forall o | o in seen[1..] :: o.Data? && (!cfg.chunked ==> |o.data| >= cfg.recvSize)
    ensures After(cfg, Start(body), quiet + [first] + more).state == Active
  {
    hide Outs, Given, Next, After, Rechunk, Seen, ParseAll, Partial;
    Silent(cfg, body, quiet);
    var s0 := Start(body);
    var s1 := After(cfg, s0, quiet);
    var s2 := Next(cfg, s1, first);
    var head := Seen(Given(cfg, s1, first));
    FirstWrite(cfg, s1, first);
    RunAppend(cfg, s0, quiet + [first], more);
    RunAppend(cfg, s0, quiet, [first]);
    RunOne(cfg, s1, first);
    SeenAppend(Outs(cfg, s0, quiet) + Given(cfg, s1, first), Outs(cfg, s2, more));
    SeenAppend(Outs(cfg, s0, quiet), Given(cfg, s1, first));
    ActiveGivesData(cfg, s2, more);
    StaysActive(cfg, s2, more);
    assert [] + head == head;
    assert (head + Seen(Outs(cfg, s2, more)))[1..] == head[1..] + Seen(Outs(cfg, s2, more));
  }

  lemma FirstWrite(cfg: Config, s: Session, e: Event)
    requires s.roff <= |s.rbuf| && s.state == Opening && s.wbuf == [] && e.Write?
    ensures Next(cfg, s, e).state == Active && Partial(cfg, Next(cfg, s, e).wbuf)
    ensures var seen := Seen(Given(cfg, s, e));
            && seen != [] && seen[0] == Connect(s.headers)
            && forall o | o in seen[1..] :: o.Data? && (!cfg.chunked ==> |o.data| >= cfg.recvSize)
  {
    var parts := Rechunk(cfg, [], e.data).0;
    RechunkConserves(cfg, [], e.data);
    SeenOfMessages(parts);
    SeenAppend([Connect(s.headers)], Messages(parts));
    assert Seen([Connect(s.headers)]) == [Connect(s.headers)] by {
      assert [Connect(s.headers)][1..] == [];
    }
    assert ([Connect(s.headers)] + Messages(parts))[1..] == Messages(parts);
  }

  lemma {:induction false} StaysActive(cfg: Config, s: Session, es: seq<Event>)
    requires s.roff <= |s.rbuf| && Running(es) && s.state == Active
    ensures After(cfg, s, es).state == Active
    decreases |es|
  {
    if es != [] {
      assert es[0] in es && forall f | f in es[1..] :: f in es;
      StaysActive(cfg, Next(cfg, s, es[0]), es[1..]);
    }
  }

  datatype Kind = Greetings | Contents | Reports | Uploads

  function KindOf(o: Out): Kind {
    match o
    case Connect(_) => Greetings
    case Data(_) => Contents
    case Disconnect(_) => Reports
    case Upload(_) => Uploads
  }

  function Count(outs: seq<Out>, k: Kind): nat {
    if outs == [] then 0 else (if KindOf(outs[0]) == k then 1 else 0) + Count(outs[1..], k)
  }

  lemma {:induction false} CountAppend(a: seq<Out>, b: seq<Out>, k: Kind)
    ensures Count(a + b, k) == Count(a, k) + Count(b, k)
  {
    if a == [] {
      assert a + b == b;
    } else {
      CountAppend(a[1..], b, k);
      assert (a + b)[1..] == a[1..] + b;
    }
  }

  lemma {:induction false} CountNone(outs: seq<Out>, k: Kind)
    requires forall o | o in outs :: KindOf(o) != k
    ensures Count(outs, k) == 0
  {
    if outs != [] {
      assert outs[0] in outs && forall o | o in outs[1..] :: o in outs;
      CountNone(outs[1..], k);
    }
  }

  lemma {:induction false} CountSeen(outs: seq<Out>, k: Kind)
    requires k != Uploads
    ensures Count(Seen(outs), k) == Count(outs, k)
  {
    if outs != [] {
      var head := if outs[0].Upload? then [] else [outs[0]];
      CountSeen(outs[1..], k);
      CountAppend(head, Seen(outs[1..]), k);
      if !outs[0].Upload? {
        assert head[1..] == [];
      }
    }
  }

  lemma {:induction false} FirstWriteIn(es: seq<Event>) returns (i: nat)
    requires !NoWrite(es)
    ensures i < |es| && es[i].Write? && NoWrite(es[..i])
  {
    if es[0].Write? {
      i := 0;
    } else {
      assert forall e | e in es :: e == es[0] || e in es[1..];
      i := FirstWriteIn(es[1..]);
      i := i + 1;
      assert es[..i] == [es[0]] + es[1..][..i - 1];
    }
  }

  lemma RunningConnects(cfg: Config, body: Bytes, pre: seq<Event>)
    requires Running(pre)
    ensures Count(Outs(cfg, Start(body), pre), Greetings) == if NoWrite(pre) then 0 else 1
  {
    CountSeen(Outs(cfg, Start(body), pre), Greetings);
    if NoWrite(pre) {
      Silent(cfg, body, pre);
    } else {
      var i := FirstWriteIn(pre);
      var quiet, more := pre[..i], pre[i + 1..];
      assert pre == quiet + [pre[i]] + more;
      hide Outs, Seen;
      TraceOfTransfer(cfg, body, quiet, pre[i], more);
      CountNone(Seen(Outs(cfg, Start(body), pre))[1..], Greetings);
    }
  }

  /**
   Over its whole life a session announces its response once if some body data came before its
   first end, and never otherwise: a response without a body has no Connect.
   */
  lemma ConnectIffBody(cfg: Config, body: Bytes, pre: seq<Event>, end: Event, post: seq<Event>)
    requires Running(pre) && end.Finalize?
    ensures Count(Outs(cfg, Start(body), pre + [end] + post), Greetings) == if NoWrite(pre) then 0 else 1
  {
    var s0 := Start(body);
    var s1 := After(cfg, s0, pre);
    RunAppend(cfg, s0, pre + [end], post);
    RunAppend(cfg, s0, pre, [end]);
    RunOne(cfg, s1, end);
    RunningConnects(cfg, body, pre);
    BodyOfFinalize(cfg, s1, end);
    ClosingRepeats(cfg, Next(cfg, s1, end), post);
    hide Outs, Given, After, Next, Count;
    CountNone(Given(cfg, s1, end), Greetings);
    CountNone(Outs(cfg, Next(cfg, s1, end), post), Greetings);
    CountAppend(Outs(cfg, s0, pre) + Given(cfg, s1, end), Outs(cfg, Next(cfg, s1, end), post), Greetings);
    CountAppend(Outs(cfg, s0, pre), Given(cfg, s1, end), Greetings);
  }

  /** The ends that are not skipped. */
  function Reported(es: seq<Event>): nat {
    if es == [] then 0 else (if es[0].Finalize? && !es[0].skip then 1 else 0) + Reported(es[1..])
  }

  /** Every end that is not skipped is reported by one Disconnect, and nothing else is. */
  lemma {:induction false} DisconnectPerEnd(cfg: Config, s: Session, es: seq<Event>)
    requires s.roff <= |s.rbuf|
    ensures Count(Outs(cfg, s, es), Reports) == Reported(es)
    decreases |es|
  {
    if es != [] {
      ReportOfEnd(cfg, s, es[0]);
      hide Next, Given, Count;
      DisconnectPerEnd(cfg, Next(cfg, s, es[0]), es[1..]);
      CountAppend(Given(cfg, s, es[0]), Outs(cfg, Next(cfg, s, es[0]), es[1..]), Reports);
    } else {
      assert Outs(cfg, s, es) == [];
    }
  }

  lemma ReportOfEnd(cfg: Config, s: Session, e: Event)
    requires s.roff <= |s.rbuf|
    ensures Count(Given(cfg, s, e), Reports) == if e.Finalize? && !e.skip then 1 else 0
  {
    hide Rechunk;
    if e.Finalize? {
      var flush := if s.wbuf == [] then [] else [Data(s.wbuf)];
      CountNone(flush, Reports);
      CountAppend(flush, if e.skip then [] else [Disconnect(e.code)], Reports);
    } else {
      CountNone(Given(cfg, s, e), Reports);
    }
  }

  /** A whole life as the user sees it: what came before the first end, and a farewell at every end. */
  lemma WholeTrace(cfg: Config, body: Bytes, pre: seq<Event>, end: Event, post: seq<Event>)
    requires Running(pre) && end.Finalize?
    ensures var rest := After(cfg, Start(body), pre).wbuf;
            Seen(Outs(cfg, Start(body), pre + [end] + post)) ==
            Seen(Outs(cfg, Start(body), pre)) + Farewells(rest, [end] + post)
  {
    var s0 := Start(body);
    var s1 := After(cfg, s0, pre);
    var s2 := Next(cfg, s1, end);
    RunAppend(cfg, s0, pre, [end] + post);
    assert pre + [end] + post == pre + ([end] + post);
    assert ([end] + post)[1..] == post;
    SeenAtEnd(cfg, s1, end);
    BodyOfFinalize(cfg, s1, end);
    ClosingRepeats(cfg, s2, post);
    hide Given, Next, After, Seen, Farewell;
    SeenAppend(Outs(cfg, s0, pre), Outs(cfg, s1, [end] + post));
    SeenAppend(Given(cfg, s1, end), Outs(cfg, s2, post));
  }

  /** States only move from Opening to Active to Closing. */
  function Rank(s: State): nat {
    match s
    case Closed => 0
    case Opening => 1
    case Active => 2
    case Closing => 3
    case Error => 4
  }

  lemma {:induction false} RunningCounts(es: seq<Event>)
    ensures Running(es) <==> Finalizes(es) == 0
  {
    if es != [] {
      RunningCounts(es[1..]);
      assert es[0] in es && forall e | e in es :: e == es[0] || e in es[1..];
      assert forall e | e in es[1..] :: e in es;
    }
  }

  lemma NextState(cfg: Config, s: Session, e: Event)
    requires s.roff <= |s.rbuf| && s.state != Error
    ensures Next(cfg, s, e).state != Error
    ensures Next(cfg, s, e).state == Closing <==> s.state == Closing || e.Finalize?
  {
  }

  lemma {:induction false} StatesMoveForward(cfg: Config, s: Session, es: seq<Event>)
    requires s.roff <= |s.rbuf| && s.state != Error
    ensures Rank(s.state) <= Rank(After(cfg, s, es).state) <= 3
    ensures After(cfg, s, es).state == Closing <==> s.state == Closing || Finalizes(es) > 0
    decreases |es|
  {
    if es != [] {
      StatesMoveForward(cfg, Next(cfg, s, es[0]), es[1..]);
    }
  }

  lemma TimesOneMore(n: nat, k: nat)
    ensures (n + 1) * k == n * k + k
  {
  }

  lemma {:induction false} DataIsBig(cfg: Config, s: Session, es: seq<Event>)
    requires s.roff <= |s.rbuf| && Partial(cfg, s.wbuf) && Running(es) && !cfg.chunked
    requires s.state == Opening || s.state == Active
    ensures forall o | o in Outs(cfg, s, es) && o.Data? :: |o.data| >= cfg.recvSize
    decreases |es|
  {
    if es != [] {
      var e := es[0];
      assert e in es && forall f | f in es[1..] :: f in es;
      StepConserves(cfg, s, e);
      DataOfStep(cfg, s, e);
      hide Next, Given, Partial;
      DataIsBig(cfg, Next(cfg, s, e), es[1..]);
    }
  }

  lemma DataOfStep(cfg: Config, s: Session, e: Event)
    requires s.roff <= |s.rbuf| && Partial(cfg, s.wbuf) && !e.Finalize? && !cfg.chunked
    ensures forall o | o in Given(cfg, s, e) && o.Data? :: |o.data| >= cfg.recvSize
  {
    if e.Write? {
      RechunkConserves(cfg, s.wbuf, e.data);
      hide Rechunk, Partial;
      assert forall o | o in Given(cfg, s, e) && o.Data? :: o.data in Rechunk(cfg, s.wbuf, e.data).0;
    }
  }

  /** The number of data messages of at least L bytes is bounded by their bytes. */
  lemma {:induction false} BigDataIsBounded(outs: seq<Out>, size: nat)
    requires forall o | o in outs && o.Data? :: |o.data| >= size
    ensures Count(outs, Contents) * size <= |Body(outs)|
  {
    if outs != [] {
      assert outs[0] in outs && forall o | o in outs[1..] :: o in outs;
      BigDataIsBounded(outs[1..], size);
      TimesOneMore(Count(outs[1..], Contents), size);
    }
  }

  /**
   With recv-size L, k data messages before the end take k times L of the bytes received, and what
   is buffered comes on top; whether or not the session has begun to answer.
   */
  lemma MessageCount(cfg: Config, s: Session, es: seq<Event>)
    requires s.roff <= |s.rbuf| && Partial(cfg, s.wbuf) && Running(es) && !cfg.chunked
    requires s.state == Opening || s.state == Active
    ensures Count(Outs(cfg, s, es), Contents) * cfg.recvSize + |After(cfg, s, es).wbuf| <= |s.wbuf| + |Received(es)|
  {
    DataIsBig(cfg, s, es);
    BigDataIsBounded(Outs(cfg, s, es), cfg.recvSize);
    ReceiveConservation(cfg, s, es);
    hide *;
    assert |Body(Outs(cfg, s, es)) + After(cfg, s, es).wbuf| == |s.wbuf + Received(es)|;
  }

  lemma AllButOneIsData(cfg: Config, body: Bytes, es: seq<Event>)
    requires Running(es)
    ensures var outs := Outs(cfg, Start(body), es);
            |Seen(outs)| == Count(outs, Contents) + if NoWrite(es) then 0 else 1
  {
    var outs := Outs(cfg, Start(body), es);
    CountSeen(outs, Contents);
    if NoWrite(es) {
      Silent(cfg, body, es);
    } else {
      var i := FirstWriteIn(es);
      assert es == es[..i] + [es[i]] + es[i + 1..];
      hide Outs, Seen, ParseAll;
      TraceOfTransfer(cfg, body, es[..i], es[i], es[i + 1..]);
      CountAll(Seen(outs)[1..], Contents);
    }
  }

  /** In particular from the start of a transfer: all that is seen but the one Connect counts. */
  lemma SeenCount(cfg: Config, body: Bytes, es: seq<Event>)
    requires Running(es) && !cfg.chunked
    ensures var announced := if NoWrite(es) then 0 else 1;
            (|Seen(Outs(cfg, Start(body), es))| - announced) * cfg.recvSize <= |Received(es)|
  {
    MessageCount(cfg, Start(body), es);
    AllButOneIsData(cfg, body, es);
  }

  lemma {:induction false} CountAll(outs: seq<Out>, k: Kind)
    requires forall o | o in outs :: KindOf(o) == k
    ensures Count(outs, k) == |outs|
  {
    if outs != [] {
      assert outs[0] in outs && forall o | o in outs[1..] :: o in outs;
      CountAll(outs[1..], k);
    }
  }

  /** The upload: curl has been given the first `roff` bytes of what was posted, in order. */
  lemma {:induction false} UploadConservation(cfg: Config, s: Session, es: seq<Event>)
    requires s.roff <= |s.rbuf|
    ensures var s' := After(cfg, s, es);
            && s'.rbuf == s.rbuf + Fed(es)
            && s.rbuf[..s.roff] + Uploaded(Outs(cfg, s, es)) == s'.rbuf[..s'.roff]
    decreases |es|
  {
    if es == [] {
      assert s.rbuf + [] == s.rbuf;
      assert s.rbuf[..s.roff] + [] == s.rbuf[..s.roff];
    } else {
      var s' := Next(cfg, s, es[0]);
      UploadStep(cfg, s, es[0]);
      UploadConservation(cfg, s', es[1..]);
      UploadedAppend(Given(cfg, s, es[0]), Outs(cfg, s', es[1..]));
      hide Next, Given, Uploaded;
      Assoc(s.rbuf, if es[0].Feed? then es[0].data else [], Fed(es[1..]));
      Assoc(s.rbuf[..s.roff], Uploaded(Given(cfg, s, es[0])), Uploaded(Outs(cfg, s', es[1..])));
    }
  }

  /**
   When curl asks for upload data and is given none, which it takes for the end of the upload:
   exactly if all that was posted so far has been handed to it.
   */
  lemma UploadEndsIffAllSent(cfg: Config, body: Bytes, es: seq<Event>, size: nat)
    requires size > 0
    ensures var s := After(cfg, Start(body), es);
            Given(cfg, s, Read(size)) == [Upload([])] <==> Uploaded(Outs(cfg, Start(body), es)) == body + Fed(es)
  {
    var s := After(cfg, Start(body), es);
    UploadConservation(cfg, Start(body), es);
    assert Start(body).rbuf[..0] + Uploaded(Outs(cfg, Start(body), es)) == Uploaded(Outs(cfg, Start(body), es));
    hide Outs, After, Fed, Uploaded;
    assert s.roff == |s.rbuf| <==> s.rbuf[..s.roff] == s.rbuf;
    assert Available(s, size) == 0 <==> s.roff == |s.rbuf|;
    assert |s.rbuf[s.roff..s.roff + Available(s, size)]| == Available(s, size);
  }

  predicate NoRead(es: seq<Event>) { forall e | e in es :: !e.Read? }

  lemma {:induction false} NoReadNoUpload(cfg: Config, s: Session, es: seq<Event>)
    requires s.roff <= |s.rbuf| && NoRead(es)
    ensures Uploaded(Outs(cfg, s, es)) == []
    decreases |es|
  {
    if es != [] {
      assert es[0] in es && forall e | e in es[1..] :: e in es;
      NothingUploaded(Given(cfg, s, es[0]));
      NoReadNoUpload(cfg, Next(cfg, s, es[0]), es[1..]);
      UploadedAppend(Given(cfg, s, es[0]), Outs(cfg, Next(cfg, s, es[0]), es[1..]));
    }
  }

  /**
   After that answer curl asks no more, so what is posted later is kept and never handed on: the
   upload is complete exactly if nothing is posted later.
   */
  lemma PostedTooLate(cfg: Config, body: Bytes, es: seq<Event>, size: nat, more: seq<Event>)
    requires size > 0 && Given(cfg, After(cfg, Start(body), es), Read(size)) == [Upload([])] && NoRead(more)
    ensures var all := es + [Read(size)] + more;
            && Uploaded(Outs(cfg, Start(body), all)) == body + Fed(es)
            && After(cfg, Start(body), all).rbuf == body + Fed(es) + Fed(more)
            && (Uploaded(Outs(cfg, Start(body), all)) == After(cfg, Start(body), all).rbuf <==> Fed(more) == [])
  {
    var s0 := Start(body);
    var s1 := After(cfg, s0, es);
    var s2 := Next(cfg, s1, Read(size));
    RunAppend(cfg, s0, es + [Read(size)], more);
    RunAppend(cfg, s0, es, [Read(size)]);
    RunOne(cfg, s1, Read(size));
    UploadEndsIffAllSent(cfg, body, es, size);
    UploadConservation(cfg, s0, es);
    UploadConservation(cfg, s2, more);
    NoReadNoUpload(cfg, s2, more);
    assert s2.rbuf == s1.rbuf && Uploaded([Upload([])]) == [];
    hide Outs, After, Given, Next, Fed, Uploaded;
    UploadedAppend(Outs(cfg, s0, es) + [Upload([])], Outs(cfg, s2, more));
    UploadedAppend(Outs(cfg, s0, es), [Upload([])]);
    assert body + Fed(es) + [] + [] == body + Fed(es);
  }

  lemma UploadStep(cfg: Config, s: Session, e: Event)
    requires s.roff <= |s.rbuf|
    ensures var s' := Next(cfg, s, e);
            && s'.rbuf == s.rbuf + (if e.Feed? then e.data else [])
            && s.rbuf[..s.roff] + Uploaded(Given(cfg, s, e)) == s'.rbuf[..s'.roff]
  {
    var s' := Next(cfg, s, e);
    match e
    case Write(data) =>
      var parts := Rechunk(cfg, s.wbuf, data).0;
      NothingUploaded(Given(cfg, s, e));
    case Read(size) =>
      assert Uploaded(Given(cfg, s, e)) == s.rbuf[s.roff..s'.roff];
    case Header(_) =>
    case Feed(data) =>
      assert s'.rbuf[..s.roff] == s.rbuf[..s.roff];
    case Finalize(_, _) =>
      NothingUploaded(Given(cfg, s, e));
  }

  lemma {:induction false} NothingUploaded(outs: seq<Out>)
    requires forall o | o in outs :: !o.Upload?
    ensures Uploaded(outs) == []
  {
    if outs != [] {
      assert outs[0] in outs && forall o | o in outs[1..] :: o in outs;
      NothingUploaded(outs[1..]);
    }
  }
}
