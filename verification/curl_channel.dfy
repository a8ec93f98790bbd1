/**
 The client channel and its sessions as objects.  Every method is proved to do to them what
 Multiplex.Step and Transfer.Next do to their values, and to give out what those give out.
 */
module CurlChannel {
  import opened Common
  import opened Headers
  import opened SessionOrder
  import T = Transfer
  import M = Multiplex

  class Session {
    const parent: Channel
    const addr: nat
    var state: T.State
    var wbuf: Bytes
    var rbuf: Bytes
    var roff: nat
    var headers: Fields

    ghost function Value(): T.Session
      reads this
    {
      T.Session(state, wbuf, rbuf, roff, headers)
    }

    /** Between calls the upload offset is within the posted data and no full message is buffered. */
    ghost predicate Ready()
      reads this
    {
      roff <= |rbuf| && T.Partial(parent.cfg, wbuf)
    }

    constructor (parent: Channel, addr: nat, body: Bytes)
      ensures this.parent == parent && this.addr == addr
      ensures Value() == T.Start(body) && Ready()
    {
      this.parent, this.addr := parent, addr;
      state, wbuf, rbuf, roff, headers := T.Opening, [], body, 0, map[];
    }

    method Give(out: T.Out)
      modifies parent`given
      ensures parent.given == old(parent.given) + M.Tag(addr, [out])
    {
      parent.given := parent.given + [M.Tagged(addr, out)];
    }

    method Connected()
      modifies this`state, parent`given
      ensures state == T.Active
      ensures parent.given == old(parent.given) + M.Tag(addr, [T.Connect(headers)])
    {
      state := T.Active;
      Give(T.Connect(headers));
    }

    /** Received body data; the first of it announces the response. */
    method Write(data: Bytes) returns (n: nat)
      requires Ready()
      modifies this`state, this`wbuf, parent`given
      ensures Ready() && n == |data|
      ensures Value() == T.Next(parent.cfg, old(Value()), T.Write(data))
      ensures parent.given == old(parent.given) + M.Tag(addr, T.Given(parent.cfg, old(Value()), T.Write(data)))
      decreases |data|, 1
    {
      ghost var greeting := T.Greeting(Value());
      ghost var parts := T.Rechunk(parent.cfg, wbuf, data).0;
      TagAppend(addr, greeting, T.Messages(parts));
      if state == T.Opening {
        Connected();
      }
      if state != T.Active {
        return |data|;
      }
      assert parent.given == old(parent.given) + M.Tag(addr, greeting);
      Assoc(old(parent.given), M.Tag(addr, greeting), M.Tag(addr, T.Messages(parts)));
      Regroup(data);
      return |data|;
    }

    /** Regroups received data into messages of recv-size bytes. */
    method Regroup(data: Bytes)
      requires Ready() && state == T.Active
      modifies this`state, this`wbuf, parent`given
      ensures Ready() && state == T.Active
      ensures wbuf == T.Rechunk(parent.cfg, old(wbuf), data).1
      ensures parent.given ==
              old(parent.given) + M.Tag(addr, T.Messages(T.Rechunk(parent.cfg, old(wbuf), data).0))
      decreases |data|, 0
    {
      hide T.Rechunk;
      RechunkShort(parent.cfg, wbuf, data);
      if parent.cfg.chunked {
        Give(T.Data(data));
        return;
      }
      if wbuf == [] && |data| > parent.cfg.recvSize {
        Give(T.Data(data));
        return;
      }
      var room := parent.cfg.recvSize - |wbuf|;
      var head := if |data| <= room then |data| else room;
      wbuf := wbuf + data[..head];
      if |wbuf| < parent.cfg.recvSize {
        assert data[..head] == data;
        assert M.Tag(addr, []) == [];
        return;
      }
      RechunkFull(parent.cfg, old(wbuf), data, head);
      ghost var full := [T.Data(wbuf)];
      Give(T.Data(wbuf));
      wbuf := [];
      if |data| > head {
        RestOfData(addr, parent.cfg, full, data[head..]);
        Assoc(old(parent.given), M.Tag(addr, full), M.Tag(addr, T.Messages(T.Rechunk(parent.cfg, [], data[head..]).0)));
        var n := Write(data[head..]);
      }
    }

    /** Hands curl the next part of the posted data, at most `size` bytes; nothing when all is handed over. */
    method Read(size: nat) returns (data: Bytes)
      requires Ready()
      modifies this`roff, parent`given
      ensures Ready() && Value() == T.Next(parent.cfg, old(Value()), T.Read(size))
      ensures T.Given(parent.cfg, old(Value()), T.Read(size)) == [T.Upload(data)]
      ensures parent.given == old(parent.given) + M.Tag(addr, [T.Upload(data)])
    {
      if roff == |rbuf| {
        data := [];
        assert rbuf[roff..roff] == [];
      } else {
        var s := if |rbuf| - roff <= size then |rbuf| - roff else size;
        data := rbuf[roff..roff + s];
        roff := roff + s;
      }
      Give(T.Upload(data));
    }

    method Header(line: Text) returns (taken: nat)
      requires Ready()
      modifies this`headers
      ensures Ready() && Value() == T.Next(parent.cfg, old(Value()), T.Header(line))
      ensures taken == if |line| < 2 then 0 else |line|
    {
      headers, taken := HandleLine(headers, line);
    }

    method Feed(data: Bytes)
      requires Ready()
      modifies this`rbuf
      ensures Ready() && Value() == T.Next(parent.cfg, old(Value()), T.Feed(data))
    {
      rbuf := rbuf + data;
    }

    /** The transfer ends: the partial message is given out and the channel is told to reap. */
    method Finalize(code: int, skip: bool)
      requires Ready()
      modifies this`state, parent`pending, parent`given
      ensures Ready() && parent.pending
      ensures Value() == T.Next(parent.cfg, old(Value()), T.Finalize(code, skip))
      ensures parent.given == old(parent.given) + M.Tag(addr, T.Given(parent.cfg, old(Value()), T.Finalize(code, skip)))
    {
      state := T.Closing;
      parent.pending := true;
      if wbuf != [] {
        Give(T.Data(wbuf));
      }
      if skip {
        return;
      }
      ghost var flush := if wbuf == [] then [] else [T.Data(wbuf)];
      TagAppend(addr, flush, [T.Disconnect(code)]);
      Assoc(old(parent.given), M.Tag(addr, flush), M.Tag(addr, [T.Disconnect(code)]));
      Give(T.Disconnect(code));
    }
  }

  lemma TagAppend(a: nat, s: seq<T.Out>, t: seq<T.Out>)
    ensures M.Tag(a, s + t) == M.Tag(a, s) + M.Tag(a, t)
  {
  }

  lemma RestOfData(a: nat, cfg: T.Config, full: seq<T.Out>, rest: Bytes)
    ensures var more := T.Messages(T.Rechunk(cfg, [], rest).0);
            && M.Tag(a, full + more) == M.Tag(a, full) + M.Tag(a, more)
            && forall s: T.Session | s.state == T.Active && s.wbuf == [] && s.roff <= |s.rbuf| ::
                 T.Given(cfg, s, T.Write(rest)) == more
  {
  }

  /** The two cases in which no full message is made of the buffer. */
  lemma RechunkShort(cfg: T.Config, wbuf: Bytes, data: Bytes)
    requires T.Partial(cfg, wbuf)
    ensures var (parts, rest) := T.Rechunk(cfg, wbuf, data);
            && (cfg.chunked || (wbuf == [] && |data| > cfg.recvSize) ==>
                  T.Messages(parts) == [T.Data(data)] && rest == wbuf == [])
            && (!cfg.chunked && |wbuf| + |data| < cfg.recvSize ==>
                  T.Messages(parts) == [] && rest == wbuf + data)
            && T.Partial(cfg, rest)
  {
    T.RechunkConserves(cfg, wbuf, data);
  }

  /** Filling the buffer once and writing the rest again is regrouping the whole. */
  lemma RechunkFull(cfg: T.Config, wbuf: Bytes, data: Bytes, head: nat)
    requires T.Partial(cfg, wbuf) && !cfg.chunked && !(wbuf == [] && |data| > cfg.recvSize)
    requires head <= |data| && |wbuf| + head == cfg.recvSize
    ensures var (parts, rest) := T.Rechunk(cfg, wbuf, data); var full := wbuf + data[..head];
            if |data| == head then T.Messages(parts) == [T.Data(full)] && rest == []
            else
              && T.Messages(parts) == [T.Data(full)] + T.Messages(T.Rechunk(cfg, [], data[head..]).0)
              && rest == T.Rechunk(cfg, [], data[head..]).1
  {
    var all := wbuf + data;
    assert all[..cfg.recvSize] == wbuf + data[..head];
    assert all[cfg.recvSize..] == data[head..];
    assert [] + data[head..] == data[head..];
    if |data| > head {
      var more := data[head..];
      assert |more| == |all| - cfg.recvSize;
      if |more| == cfg.recvSize {
        assert more[..|more|] == more && more[|more|..] == [];
      }
    }
  }

  /** Sessions are filed under their address, belong to the channel, and hold the given values. */
  ghost predicate Coupled(ch: Channel, objs: map<nat, Session>, values: map<nat, T.Session>)
    reads objs.Values
  {
    && objs.Keys == values.Keys
    && forall a | a in objs ::
         objs[a].addr == a && objs[a].parent == ch && objs[a].Ready() && objs[a].Value() == values[a]
  }

  lemma CoupledDistinct(ch: Channel, objs: map<nat, Session>, values: map<nat, T.Session>)
    requires Coupled(ch, objs, values)
    ensures objs.Keys == values.Keys
    ensures forall a | a in objs ::
              objs[a].addr == a && objs[a].parent == ch && objs[a].Ready() && objs[a].Value() == values[a]
    ensures forall a, b | a in objs && b in objs && a != b :: objs[a] != objs[b]
  {
  }

  lemma CoupledAdd(ch: Channel, objs: map<nat, Session>, values: map<nat, T.Session>, a: nat, s: Session)
    requires Coupled(ch, objs, values)
    requires s.addr == a && s.parent == ch && s.Ready()
    ensures Coupled(ch, objs[a := s], values[a := s.Value()])
  {
  }

  lemma CoupledRemove(ch: Channel, objs: map<nat, Session>, values: map<nat, T.Session>, a: nat)
    requires Coupled(ch, objs, values)
    ensures Coupled(ch, objs - {a}, values - {a})
  {
  }

  /** Putting a session back under its address, with the value it now has. */
  lemma CoupledReplace(ch: Channel, objs: map<nat, Session>, values: map<nat, T.Session>, a: nat, s: Session)
    requires Coupled(ch, objs - {a}, values - {a}) && a in objs && objs[a] == s && a in values
    requires s.addr == a && s.parent == ch && s.Ready()
    ensures Coupled(ch, objs, values[a := s.Value()])
  {
    CoupledAdd(ch, objs - {a}, values - {a}, a, s);
    assert (objs - {a})[a := s] == objs;
    assert (values - {a})[a := s.Value()] == values[a := s.Value()];
  }

  lemma ProcessStep(ch: M.Chan)
    requires M.Valid(ch)
    ensures var ch' := M.Step(ch, M.Process);
            && (forall a :: a in ch'.sessions <==> a in ch.sessions && !M.Ended(ch.sessions[a]))
            && (forall a | a in ch'.sessions :: ch'.sessions[a] == ch.sessions[a])
            && ch' == ch.(sessions := ch'.sessions, pending := false,
                          open := ch.open && !(ch.autoclose && ch'.sessions == map[]))
  {
  }

  /** An event for a session that exists. */
  lemma SessionEvent(ch: M.Chan, e: M.Event, te: T.Event)
    requires M.Valid(ch) && !e.Process? && e.a in ch.sessions && M.ToSession(ch.mode, e) == Some(te)
    ensures var s := ch.sessions[e.a];
            && s.roff <= |s.rbuf|
            && M.Step(ch, e) == ch.(sessions := ch.sessions[e.a := T.Next(ch.cfg, s, te)],
                                    pending := ch.pending || te.Finalize?)
            && M.Emits(ch, e) == M.Tag(e.a, T.Given(ch.cfg, s, te))
  {
  }

  class Channel {
    const mode: M.Mode
    const cfg: T.Config
    const autoclose: bool
    var sessions: map<nat, Session>
    var pending: bool
    var open: bool
    var given: seq<M.Tagged>
    ghost var model: M.Chan

    ghost predicate Valid()
      reads this, sessions.Values
    {
      && model == M.Chan(mode, cfg, autoclose, model.sessions, pending, open)
      && M.Valid(model)
      && Coupled(this, sessions, model.sessions)
    }

    constructor (mode: M.Mode, cfg: T.Config, autoclose: bool)
      ensures Valid() && model == M.Chan(mode, cfg, autoclose, map[], false, true) && given == []
    {
      this.mode, this.cfg, this.autoclose := mode, cfg, autoclose;
      sessions, pending, open, given := map[], false, true, [];
      model := M.Chan(mode, cfg, autoclose, map[], false, true);
    }

    /** Files a new session, unless its address is taken or curl refuses the handle. */
    method Create(a: nat, body: Bytes, accepted: bool) returns (code: Code)
      requires Valid()
      modifies this`sessions, this`model
      ensures Valid() && code == if a in old(sessions) then EEXIST else if accepted then Ok else EINVAL
      ensures model == if code == Ok then old(model).(sessions := old(model).sessions[a := T.Start(body)])
                       else old(model)
    {
      hide Coupled;
      CoupledDistinct(this, sessions, model.sessions);
      if a in sessions {
        return EEXIST;
      }
      var s := new Session(this, a, body);
      if !accepted {
        return EINVAL;
      }
      CoupledAdd(this, sessions, model.sessions, a, s);
      sessions := sessions[a := s];
      model := model.(sessions := model.sessions[a := T.Start(body)]);
      return Ok;
    }

    /** Opening starts the only transfer of single mode, at address 0. */
    method Open(accepted: bool) returns (code: Code)
      requires Valid() && sessions == map[]
      modifies this`sessions, this`model
      ensures Valid() && code == if mode == M.Single && !accepted then EINVAL else Ok
      ensures model.sessions == if mode == M.Single && accepted then map[0 := T.Start([])] else map[]
    {
      code := Ok;
      if mode == M.Single {
        code := Create(0, [], accepted);
      }
    }

    method PostData(a: nat, data: Bytes, accepted: bool) returns (code: Code)
      requires Valid()
      modifies this, sessions.Values
      ensures Valid() && model == M.Step(old(model), M.PostData(a, data, accepted))
      ensures code == M.Reply(old(model), M.PostData(a, data, accepted))
      ensures given == old(given) + M.Emits(old(model), M.PostData(a, data, accepted))
    {
      hide Coupled;
      CoupledDistinct(this, sessions, model.sessions);
      if mode == M.PerData {
        code := Create(a, data, accepted);
        return;
      }
      if a !in sessions {
        return EEXIST;
      }
      SessionEvent(model, M.PostData(a, data, accepted), T.Feed(data));
      hide M.Step, M.Emits, T.Next;
      var s := sessions[a];
      CoupledRemove(this, sessions, model.sessions, a);
      s.Feed(data);
      CoupledReplace(this, sessions, model.sessions, a, s);
      assert M.Tag(a, []) == [];
      model := M.Step(model, M.PostData(a, data, accepted));
      return Ok;
    }

    method PostConnect(a: nat, fits: bool, parses: bool, accepted: bool) returns (code: Code)
      requires Valid()
      modifies this`sessions, this`model
      ensures Valid() && model == M.Step(old(model), M.PostConnect(a, fits, parses, accepted))
      ensures code == M.Reply(old(model), M.PostConnect(a, fits, parses, accepted))
      ensures M.Emits(old(model), M.PostConnect(a, fits, parses, accepted)) == []
    {
      hide Coupled;
      CoupledDistinct(this, sessions, model.sessions);
      if mode != M.Full {
        return ENOENT;
      }
      if !fits {
        return EMSGSIZE;
      }
      if !parses {
        return EINVAL;
      }
      code := Create(a, [], accepted);
    }

    method PostDisconnect(a: nat) returns (code: Code)
      requires Valid()
      modifies this, sessions.Values
      ensures Valid() && model == M.Step(old(model), M.PostDisconnect(a))
      ensures code == M.Reply(old(model), M.PostDisconnect(a))
      ensures given == old(given) + M.Emits(old(model), M.PostDisconnect(a))
    {
      hide Coupled;
      CoupledDistinct(this, sessions, model.sessions);
      if a !in sessions {
        return EEXIST;
      }
      SessionEvent(model, M.PostDisconnect(a), T.Finalize(0, true));
      hide M.Step, M.Emits, T.Next, T.Given;
      var s := sessions[a];
      CoupledRemove(this, sessions, model.sessions, a);
      s.Finalize(0, true);
      CoupledReplace(this, sessions, model.sessions, a, s);
      model := M.Step(model, M.PostDisconnect(a));
      return Ok;
    }

    /** curl calls back only into sessions whose handle it holds. */
    method OnBody(a: nat, data: Bytes) returns (n: nat)
      requires Valid() && a in sessions
      modifies this, sessions[a]
      ensures Valid() && model == M.Step(old(model), M.Curl(a, M.Body(data))) && n == |data|
      ensures given == old(given) + M.Emits(old(model), M.Curl(a, M.Body(data)))
    {
      hide Coupled;
      CoupledDistinct(this, sessions, model.sessions);
      SessionEvent(model, M.Curl(a, M.Body(data)), T.Write(data));
      hide M.Step, M.Emits, T.Next, T.Given;
      var s := sessions[a];
      CoupledRemove(this, sessions, model.sessions, a);
      n := s.Write(data);
      CoupledReplace(this, sessions, model.sessions, a, s);
      model := M.Step(model, M.Curl(a, M.Body(data)));
    }

    method OnRead(a: nat, size: nat) returns (data: Bytes)
      requires Valid() && a in sessions
      modifies this, sessions[a]
      ensures Valid() && model == M.Step(old(model), M.Curl(a, M.Wants(size)))
      ensures M.Emits(old(model), M.Curl(a, M.Wants(size))) == [M.Tagged(a, T.Upload(data))]
      ensures given == old(given) + [M.Tagged(a, T.Upload(data))]
    {
      hide Coupled;
      CoupledDistinct(this, sessions, model.sessions);
      SessionEvent(model, M.Curl(a, M.Wants(size)), T.Read(size));
      hide M.Step, M.Emits, T.Next, T.Given;
      var s := sessions[a];
      CoupledRemove(this, sessions, model.sessions, a);
      data := s.Read(size);
      CoupledReplace(this, sessions, model.sessions, a, s);
      model := M.Step(model, M.Curl(a, M.Wants(size)));
    }

    method OnHeader(a: nat, line: Text) returns (taken: nat)
      requires Valid() && a in sessions
      modifies this`model, sessions[a]
      ensures Valid() && model == M.Step(old(model), M.Curl(a, M.Line(line)))
      ensures M.Emits(old(model), M.Curl(a, M.Line(line))) == []
      ensures taken == if |line| < 2 then 0 else |line|
    {
      hide Coupled;
      CoupledDistinct(this, sessions, model.sessions);
      SessionEvent(model, M.Curl(a, M.Line(line)), T.Header(line));
      hide M.Step, M.Emits, T.Next;
      assert M.Tag(a, []) == [];
      var s := sessions[a];
      CoupledRemove(this, sessions, model.sessions, a);
      taken := s.Header(line);
      CoupledReplace(this, sessions, model.sessions, a, s);
      model := M.Step(model, M.Curl(a, M.Line(line)));
    }

    method OnDone(a: nat, code: int)
      requires Valid() && a in sessions
      modifies this, sessions[a]
      ensures Valid() && model == M.Step(old(model), M.Curl(a, M.Done(code)))
      ensures given == old(given) + M.Emits(old(model), M.Curl(a, M.Done(code)))
    {
      hide Coupled;
      CoupledDistinct(this, sessions, model.sessions);
      SessionEvent(model, M.Curl(a, M.Done(code)), T.Finalize(code, false));
      hide M.Step, M.Emits, T.Next, T.Given;
      var s := sessions[a];
      CoupledRemove(this, sessions, model.sessions, a);
      s.Finalize(code, false);
      CoupledReplace(this, sessions, model.sessions, a, s);
      model := M.Step(model, M.Curl(a, M.Done(code)));
    }

    /** Takes every ended session out of the map while the map is walked. */
    method Reap()
      modifies this`sessions
      ensures sessions == map a | a in old(sessions)
                && old(sessions)[a].state != T.Closing && old(sessions)[a].state != T.Error :: old(sessions)[a]
    {
      ghost var all, left := sessions, sessions.Keys;
      ghost var ended := set a | a in all && (all[a].state == T.Closing || all[a].state == T.Error);
      var it := LowerBound(sessions.Keys, 0);
      while it.Some?
        invariant it.Some? ==> it.value in left
        invariant forall a :: a in left <==> a in all && it.Some? && a >= it.value
        invariant forall a :: a in sessions <==> a in left || (a in all && a !in ended)
        invariant forall a | a in sessions :: a in all && sessions[a] == all[a]
        decreases left
      {
        var a := it.value;
        var s := sessions[a];
        if s.state == T.Closing || s.state == T.Error {
          sessions := sessions - {a};
        }
        left := left - {a};
        assert forall b | b in left :: b in sessions.Keys && b >= a + 1;
        it := LowerBound(sessions.Keys, a + 1);
      }
    }

    /** The deferred pass; with autoclose the channel closes once no session is left. */
    method Process()
      requires Valid()
      modifies this
      ensures Valid() && model == M.Step(old(model), M.Process) && given == old(given)
      ensures forall a | a in sessions :: a in old(sessions) && sessions[a] == old(sessions)[a]
    {
      hide Coupled, M.Step, M.Valid;
      ProcessStep(model);
      ghost var all, values := sessions, model.sessions;
      Reap();
      pending := false;
      model := M.Step(model, M.Process);
      CoupledReap(this, all, values, sessions, model.sessions);
      if autoclose && sessions == map[] {
        open := false;
      }
    }
  }

  /** What is left of the sessions when the ended ones are taken out. */
  lemma CoupledReap(ch: Channel, objs: map<nat, Session>, values: map<nat, T.Session>,
                    objs': map<nat, Session>, values': map<nat, T.Session>)
    requires Coupled(ch, objs, values)
    requires objs' == map a | a in objs && objs[a].state != T.Closing && objs[a].state != T.Error :: objs[a]
    requires forall a :: a in values' <==> a in values && !M.Ended(values[a])
    requires forall a | a in values' :: values'[a] == values[a]
    ensures Coupled(ch, objs', values') && objs'.Keys == values'.Keys
    ensures forall a | a in objs' :: a in objs && objs'[a] == objs[a]
  {
    forall a
      ensures a in objs' <==> a in values'
    {
      assert a in objs ==> objs[a].Value() == values[a];
    }
  }
}
