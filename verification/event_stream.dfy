/**
 Server-sent events: how a message is framed, and what a client makes of a stream of frames, which
 is section 9.2.6 of the WHATWG HTML Living Standard as far as it concerns the data of events.
 */
module EventStream {
  import opened Common

  const FIELD: Text := "data: "
  const DATA: Text := "data"
  const LF: Octet := '\n'
  const CR: Octet := '\r'

  function Frame(message: Text): Text { FIELD + message + [LF, LF] }

  /** Fills a fresh buffer with the frame of a message. */
  method Copy(message: Text) returns (buf: array<Octet>)
    ensures fresh(buf) && buf[..] == Frame(message) == "data: " + message + "\n\n"
  {
    var n := |message|;
    buf := new Octet[n + 6 + 2];
    for i := 0 to 6
      invariant buf[..i] == FIELD[..i]
    {
      buf[i] := FIELD[i];
    }
    for i := 0 to n
      invariant buf[..6 + i] == FIELD + message[..i]
    {
      buf[6 + i] := message[i];
    }
    buf[6 + n] := LF;
    buf[6 + n + 1] := LF;
    assert message[..n] == message;
    assert buf[..6 + n] == FIELD + message;
    assert buf[..] == buf[..6 + n] + [LF, LF];
  }

  // ----- The client -----

  /** The line being read, the data buffer, whether a CR was just read, and the events dispatched. */
  datatype Reader = Reader(line: Text, data: Text, cr: bool, events: seq<Text>)

  const START := Reader([], [], false, [])

  predicate Break(c: Octet) { c == LF || c == CR }

  /** The value of a field line, one leading space removed. */
  function Value(rest: Text): Text {
    if rest != [] && rest[0] == ' ' then rest[1..] else rest
  }

  /** What a line adds to the data buffer: something only if its field name is "data". */
  function Contribution(line: Text): Text {
    if line == DATA then [LF]
    else if |line| >= 5 && line[..4] == DATA && line[4] == ':' then Value(line[5..]) + [LF]
    else []
  }

  /** An empty line dispatches the data buffer, without its last line feed, unless it is empty. */
  function EndLine(r: Reader): Reader {
    if r.line != [] then r.(line := [], data := r.data + Contribution(r.line))
    else if r.data == [] then r
    else r.(data := [], events := r.events + [r.data[..|r.data| - 1]])
  }

  function Char(r: Reader, c: Octet): Reader {
    if c == CR then EndLine(r).(cr := true)
    else if c == LF then (if r.cr then r else EndLine(r)).(cr := false)
    else r.(line := r.line + [c], cr := false)
  }

  function Read(r: Reader, text: Text): Reader
    decreases |text|
  {
    if text == [] then r else Read(Char(r, text[0]), text[1..])
  }

  /** The data of the events a client dispatches for a stream. */
  function Parse(text: Text): seq<Text> { Read(START, text).events }

  lemma {:induction false} ReadAppend(r: Reader, s: Text, t: Text)
    ensures Read(r, s + t) == Read(Read(r, s), t)
    decreases |s|
  {
    if s == [] {
      assert s + t == t;
    } else {
      ReadAppend(Char(r, s[0]), s[1..], t);
      assert (s + t)[1..] == s[1..] + t;
    }
  }

  /** A client's past events do not matter. */
  lemma {:induction false} EventsOnlyGrow(r: Reader, past: seq<Text>, text: Text)
    ensures Read(r.(events := past + r.events), text) == Read(r, text).(events := past + Read(r, text).events)
    decreases |text|
  {
    if text != [] {
      var r' := Char(r, text[0]);
      assert r'.events == r.events || past + r'.events == (past + r.events) + r'.events[|r.events|..];
      assert Char(r.(events := past + r.events), text[0]) == r'.(events := past + r'.events);
      EventsOnlyGrow(r', past, text[1..]);
    }
  }

  predicate Plain(message: Text) { forall i | 0 <= i < |message| :: !Break(message[i]) }

  lemma {:induction false} ReadPlain(r: Reader, text: Text)
    requires Plain(text)
    ensures Read(r, text) == if text == [] then r else r.(line := r.line + text, cr := false)
    decreases |text|
  {
    if text != [] {
      ReadPlain(Char(r, text[0]), text[1..]);
      assert r.line + text == (r.line + [text[0]]) + text[1..];
    }
  }

  /** After a CR the line it ended is empty. */
  predicate Good(r: Reader) { r.cr ==> r.line == [] }

  lemma {:induction false} StaysGood(r: Reader, text: Text)
    requires Good(r)
    ensures Good(Read(r, text))
    decreases |text|
  {
    if text != [] {
      StaysGood(Char(r, text[0]), text[1..]);
    }
  }

  predicate Clean(r: Reader) { r.line == [] && r.data == [] && !r.cr }

  /** After the two line feeds of a frame the client is ready for the next one. */
  lemma FrameEndsClean(r: Reader)
    requires Good(r)
    ensures Clean(Read(r, [LF, LF]))
  {
    assert [LF, LF][1..] == [LF] && [LF][1..] == [];
    assert Read(Char(r, LF), [LF]) == Char(Char(r, LF), LF);
  }

  /** What one frame makes a client dispatch. */
  function Dispatched(message: Text): seq<Text> { Read(START, Frame(message)).events }

  lemma FrameFromClean(r: Reader, message: Text)
    requires Clean(r)
    ensures var r' := Read(r, Frame(message)); Clean(r') && r'.events == r.events + Dispatched(message)
  {
    ReadAppend(r, FIELD + message, [LF, LF]);
    StaysGood(r, FIELD + message);
    FrameEndsClean(Read(r, FIELD + message));
    assert r == START.(events := r.events + START.events);
    EventsOnlyGrow(START, r.events, Frame(message));
  }

  function Frames(messages: seq<Text>): Text {
    if messages == [] then [] else Frame(messages[0]) + Frames(messages[1..])
  }

  function AllDispatched(messages: seq<Text>): seq<Text> {
    if messages == [] then [] else Dispatched(messages[0]) + AllDispatched(messages[1..])
  }

  lemma {:induction false} ParseFrames(r: Reader, messages: seq<Text>)
    requires Clean(r)
    ensures Read(r, Frames(messages)).events == r.events + AllDispatched(messages)
    decreases |messages|
  {
    if messages != [] {
      FrameFromClean(r, messages[0]);
      var r' := Read(r, Frame(messages[0]));
      ReadAppend(r, Frame(messages[0]), Frames(messages[1..]));
      ParseFrames(r', messages[1..]);
      Assoc(r.events, Dispatched(messages[0]), AllDispatched(messages[1..]));
    }
  }

  lemma FirstLine(head: Text)
    requires Plain(head)
    ensures Read(START, FIELD + head) == Reader(FIELD + head, [], false, [])
    ensures forall c | Break(c) ::
              Char(Reader(FIELD + head, [], false, []), c) == Reader([], head + [LF], c == CR, [])
  {
    var line := FIELD + head;
    assert Plain(line) by {
      assert forall i | 0 <= i < 6 :: !Break(FIELD[i]);
    }
    ReadPlain(START, line);
    assert START.line + line == line;
    DataLine(head);
    assert START.data + (head + [LF]) == head + [LF];
  }

  lemma PlainIsDispatched(message: Text)
    requires Plain(message)
    ensures Dispatched(message) == [message]
  {
    FirstLine(message);
    ReadAppend(START, FIELD + message, [LF, LF]);
    var r := Reader(FIELD + message, [], false, []);
    var r' := Reader([], message + [LF], false, []);
    assert [LF, LF][1..] == [LF] && [LF][1..] == [];
    assert Read(Char(r, LF), [LF]) == Char(Char(r, LF), LF);
    assert r'.data[..|r'.data| - 1] == message;
    assert Char(r', LF).events == [message];
  }

  lemma DataLine(message: Text)
    ensures FIELD + message != [] && Contribution(FIELD + message) == message + [LF]
  {
    var line := FIELD + message;
    assert FIELD == DATA + [':', ' '];
    assert line == DATA + ([':'] + ([' '] + message));
    assert line[5..] == [' '] + message;
    assert ([' '] + message)[1..] == message;
  }

  // ----- What is dispatched never outweighs what was sent -----

  function Weight(events: seq<Text>): nat {
    if events == [] then 0 else Weight(events[..|events| - 1]) + |events[|events| - 1]| + 1
  }

  function Load(r: Reader): nat { |r.line| + |r.data| + Weight(r.events) }

  function Ordinary(text: Text): nat {
    if text == [] then 0 else (if Break(text[0]) then 0 else 1) + Ordinary(text[1..])
  }

  lemma EndLineLoad(r: Reader)
    ensures Load(EndLine(r)) <= Load(r)
    ensures r.line != [] ==> EndLine(r).events == r.events
  {
    if r.line == [] && r.data != [] {
      var last := r.data[..|r.data| - 1];
      assert (r.events + [last])[..|r.events|] == r.events;
    }
  }

  /** A client never holds more than the ordinary characters it was sent. */
  lemma {:induction false} LoadGrowsByOrdinary(r: Reader, text: Text)
    ensures Load(Read(r, text)) <= Load(r) + Ordinary(text)
    decreases |text|
  {
    if text != [] {
      EndLineLoad(r);
      LoadGrowsByOrdinary(Char(r, text[0]), text[1..]);
    }
  }

  lemma {:induction false} OrdinaryLength(s: Text, t: Text)
    ensures Ordinary(s) <= |s|
    ensures Ordinary(s + t) == Ordinary(s) + Ordinary(t)
  {
    if s == [] {
      assert s + t == t;
    } else {
      OrdinaryLength(s[1..], t);
      assert (s + t)[1..] == s[1..] + t;
    }
  }

  /** A line break in a message is lost for good: the client ends up with less than was sent. */
  lemma BrokenWeighsLess(message: Text, at: nat)
    requires at < |message| && Break(message[at]) && Plain(message[..at])
    ensures Weight(Dispatched(message)) <= |message|
  {
    var head, tail := message[..at], message[at + 1..];
    var r := Reader([], head + [LF], message[at] == CR, []);
    BreakRead(message, head, message[at], tail);
    hide Read, Char, Ordinary;
    LoadGrowsByOrdinary(r, tail + [LF, LF]);
    OrdinaryLength(tail, [LF, LF]);
    NoneOrdinary();
    assert Load(r) == |head| + 1;
  }

  lemma NoneOrdinary()
    ensures Ordinary([LF, LF]) == 0
  {
    assert [LF][1..] == [];
    assert Ordinary([LF]) == Ordinary([LF][1..]);
    assert [LF, LF][1..] == [LF];
  }

  /** Reading a frame past the first break in its message. */
  lemma BreakRead(message: Text, head: Text, c: Octet, tail: Text)
    requires message == head + [c] + tail && Break(c) && Plain(head)
    ensures Read(START, Frame(message)) == Read(Reader([], head + [LF], c == CR, []), tail + [LF, LF])
  {
    hide Read, Char, Frame;
    FirstLine(head);
    FrameSplit(head, c, tail);
    ReadAppend(START, FIELD + head, [c] + (tail + [LF, LF]));
    ReadCons(Reader(FIELD + head, [], false, []), c, tail + [LF, LF]);
  }

  lemma FrameSplit(head: Text, c: Octet, tail: Text)
    ensures Frame(head + [c] + tail) == (FIELD + head) + ([c] + (tail + [LF, LF]))
  {
  }

  lemma ReadCons(r: Reader, c: Octet, rest: Text)
    ensures Read(r, [c] + rest) == Read(Char(r, c), rest)
  {
    assert ([c] + rest)[1..] == rest;
  }

  lemma DispatchedWeight(message: Text)
    ensures Weight(Dispatched(message)) <= |message| + 1
    ensures Weight(Dispatched(message)) == |message| + 1 <==> Plain(message)
  {
    if Plain(message) {
      PlainIsDispatched(message);
    } else {
      var i := FirstBreak(message);
      BrokenWeighsLess(message, i);
    }
  }

  lemma {:induction false} FirstBreak(message: Text) returns (i: nat)
    requires !Plain(message)
    ensures i < |message| && Break(message[i]) && Plain(message[..i])
  {
    if Break(message[0]) {
      i := 0;
    } else {
      i := FirstBreak(message[1..]);
      i := i + 1;
    }
  }

  lemma {:induction false} WeightAppend(s: seq<Text>, t: seq<Text>)
    ensures Weight(s + t) == Weight(s) + Weight(t)
  {
    if t == [] {
      assert s + t == s;
    } else {
      WeightAppend(s, t[..|t| - 1]);
      assert (s + t)[..|s + t| - 1] == s + t[..|t| - 1];
    }
  }

  lemma SingleWeight(message: Text)
    ensures Weight([message]) == |message| + 1
  {
    var s := [message];
    assert s[..|s| - 1] == s[..0];
    assert Weight(s[..0]) == 0;
  }

  lemma {:induction false} AllWeight(messages: seq<Text>)
    ensures Weight(AllDispatched(messages)) <= Weight(messages)
    ensures Weight(AllDispatched(messages)) == Weight(messages) <==> forall m | m in messages :: Plain(m)
    decreases |messages|
  {
    if messages != [] {
      var rest := messages[1..];
      AllWeight(rest);
      DispatchedWeight(messages[0]);
      WeightAppend(Dispatched(messages[0]), AllDispatched(rest));
      WeightAppend([messages[0]], rest);
      assert [messages[0]] + rest == messages;
      SingleWeight(messages[0]);
    }
  }

  lemma {:induction false} AllPlain(messages: seq<Text>)
    requires forall m | m in messages :: Plain(m)
    ensures AllDispatched(messages) == messages
  {
    if messages != [] {
      PlainIsDispatched(messages[0]);
      AllPlain(messages[1..]);
    }
  }

  /** A client recovers exactly the messages from their frames if and only if none has a line break in it. */
  lemma FramingRoundTrip(messages: seq<Text>)
    ensures Parse(Frames(messages)) == messages <==> forall m | m in messages :: Plain(m)
  {
    ParseFrames(START, messages);
    assert [] + AllDispatched(messages) == AllDispatched(messages);
    AllWeight(messages);
    if forall m | m in messages :: Plain(m) {
      AllPlain(messages);
    }
  }
}
