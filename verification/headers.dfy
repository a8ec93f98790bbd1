/** Header lines: how the block that a response starts with is parsed, and how requests print theirs. */
module Headers {
  import opened Common

  type Fields = map<Text, Text>

  const STATUS: Text := "HTTP/"

  function LowerOctet(c: Octet): Octet {
    if 'A' <= c <= 'Z' then c - 'A' + 'a' else c
  }

  function AsciiLower(s: Text): (r: Text)
    ensures |r| == |s| && forall i | 0 <= i < |s| :: r[i] == LowerOctet(s[i])
  {
    seq(|s|, i requires 0 <= i < |s| => LowerOctet(s[i]))
  }

  /** By code points: the letters from 65 to 90 move up by 32, so none is left, and all else stays. */
  lemma LoweredOctets(s: Text)
    ensures var r := AsciiLower(s);
            && |r| == |s|
            && forall i | 0 <= i < |s| ::
                 && !(65 <= r[i] as int <= 90)
                 && r[i] as int == if 65 <= s[i] as int <= 90 then s[i] as int + 32 else s[i] as int
  {
  }

  method Lower(s: Text) returns (r: Text)
    ensures r == AsciiLower(s)
  {
    r := [];
    for i := 0 to |s|
      invariant |r| == i && forall j | 0 <= j < i :: r[j] == LowerOctet(s[j])
    {
      var c := s[i];
      r := r + [if 'A' <= c <= 'Z' then c - 'A' + 'a' else c];
    }
  }

  /** The position of the first occurrence of c, or the length. */
  function FirstIndex(s: Text, c: Octet): (i: nat)
    ensures i <= |s|
    ensures forall j | 0 <= j < i :: s[j] != c
    ensures i < |s| ==> s[i] == c
  {
    if s == [] || s[0] == c then 0 else 1 + FirstIndex(s[1..], c)
  }

  lemma FirstIndexIs(s: Text, c: Octet, i: nat)
    requires i <= |s| && (forall j | 0 <= j < i :: s[j] != c) && (i < |s| ==> s[i] == c)
    ensures FirstIndex(s, c) == i
  {
    if FirstIndex(s, c) < i {
      assert false;
    } else if i < FirstIndex(s, c) {
      assert false;
    }
  }

  method Find(s: Text, c: Octet) returns (i: nat)
    ensures i == FirstIndex(s, c)
  {
    i := 0;
    while i < |s| && s[i] != c
      invariant i <= |s| && forall j | 0 <= j < i :: s[j] != c
    {
      i := i + 1;
    }
    FirstIndexIs(s, c, i);
  }

  function TrimLeft(s: Text): (r: Text)
    ensures r != [] ==> r[0] != ' '
    ensures s == [] || s[0] != ' ' ==> r == s
  {
    if s != [] && s[0] == ' ' then TrimLeft(s[1..]) else s
  }

  /** What is cut off are spaces, and all the leading ones. */
  lemma {:induction false} TrimmedAreSpaces(s: Text) returns (n: nat)
    ensures n <= |s| && TrimLeft(s) == s[n..]
    ensures forall i | 0 <= i < n :: s[i] as int == 32
    ensures n < |s| ==> s[n] as int != 32
  {
    n := 0;
    if s != [] && s[0] == ' ' {
      var m := TrimmedAreSpaces(s[1..]);
      n := m + 1;
      assert s[1..][m..] == s[n..];
      assert forall i | 1 <= i < n :: s[i] == s[1..][i - 1];
    }
  }

  method Trim(s: Text) returns (r: Text)
    ensures r == TrimLeft(s)
  {
    r := s;
    while r != [] && r[0] == ' '
      invariant TrimLeft(r) == TrimLeft(s)
    {
      r := r[1..];
    }
  }

  /** A line as it is delivered, its two-byte line end still on. */
  function Content(line: Text): Text
    requires |line| >= 2
  {
    line[..|line| - 2]
  }

  predicate IsStatus(line: Text) { |line| >= 2 && STATUS <= Content(line) }

  predicate IsField(line: Text) { |line| >= 2 && !IsStatus(line) && ':' in Content(line) }

  function Name(line: Text): Text
    requires IsField(line)
  {
    var data := Content(line);
    AsciiLower(data[..FirstIndex(data, ':')])
  }

  function Value(line: Text): Text
    requires IsField(line)
  {
    var data := Content(line);
    assert FirstIndex(data, ':') < |data| by {
      var i :| 0 <= i < |data| && data[i] == ':';
    }
    TrimLeft(data[FirstIndex(data, ':') + 1..])
  }

  /** One line: a status line starts a new block, of the fields of a block the first of a name stays. */
  function Parse(h: Fields, line: Text): Fields {
    if IsStatus(line) then map[]
    else if IsField(line) && Name(line) !in h then h[Name(line) := Value(line)]
    else h
  }

  function ParseAll(lines: seq<Text>): Fields {
    if lines == [] then map[]
    else Parse(ParseAll(lines[..|lines| - 1]), lines[|lines| - 1])
  }

  /** The callback for one line; it answers 0, which stops the transfer, for a line without a line end. */
  method HandleLine(h: Fields, line: Text) returns (h': Fields, taken: nat)
    ensures h' == Parse(h, line)
    ensures taken == if |line| < 2 then 0 else |line|
  {
    if |line| < 2 {
      return h, 0;
    }
    var data := line[..|line| - 2];
    if data == [] {
      return h, |line|;
    }
    if |data| >= 5 && data[..5] == STATUS {
      return map[], |line|;
    }
    var sep := Find(data, ':');
    if sep == |data| {
      assert ':' !in data;
      return h, |line|;
    }
    assert data[sep] in data;
    var k := Lower(data[..sep]);
    var v := Trim(data[sep + 1..]);
    return if k in h then h else h[k := v], |line|;
  }

  // ----- What a line does, in the words of the wire -----

  lemma StatusLineClears(h: Fields, rest: Text)
    ensures Parse(h, "HTTP/" + rest + "\r\n") == map[]
  {
    var data: Text := "HTTP/" + rest;
    var line := data + "\r\n";
    assert Content(line) == data;
  }

  lemma ColonLineKind(k: Text, rest: Text)
    requires !("HTTP/" <= k)
    ensures var line := k + [':'] + rest + "\r\n"; var data := k + [':'] + rest;
            |line| >= 2 && Content(line) == data && data[|k|] == ':' && IsField(line) && !IsStatus(line)
  {
    var data := k + [':'] + rest;
    var line := data + "\r\n";
    assert line[..|data|] == data;
    assert data[|k|] == ':' && data[|k|] in data;
    if |k| >= 5 {
      assert data[..5] == k[..5];
    } else {
      assert |data| >= 5 ==> data[..5][|k|] == ':';
    }
  }

  lemma ColonLineParts(k: Text, rest: Text)
    requires ':' !in k && !("HTTP/" <= k)
    ensures var line := k + [':'] + rest + "\r\n";
            IsField(line) && Name(line) == AsciiLower(k) && Value(line) == TrimLeft(rest)
  {
    hide IsStatus, IsField, AsciiLower, TrimLeft;
    ColonLineKind(k, rest);
    var data := k + [':'] + rest;
    assert forall j | 0 <= j < |k| :: data[j] == k[j] && k[j] in k;
    FirstIndexIs(data, ':', |k|);
    assert data[..|k|] == k && data[|k| + 1..] == rest;
  }

  lemma FieldLineIsKept(h: Fields, k: Text, gap: Text, v: Text)
    requires ':' !in k && !("HTTP/" <= k)
    requires (forall c | c in gap :: c == ' ') && (v == [] || v[0] != ' ')
    ensures Parse(h, k + ":" + gap + v + "\r\n") == if AsciiLower(k) in h then h else h[AsciiLower(k) := v]
  {
    hide IsStatus, IsField, AsciiLower, TrimLeft, Name, Value;
    ColonLineKind(k, gap + v);
    ColonLineParts(k, gap + v);
    TrimGap(gap, v);
    assert k + ":" + gap + v == k + [':'] + (gap + v);
  }

  lemma {:induction false} TrimGap(gap: Text, v: Text)
    requires (forall c | c in gap :: c == ' ') && (v == [] || v[0] != ' ')
    ensures TrimLeft(gap + v) == v
  {
    if gap == [] {
      assert gap + v == v;
    } else {
      assert gap[0] in gap && forall c | c in gap[1..] :: c in gap;
      TrimGap(gap[1..], v);
      assert (gap + v)[1..] == gap[1..] + v;
    }
  }

  lemma OtherLinesAreSkipped(h: Fields, line: Text)
    requires |line| < 2 || (':' !in line[..|line| - 2] && !("HTTP/" <= line[..|line| - 2]))
    ensures Parse(h, line) == h
  {
  }

  /** Line i belongs to the last block: it is a field and no status line follows it. */
  ghost predicate Counts(lines: seq<Text>, i: nat) {
    i < |lines| && IsField(lines[i]) && forall j | i < j < |lines| :: !IsStatus(lines[j])
  }

  /** It is the first of its name there. */
  ghost predicate Leads(lines: seq<Text>, i: nat) {
    Counts(lines, i) && forall j | 0 <= j < i && Counts(lines, j) :: Name(lines[j]) != Name(lines[i])
  }

  lemma CountsPrefix(lines: seq<Text>, i: nat)
    requires lines != [] && i < |lines| - 1
    ensures var init := lines[..|lines| - 1];
            Counts(lines, i) <==> Counts(init, i) && !IsStatus(lines[|lines| - 1])
  {
    hide IsStatus, IsField;
    var last := |lines| - 1;
    var init := lines[..last];
    if Counts(init, i) && !IsStatus(lines[last]) {
      forall j | i < j < |lines|
        ensures !IsStatus(lines[j])
      {
        assert j < last ==> lines[j] == init[j];
      }
    }
    if Counts(lines, i) {
      assert forall j | i < j < last :: init[j] == lines[j];
    }
  }

  lemma LeadsPrefix(lines: seq<Text>, i: nat)
    requires lines != [] && i < |lines| - 1
    ensures var init := lines[..|lines| - 1];
            Leads(lines, i) <==> Leads(init, i) && !IsStatus(lines[|lines| - 1])
  {
    hide IsStatus, IsField, Counts;
    var init := lines[..|lines| - 1];
    forall j: nat | j <= i
      ensures init[j] == lines[j]
      ensures Counts(lines, j) <==> Counts(init, j) && !IsStatus(lines[|lines| - 1])
    {
      CountsPrefix(lines, j);
    }
  }

  /** Every field of the last block gets its name into the map. */
  lemma {:induction false} LastBlockIsKept(lines: seq<Text>, i: nat)
    requires Counts(lines, i)
    ensures Name(lines[i]) in ParseAll(lines)
  {
    hide Name, Value;
    if i < |lines| - 1 {
      CountsPrefix(lines, i);
      LastBlockIsKept(lines[..|lines| - 1], i);
    }
  }

  /** The map holds nothing but the first field of each name of the last block. */
  lemma {:induction false} OnlyLastBlockIsKept(lines: seq<Text>, k: Text) returns (i: nat)
    requires k in ParseAll(lines)
    ensures Leads(lines, i) && Name(lines[i]) == k && ParseAll(lines)[k] == Value(lines[i])
  {
    hide Name, Value;
    i := |lines| - 1;
    var init := lines[..i];
    if k in ParseAll(init) {
      i := OnlyLastBlockIsKept(init, k);
      LeadsPrefix(lines, i);
    } else {
      forall j: nat | j < i && Counts(lines, j)
        ensures Name(lines[j]) != k
      {
        CountsPrefix(lines, j);
        LastBlockIsKept(init, j);
      }
    }
  }

  /** So the value of a name is that of its first field in the last block, and of no other line. */
  lemma FirstFieldWins(lines: seq<Text>, i: nat)
    requires Leads(lines, i)
    ensures Name(lines[i]) in ParseAll(lines) && ParseAll(lines)[Name(lines[i])] == Value(lines[i])
  {
    LastBlockIsKept(lines, i);
    var j := OnlyLastBlockIsKept(lines, Name(lines[i]));
    if j < i {
      assert false;
    } else if i < j {
      assert false;
    }
  }

  /** Default headers with the overrides of a Connect message, the later of two winning. */
  function Merge(defaults: Fields, overrides: seq<(Text, Text)>): Fields {
    if overrides == [] then defaults
    else
      var last := overrides[|overrides| - 1];
      Merge(defaults, overrides[..|overrides| - 1])[last.0 := last.1]
  }

  /** It is the right-biased merge: the last override of a name counts, or else the default. */
  lemma {:induction false} MergeIsRightBiased(defaults: Fields, overrides: seq<(Text, Text)>, k: Text)
    ensures k in Merge(defaults, overrides) <==>
            k in defaults || exists i | 0 <= i < |overrides| :: overrides[i].0 == k
    ensures forall i | 0 <= i < |overrides| && overrides[i].0 == k
              && (forall j | i < j < |overrides| :: overrides[j].0 != k) ::
              Merge(defaults, overrides)[k] == overrides[i].1
    ensures k in defaults && (forall i | 0 <= i < |overrides| :: overrides[i].0 != k) ==>
              Merge(defaults, overrides)[k] == defaults[k]
  {
    if overrides != [] {
      var n := |overrides| - 1;
      var init := overrides[..n];
      MergeIsRightBiased(defaults, init, k);
      assert forall i | 0 <= i < n :: overrides[i] == init[i];
      assert overrides[n].0 == k || (k in Merge(defaults, overrides) <==> k in Merge(defaults, init));
    }
  }

  const COLON: Text := ": "
  const CRLF: Text := "\r\n"

  const NUL: Octet := '\0'

  /** What is left of a string that is handed on as a C string: it ends at its first NUL. */
  function CString(t: Text): (r: Text)
    ensures NUL !in r && r <= t
    ensures NUL !in t ==> r == t
  {
    t[..FirstIndex(t, NUL)]
  }

  /** How a request header goes over the wire. */
  function Print(k: Text, v: Text): Text { CString(k + COLON + v) + CRLF }

  ghost predicate Lists(order: seq<Text>, m: Fields) {
    && (forall i, j | 0 <= i < j < |order| :: order[i] != order[j])
    && (forall k :: k in order <==> k in m)
  }

  function PrintAll(order: seq<Text>, m: Fields): (lines: seq<Text>)
    requires forall k | k in order :: k in m
    ensures |lines| == |order| && forall i | 0 <= i < |order| :: lines[i] == Print(order[i], m[order[i]])
  {
    seq(|order|, i requires 0 <= i < |order| => Print(order[i], m[order[i]]))
  }

  /** The text on the wire: all the lines, one after the other. */
  function Wire(order: seq<Text>, m: Fields): Text
    requires forall k | k in order :: k in m
  {
    if order == [] then [] else Print(order[0], m[order[0]]) + Wire(order[1..], m)
  }

  predicate BreaksAt(t: Text, i: nat) { i + 1 < |t| && t[i] == '\r' && t[i + 1] == '\n' }

  predicate OneLine(t: Text) { forall i | 0 <= i < |t| :: !BreaksAt(t, i) }

  /** The position of the first line end, or the length. */
  function LineEnd(t: Text): (i: nat)
    ensures i <= |t| && (i < |t| ==> BreaksAt(t, i))
    ensures forall j | 0 <= j < i :: !BreaksAt(t, j)
  {
    if t == [] || BreaksAt(t, 0) then 0
    else
      assert forall j | 0 < j < |t| :: BreaksAt(t, j) <==> BreaksAt(t[1..], j - 1);
      1 + LineEnd(t[1..])
  }

  /** How a text is delivered: in lines, each with its line end; what has none is not delivered. */
  function Cut(t: Text): seq<Text>
    decreases |t|
  {
    var i := LineEnd(t);
    if i == |t| then [] else [t[..i + 2]] + Cut(t[i + 2..])
  }

  lemma CutLine(content: Text, rest: Text)
    requires OneLine(content)
    ensures Cut(content + CRLF + rest) == [content + CRLF] + Cut(rest)
  {
    var t := content + CRLF + rest;
    var i := LineEnd(t);
    assert BreaksAt(t, |content|);
    forall j | 0 <= j < |content|
      ensures !BreaksAt(t, j)
    {
      assert !BreaksAt(content, j);
    }
    assert i == |content|;
    assert t[..i + 2] == content + CRLF && t[i + 2..] == rest;
  }

  lemma OneLinePrinted(k: Text, v: Text)
    ensures OneLine(k + COLON + v) <==> OneLine(k) && OneLine(v)
  {
    var t := k + COLON + v;
    forall i | 0 <= i < |t|
      ensures BreaksAt(t, i) <==> (i < |k| && BreaksAt(k, i)) || (i >= |k| + 2 && BreaksAt(v, i - |k| - 2))
    {
    }
    forall i | 0 <= i < |v|
      ensures BreaksAt(v, i) <==> BreaksAt(t, i + |k| + 2)
    {
    }
  }

  lemma OneLinePrefix(t: Text, r: Text)
    requires OneLine(t) && r <= t
    ensures OneLine(r)
  {
    assert forall i | 0 <= i < |r| :: BreaksAt(r, i) ==> BreaksAt(t, i);
  }

  lemma CutPrinted(k: Text, v: Text, rest: Text)
    requires OneLine(k) && OneLine(v)
    ensures Cut(Print(k, v) + rest) == [Print(k, v)] + Cut(rest)
  {
    OneLinePrinted(k, v);
    OneLinePrefix(k + COLON + v, CString(k + COLON + v));
    hide Cut, OneLine, CString;
    CutLine(CString(k + COLON + v), rest);
  }

  lemma PrintAllCons(order: seq<Text>, m: Fields)
    requires order != [] && forall k | k in order :: k in m
    ensures PrintAll(order, m) == [Print(order[0], m[order[0]])] + PrintAll(order[1..], m)
  {
    hide Print;
  }

  /** If no header has a line end in it, the lines come as they were printed. */
  lemma {:induction false} CutWire(order: seq<Text>, m: Fields)
    requires forall k | k in order :: k in m && OneLine(k) && OneLine(m[k])
    ensures Cut(Wire(order, m)) == PrintAll(order, m)
  {
    hide Cut, OneLine, Print, PrintAll;
    if order == [] {
      CutNone();
      PrintNone(m);
    } else {
      var k, v := order[0], m[order[0]];
      assert k in order && forall l | l in order[1..] :: l in order;
      CutPrinted(k, v, Wire(order[1..], m));
      CutWire(order[1..], m);
      PrintAllCons(order, m);
    }
  }

  lemma CutNone()
    ensures Cut([]) == []
  {
  }

  lemma PrintNone(m: Fields)
    ensures PrintAll([], m) == []
  {
  }

  lemma {:induction false} WireHasNoNul(order: seq<Text>, m: Fields)
    requires forall k | k in order :: k in m
    ensures NUL !in Wire(order, m)
  {
    if order != [] {
      assert order[0] in order && forall l | l in order[1..] :: l in order;
      WireHasNoNul(order[1..], m);
    }
  }

  /** Whatever the text, no delivered line has a line end inside, nor a NUL that is not in the text. */
  lemma {:induction false} CutLines(t: Text)
    ensures forall line | line in Cut(t) :: |line| >= 2 && OneLine(Content(line))
    ensures NUL !in t ==> forall line | line in Cut(t) :: NUL !in line
    decreases |t|
  {
    var i := LineEnd(t);
    if i < |t| {
      CutLines(t[i + 2..]);
      assert Content(t[..i + 2]) == t[..i];
      assert forall j | 0 <= j < i :: BreaksAt(t[..i], j) ==> BreaksAt(t, j);
    }
  }

  /** No two names differ in case only. */
  ghost predicate CaseDistinct(m: Fields) {
    forall k, l | k in m && l in m && k != l :: AsciiLower(k) != AsciiLower(l)
  }

  ghost predicate IsLowered(r: Fields, m: Fields) {
    && (forall k | k in m :: AsciiLower(k) in r && r[AsciiLower(k)] == m[k])
    && (forall n | n in r :: exists k :: k in m && n == AsciiLower(k))
  }

  /** What the parser can make of a line. */
  predicate Readable(k: Text, v: Text) {
    ':' !in k && (v == [] || v[0] != ' ') && OneLine(k) && OneLine(v)
  }

  /** What a header must be like to be printed and read as itself. */
  predicate Plain(k: Text, v: Text) { Readable(k, v) && NUL !in k && NUL !in v }

  /** And what it must be like to survive among others. */
  predicate Clean(k: Text, v: Text) { Plain(k, v) && !(STATUS <= k) }

  /** No name from position i on reads as a status line. */
  predicate NoStatusFrom(order: seq<Text>, i: nat) {
    forall j | i <= j < |order| :: !(STATUS <= order[j])
  }

  /** Some spelling of the name comes after all names that read as a status line. */
  ghost predicate InLastBlock(order: seq<Text>, k: Text) {
    exists i: nat :: i < |order| && AsciiLower(order[i]) == AsciiLower(k) && NoStatusFrom(order, i)
  }

  /** Names that differ in case only have the same value. */
  ghost predicate Agree(m: Fields) {
    forall k, l | k in m && l in m && AsciiLower(k) == AsciiLower(l) :: m[k] == m[l]
  }

  function Joined(k: Text, v: Text): Text { k + COLON + v + CRLF }

  lemma PrintedWhole(k: Text, v: Text)
    requires NUL !in k && NUL !in v
    ensures Print(k, v) == Joined(k, v) == k + ": " + v + "\r\n"
  {
    assert NUL !in k + COLON + v;
  }

  lemma JoinedKind(k: Text, v: Text)
    ensures |Joined(k, v)| >= 2 && Content(Joined(k, v)) == k + COLON + v
    ensures IsStatus(Joined(k, v)) <==> STATUS <= k
    ensures !(STATUS <= k) ==> IsField(Joined(k, v))
  {
    var data := k + COLON + v;
    assert Joined(k, v)[..|data|] == data;
    assert data[|k|] == ':' && data[|k|] in data;
    if STATUS <= data && |k| < 5 {
      assert false;
    }
    assert STATUS <= data <==> STATUS <= k;
  }

  lemma JoinedLine(k: Text, v: Text)
    requires ':' !in k && !(STATUS <= k)
    ensures IsField(Joined(k, v))
    ensures Name(Joined(k, v)) == AsciiLower(k)
    ensures v == [] || v[0] != ' ' ==> Value(Joined(k, v)) == v
  {
    hide Joined, IsField, IsStatus, AsciiLower;
    var data := k + COLON + v;
    JoinedKind(k, v);
    assert forall j | 0 <= j < |k| :: data[j] == k[j] && k[j] in k;
    FirstIndexIs(data, ':', |k|);
    assert data[..|k|] == k;
    assert data[|k| + 1..] == [' '] + v;
    assert ([' '] + v)[1..] == v;
  }

  lemma OneLineParts(t: Text, i: nat)
    requires OneLine(t) && i <= |t|
    ensures OneLine(t[..i]) && OneLine(t[i..])
  {
    assert forall n | 0 <= n < i :: BreaksAt(t[..i], n) ==> BreaksAt(t, n);
    assert forall n | 0 <= n < |t| - i :: BreaksAt(t[i..], n) ==> BreaksAt(t, i + n);
  }

  lemma LowerKeeps(k: Text)
    ensures ':' in AsciiLower(k) <==> ':' in k
    ensures NUL in AsciiLower(k) <==> NUL in k
    ensures OneLine(AsciiLower(k)) <==> OneLine(k)
  {
    var r := AsciiLower(k);
    assert forall i | 0 <= i < |k| ::
      (r[i] == ':' <==> k[i] == ':') && (r[i] == NUL <==> k[i] == NUL) && r[i] in r && k[i] in k;
    assert forall i | 0 <= i < |k| :: BreaksAt(r, i) <==> BreaksAt(k, i);
  }

  /**
   Of any text, parsed names hold no colon, parsed values do not begin with a space, and neither has
   a line end; nor do they hold a NUL if there is none in the text.
   */
  lemma ParsedIsPlain(t: Text, n: Text)
    requires n in ParseAll(Cut(t))
    ensures Readable(n, ParseAll(Cut(t))[n])
    ensures NUL !in t ==> Plain(n, ParseAll(Cut(t))[n])
  {
    var lines := Cut(t);
    var i := OnlyLastBlockIsKept(lines, n);
    CutLines(t);
    assert lines[i] in lines;
    PartsArePlain(lines[i]);
  }

  lemma PartsArePlain(line: Text)
    requires IsField(line) && OneLine(Content(line))
    ensures Readable(Name(line), Value(line))
    ensures NUL !in line ==> NUL !in Name(line) && NUL !in Value(line)
  {
    var data := Content(line);
    var f := FirstIndex(data, ':');
    hide IsStatus, OneLine, AsciiLower;
    assert f < |data| by {
      var i :| 0 <= i < |data| && data[i] == ':';
    }
    assert ':' !in data[..f];
    LowerKeeps(data[..f]);
    OneLineParts(data, f);
    OneLineParts(data, f + 1);
    TrimmedOneLine(data[f + 1..]);
  }

  lemma TrimmedOneLine(t: Text)
    requires OneLine(t)
    ensures OneLine(TrimLeft(t))
    ensures NUL !in t ==> NUL !in TrimLeft(t)
  {
    var i := TrimmedAreSpaces(t);
    OneLineParts(t, i);
  }

  /** Plain headers are read line by line as what they are. */
  lemma PlainLines(order: seq<Text>, m: Fields)
    requires Lists(order, m) && forall k | k in m :: Plain(k, m[k])
    ensures Cut(Wire(order, m)) == PrintAll(order, m)
    ensures forall i: nat | i < |order| :: Counts(PrintAll(order, m), i) <==> NoStatusFrom(order, i)
    ensures forall i: nat | i < |order| && Counts(PrintAll(order, m), i) ::
              var line := PrintAll(order, m)[i];
              Name(line) == AsciiLower(order[i]) && Value(line) == m[order[i]]
  {
    hide Print, Name, Value, IsField, IsStatus, AsciiLower, Cut, Wire, OneLine, Counts;
    CutWire(order, m);
    forall i: nat | i < |order|
      ensures Counts(PrintAll(order, m), i) <==> NoStatusFrom(order, i)
    {
      CountsPrinted(order, m, i);
    }
    forall i: nat | i < |order| && Counts(PrintAll(order, m), i)
      ensures IsField(PrintAll(order, m)[i])
      ensures Name(PrintAll(order, m)[i]) == AsciiLower(order[i]) && Value(PrintAll(order, m)[i]) == m[order[i]]
    {
      PlainLine(order, m, i);
      assert NoStatusFrom(order, i);
    }
  }

  lemma PlainLine(order: seq<Text>, m: Fields, i: nat)
    requires (forall k | k in order :: k in m) && i < |order| && Plain(order[i], m[order[i]])
    ensures var line := PrintAll(order, m)[i];
            && (IsStatus(line) <==> STATUS <= order[i])
            && (IsField(line) <==> !IsStatus(line))
            && (IsField(line) ==> Name(line) == AsciiLower(order[i]) && Value(line) == m[order[i]])
  {
    hide Print, Joined, Name, Value, IsField, IsStatus, AsciiLower, OneLine;
    PrintedWhole(order[i], m[order[i]]);
    JoinedKind(order[i], m[order[i]]);
    if !(STATUS <= order[i]) {
      JoinedLine(order[i], m[order[i]]);
    }
    StatusIsNoField(PrintAll(order, m)[i]);
  }

  lemma CountsPrinted(order: seq<Text>, m: Fields, i: nat)
    requires Lists(order, m) && (forall k | k in m :: Plain(k, m[k])) && i < |order|
    ensures Counts(PrintAll(order, m), i) <==> NoStatusFrom(order, i)
  {
    hide Print, Name, Value, IsField, IsStatus, AsciiLower, Plain;
    var lines := PrintAll(order, m);
    forall j: nat | j < |order|
      ensures IsStatus(lines[j]) <==> STATUS <= order[j]
      ensures IsField(lines[j]) <==> !IsStatus(lines[j])
    {
      assert order[j] in order;
      PlainLine(order, m, j);
    }
  }

  lemma StatusIsNoField(line: Text)
    ensures IsStatus(line) ==> !IsField(line)
  {
  }

  /**
   The round trip, for any headers in any order: they come back from the wire, under lower-case
   names, exactly if each is plain, none of them is lost before a name that reads as a status line,
   and those whose names differ in case only have the same value.
   */
  lemma HeaderRoundTrip(order: seq<Text>, m: Fields)
    requires Lists(order, m)
    ensures IsLowered(ParseAll(Cut(Wire(order, m))), m) <==>
            (forall k | k in m :: Plain(k, m[k]) && InLastBlock(order, k)) && Agree(m)
  {
    hide ParseAll, Cut, Wire, AsciiLower, Plain, InLastBlock;
    if (forall k | k in m :: Plain(k, m[k]) && InLastBlock(order, k)) && Agree(m) {
      PlainReturns(order, m);
    }
    if IsLowered(ParseAll(Cut(Wire(order, m))), m) {
      forall k | k in m
        ensures Plain(k, m[k])
      {
        ReturnsOnlyIfPlain(order, m, k);
      }
      forall k | k in m
        ensures InLastBlock(order, k)
      {
        ReturnsOnlyFromLastBlock(order, m, k);
      }
    }
  }

  lemma PlainReturns(order: seq<Text>, m: Fields)
    requires Lists(order, m) && Agree(m)
    requires forall k | k in m :: Plain(k, m[k]) && InLastBlock(order, k)
    ensures IsLowered(ParseAll(Cut(Wire(order, m))), m)
  {
    var r := ParseAll(Cut(Wire(order, m)));
    hide Print, Name, Value, AsciiLower, Plain, Cut, Wire, ParseAll, InLastBlock, Agree;
    forall n | n in r
      ensures exists k :: k in m && n == AsciiLower(k) && r[n] == m[k]
    {
      var k := ReadFromOne(order, m, n);
    }
    forall k | k in m
      ensures AsciiLower(k) in r && r[AsciiLower(k)] == m[k]
    {
      IsRead(order, m, k);
      var l := ReadFromOne(order, m, AsciiLower(k));
      AgreeAt(m, k, l);
    }
  }

  lemma AgreeAt(m: Fields, k: Text, l: Text)
    requires Agree(m) && k in m && l in m && AsciiLower(k) == AsciiLower(l)
    ensures m[k] == m[l]
  {
  }

  lemma IsRead(order: seq<Text>, m: Fields, k: Text)
    requires Lists(order, m) && (forall l | l in m :: Plain(l, m[l])) && InLastBlock(order, k)
    ensures AsciiLower(k) in ParseAll(Cut(Wire(order, m)))
  {
    PlainLines(order, m);
    hide Print, Name, Value, AsciiLower, Plain, Cut, Wire, Counts, NoStatusFrom, ParseAll;
    var i: nat :| i < |order| && AsciiLower(order[i]) == AsciiLower(k) && NoStatusFrom(order, i);
    LastBlockIsKept(PrintAll(order, m), i);
  }

  lemma ReadFromOne(order: seq<Text>, m: Fields, n: Text) returns (k: Text)
    requires Lists(order, m) && (forall l | l in m :: Plain(l, m[l])) && n in ParseAll(Cut(Wire(order, m)))
    ensures k in m && n == AsciiLower(k) && ParseAll(Cut(Wire(order, m)))[n] == m[k]
    ensures InLastBlock(order, k)
  {
    PlainLines(order, m);
    hide Print, Name, Value, AsciiLower, Plain, Cut, Wire, Counts, NoStatusFrom, ParseAll;
    var i := OnlyLastBlockIsKept(PrintAll(order, m), n);
    k := order[i];
    assert Counts(PrintAll(order, m), i) && k in order;
    assert NoStatusFrom(order, i);
  }

  lemma ReturnsOnlyIfPlain(order: seq<Text>, m: Fields, k: Text)
    requires Lists(order, m) && k in m
    requires IsLowered(ParseAll(Cut(Wire(order, m))), m)
    ensures Plain(k, m[k])
  {
    WireHasNoNul(order, m);
    ParsedIsPlain(Wire(order, m), AsciiLower(k));
    LowerKeeps(k);
  }

  lemma ReturnsOnlyFromLastBlock(order: seq<Text>, m: Fields, k: Text)
    requires Lists(order, m) && (forall l | l in m :: Plain(l, m[l])) && k in m
    requires IsLowered(ParseAll(Cut(Wire(order, m))), m)
    ensures InLastBlock(order, k)
  {
    hide Plain, Cut, Wire, ParseAll, NoStatusFrom, AsciiLower;
    var l := ReadFromOne(order, m, AsciiLower(k));
    var i: nat :| i < |order| && AsciiLower(order[i]) == AsciiLower(l) && NoStatusFrom(order, i);
  }

  lemma CStringAppend(a: Text, b: Text)
    ensures CString(a + b) == if NUL in a then CString(a) else a + CString(b)
  {
    if NUL in a {
      assert a <= a + b;
      var i :| 0 <= i < |a| && a[i] == NUL;
      FirstIndexIs(a + b, NUL, FirstIndex(a, NUL));
    } else {
      assert forall i | 0 <= i < |a| :: (a + b)[i] == a[i] && a[i] in a;
      FirstIndexIs(a + b, NUL, |a| + FirstIndex(b, NUL));
    }
  }

  lemma Regroup(a: Text, b: Text, c: Text, d: Text, e: Text)
    ensures a + (b + c + d + e) == (a + b) + (c + (d + e))
  {
  }

  lemma LineEndPrints(k: Text, v: Text, l: Text, w: Text)
    ensures Print(k, v + CRLF + l + COLON + w) ==
            if NUL in k || NUL in v then Print(k, v) else Print(k, v) + Print(l, w)
  {
    hide CString;
    var first, rest := k + COLON + v, l + COLON + w;
    Regroup(k + COLON, v, CRLF, l + COLON, w);
    assert v + CRLF + l + COLON + w == v + CRLF + (l + COLON) + w;
    assert NUL in first <==> NUL in k || NUL in v;
    CStringAppend(first, CRLF + rest);
    CStringAppend(CRLF, rest);
    Assoc(first, CRLF, CString(rest));
    Assoc(first + CRLF, CString(rest), CRLF);
  }

  /** A value with a line end in it is delivered as two headers, unless a NUL comes before that. */
  lemma LineEndMakesTwo(k: Text, v: Text, l: Text, w: Text)
    requires OneLine(k) && OneLine(v) && OneLine(l) && OneLine(w)
    ensures Cut(Print(k, v + CRLF + l + COLON + w)) ==
            if NUL in k || NUL in v then [Print(k, v)] else [Print(k, v), Print(l, w)]
  {
    LineEndPrints(k, v, l, w);
    CutNone();
    hide Cut, OneLine, Print;
    CutPrinted(k, v, []);
    CutPrinted(k, v, Print(l, w));
    CutPrinted(l, w, []);
    assert Print(k, v) + [] == Print(k, v) && Print(l, w) + [] == Print(l, w);
  }

  lemma NulPrints(k: Text, v: Text, w: Text)
    ensures Print(k, v + [NUL] + w) == Print(k, v)
  {
    var first, rest := k + COLON + v, [NUL] + w;
    assert k + COLON + (v + [NUL] + w) == first + rest;
    CStringAppend(first, rest);
    assert rest[0] == NUL;
    assert CString(rest) == [];
    assert NUL !in first ==> CString(first) == first;
    assert first + [] == first;
  }

  lemma WireOne(k: Text, v: Text)
    ensures Wire([k], map[k := v]) == Print(k, v)
  {
    assert [k][1..] == [];
    assert Print(k, v) + [] == Print(k, v);
  }

  lemma CleanOne(k: Text, v: Text)
    requires Clean(k, v)
    ensures ParseAll(Cut(Print(k, v))) == map[AsciiLower(k) := v]
  {
    hide CString, Print, Cut, Wire, ParseAll, AsciiLower, Clean;
    WireOne(k, v);
    DistinctHeadersReturn([k], map[k := v]);
  }

  /** A header with a NUL in it is delivered as far as the NUL. */
  lemma NulCutsOff(k: Text, v: Text, w: Text)
    requires Clean(k, v)
    ensures ParseAll(Cut(Wire([k], map[k := v + [NUL] + w]))) == map[AsciiLower(k) := v]
  {
    hide CString, Print, Cut, Wire, ParseAll, AsciiLower, Clean;
    WireOne(k, v + [NUL] + w);
    NulPrints(k, v, w);
    CleanOne(k, v);
  }

  /** In particular headers whose names are distinct up to case come back exactly if each of them is clean. */
  lemma DistinctHeadersReturn(order: seq<Text>, m: Fields)
    requires Lists(order, m) && CaseDistinct(m)
    ensures IsLowered(ParseAll(Cut(Wire(order, m))), m) <==> forall k | k in m :: Clean(k, m[k])
  {
    HeaderRoundTrip(order, m);
    hide ParseAll, Cut, Wire, AsciiLower, Plain, IsLowered;
    assert Agree(m);
    forall k | k in m && InLastBlock(order, k)
      ensures !(STATUS <= k)
    {
      var i: nat :| i < |order| && AsciiLower(order[i]) == AsciiLower(k) && NoStatusFrom(order, i);
      assert order[i] in order && order[i] == k;
    }
    if forall k | k in m :: Clean(k, m[k]) {
      forall k | k in m
        ensures InLastBlock(order, k)
      {
        var i :| 0 <= i < |order| && order[i] == k;
        assert NoStatusFrom(order, i) by {
          assert forall j | i <= j < |order| :: order[j] in order;
        }
      }
    }
  }
}
