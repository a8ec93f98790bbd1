/**
 Who owns which path: nodes register with the server when they open and leave when they close,
 also when their own open had failed.
 */
module Registry {
  import opened Common
  import opened TextOrder
  import opened Routes

  // ----- The table operations -----

  function Position(t: Table, key: Text): (i: nat)
    ensures i <= |t| && (i < |t| ==> t[i].key == key)
    ensures i == |t| ==> forall j | 0 <= j < |t| :: t[j].key != key
  {
    if t == [] || t[0].key == key then 0 else 1 + Position(t[1..], key)
  }

  function Insert(t: Table, e: Entry): Table {
    var i := UpperBound(t, e.key);
    t[..i] + [e] + t[i..]
  }

  function Add(t: Table, key: Text, node: Node): (Table, Code) {
    if Position(t, key) < |t| then (t, EEXIST) else (Insert(t, Entry(key, node)), Ok)
  }

  function Remove(t: Table, key: Text, node: Node): (Table, Code) {
    var i := Position(t, key);
    if i == |t| then (t, ENOENT)
    else if t[i].node != node then (t, EINVAL)
    else (t[..i] + t[i + 1..], Ok)
  }

  function Lookup(exact: Table, wild: Table, uri: Text): Option<Node> {
    var i := Position(exact, uri);
    if i < |exact| then Some(exact[i].node)
    else
      match Probe(wild, uri)
      case Some(j) => Some(wild[j].node)
      case None => None
  }

  lemma UniqueKeys(t: Table, d: Entry, e: Entry)
    requires Sorted(t) && d in t && e in t && d.key == e.key
    ensures d == e
  {
    var i :| 0 <= i < |t| && t[i] == d;
    var j :| 0 <= j < |t| && t[j] == e;
    Total(d.key, e.key);
  }

  lemma PositionOf(t: Table, e: Entry)
    requires Sorted(t) && e in t
    ensures Position(t, e.key) < |t| && t[Position(t, e.key)] == e
  {
    var i := Position(t, e.key);
    UniqueKeys(t, t[i], e);
  }

  lemma BelowBound(t: Table, key: Text, j: nat)
    requires Position(t, key) == |t| && j < UpperBound(t, key)
    ensures Less(t[j].key, key)
  {
    Total(t[j].key, key);
  }

  lemma InsertOrder(t: Table, e: Entry, a: Table, b: Table)
    requires Sorted(t) && Position(t, e.key) == |t|
    requires a == t[..UpperBound(t, e.key)] && b == t[UpperBound(t, e.key)..]
    ensures t == a + b && Insert(t, e) == a + [e] + b
    ensures forall i | 0 <= i < |a| :: Less(a[i].key, e.key)
    ensures forall i | 0 <= i < |b| :: Less(e.key, b[i].key)
  {
    hide Less, Position, Sorted, UpperBound;
    AboveBound(t, e.key);
    forall i | 0 <= i < |a|
      ensures Less(a[i].key, e.key)
    {
      BelowBound(t, e.key, i);
    }
  }

  lemma InsertedMembers(a: Table, e: Entry, b: Table)
    ensures forall d :: d in a + [e] + b <==> d in a + b || d == e
  {
    assert forall d :: d in a + b <==> d in a || d in b;
    assert forall d :: d in a + [e] + b <==> d in a + [e] || d in b;
    assert forall d :: d in a + [e] <==> d in a || d == e;
  }

  lemma InsertedOrder(a: Table, e: Entry, b: Table)
    requires Sorted(a + b)
    requires forall i | 0 <= i < |a| :: Less(a[i].key, e.key)
    requires forall i | 0 <= i < |b| :: Less(e.key, b[i].key)
    ensures Sorted(a + [e] + b)
  {
    hide Less;
    var t, t', n := a + b, a + [e] + b, |a|;
    forall i, j | 0 <= i < j < |t'|
      ensures Less(t'[i].key, t'[j].key)
    {
      if i == n {
        assert t'[j] == b[j - n - 1];
      } else if j == n {
        assert t'[i] == a[i];
      } else {
        assert t'[i] == t[if i < n then i else i - 1] && t'[j] == t[if j < n then j else j - 1];
      }
    }
  }

  lemma InsertSorted(t: Table, e: Entry)
    requires Sorted(t) && Position(t, e.key) == |t|
    ensures Sorted(Insert(t, e))
    ensures forall d :: d in Insert(t, e) <==> d in t || d == e
  {
    var a, b := t[..UpperBound(t, e.key)], t[UpperBound(t, e.key)..];
    InsertOrder(t, e, a, b);
    hide Less, Position, UpperBound, Sorted, Insert;
    InsertedOrder(a, e, b);
    InsertedMembers(a, e, b);
  }

  lemma EraseSorted(t: Table, i: nat)
    requires Sorted(t) && i < |t|
    ensures Sorted(t[..i] + t[i + 1..])
    ensures forall d :: d in t[..i] + t[i + 1..] <==> d in t && d != t[i]
  {
    hide Less, Sorted;
    var a, e, b := t[..i], t[i], t[i + 1..];
    assert t == a + [e] + b;
    OnlyOnce(t, i);
    InsertedMembers(a, e, b);
    RestSorted(t, i);
  }

  lemma OnlyOnce(t: Table, i: nat)
    requires Sorted(t) && i < |t|
    ensures t[i] !in t[..i] && t[i] !in t[i + 1..]
  {
    Total(t[i].key, t[i].key);
    hide Less;
  }

  lemma RestSorted(t: Table, i: nat)
    requires Sorted(t) && i < |t|
    ensures Sorted(t[..i] + t[i + 1..])
  {
    hide Less;
    var t' := t[..i] + t[i + 1..];
    forall j, k | 0 <= j < k < |t'|
      ensures Less(t'[j].key, t'[k].key)
    {
      assert t'[j] == t[if j < i then j else j + 1] && t'[k] == t[if k < i then k else k + 1];
    }
  }

  predicate HasKey(t: Table, key: Text) { exists i :: 0 <= i < |t| && t[i].key == key }

  /** An entry is added exactly if its key is free, and nothing else comes or goes. */
  lemma AddMeans(t: Table, key: Text, node: Node)
    ensures var (t', code) := Add(t, key, node);
            && code == (if HasKey(t, key) then EEXIST else Ok)
            && (code == Ok ==> forall e :: e in t' <==> e in t || e == Entry(key, node))
            && (code != Ok ==> t' == t)
            && (Sorted(t) ==> Sorted(t'))
  {
    var i := Position(t, key);
    if i == |t| {
      var b := UpperBound(t, key);
      assert t == t[..b] + t[b..];
      InsertedMembers(t[..b], Entry(key, node), t[b..]);
      if Sorted(t) {
        InsertSorted(t, Entry(key, node));
      }
    }
  }

  /** Only a node's own entry can be removed, and the answer tells a missing key from another's. */
  lemma RemoveAnswers(t: Table, key: Text, node: Node)
    requires Sorted(t)
    ensures var (t', code) := Remove(t, key, node);
            && (code == Ok <==> Entry(key, node) in t)
            && (code == ENOENT <==> !HasKey(t, key))
            && (code == Ok || code == ENOENT || code == EINVAL)
            && (code != Ok ==> t' == t)
  {
    var i := Position(t, key);
    if i < |t| {
      assert t[i] in t;
      if Entry(key, node) in t {
        PositionOf(t, Entry(key, node));
      }
      assert t[i].node == node ==> t[i] == Entry(key, node);
    }
  }

  // ----- Prefixes -----

  /** A node's prefix: always rooted, a final star making it a wildcard. */
  function Normalise(host: Text): (r: (Text, bool))
    ensures r.0 != [] && r.0[0] == '/'
    ensures r.0 + (if r.1 then ['*'] else []) == if host != [] && host[0] == '/' then host else ['/'] + host
    ensures !r.1 ==> r.0[|r.0| - 1] != '*'
  {
    var rooted: Text := if host == [] then ['/'] else if host[0] != '/' then ['/'] + host else host;
    var last := |rooted| - 1;
    if rooted[last] == '*' then (rooted[..last], true) else (rooted, false)
  }

  /** Hosts share an entry exactly if they differ at most in the leading slash. */
  lemma SamePrefix(g: Text, h: Text)
    ensures Normalise(g) == Normalise(h) <==>
            (if g != [] && g[0] == '/' then g else ['/'] + g) == (if h != [] && h[0] == '/' then h else ['/'] + h)
  {
    var r, s := Normalise(g), Normalise(h);
    if r.0 + (if r.1 then ['*'] else []) == s.0 + (if s.1 then ['*'] else []) {
      var all := r.0 + (if r.1 then ['*'] else []);
      assert r.1 <==> all[|all| - 1] == '*';
      assert s.1 <==> all[|all| - 1] == '*';
      assert r.0 == all[..|r.0|] && s.0 == all[..|s.0|];
    }
  }

  // ----- Runs of opens and closes -----

  datatype Kind = HttpNode | WsNode | PubNode

  datatype Conf = Conf(kind: Kind, host: Text) {
    function Prefix(): Text { Normalise(host).0 }
    predicate Wildcard() { Normalise(host).1 }
  }

  function Pointer(confs: seq<Conf>, n: nat): (p: Node)
    requires n < |confs|
    ensures p.id == n
    ensures (confs[n].kind == HttpNode <==> p.Http?) && (confs[n].kind == WsNode <==> p.Ws?)
    ensures confs[n].kind == PubNode <==> p.Pub?
  {
    match confs[n].kind
    case HttpNode => Http(n)
    case WsNode => Ws(n)
    case PubNode => Pub(n)
  }

  function EntryOf(confs: seq<Conf>, n: nat): Entry
    requires n < |confs|
  {
    Entry(confs[n].Prefix(), Pointer(confs, n))
  }

  /** A node whose open failed still has its close called. */
  datatype Phase = Closed | Opened | Failed

  datatype Reg = Reg(exact: Table, wild: Table, phase: seq<Phase>)

  datatype Event = Open(n: nat) | Close(n: nat)

  function Init(confs: seq<Conf>): Reg {
    Reg([], [], seq(|confs|, _ => Closed))
  }

  function TableOf(r: Reg, wildcard: bool): Table { if wildcard then r.wild else r.exact }

  function WithTable(r: Reg, wildcard: bool, t: Table): Reg {
    if wildcard then r.(wild := t) else r.(exact := t)
  }

  function Step(confs: seq<Conf>, r: Reg, e: Event): (r': Reg)
    requires |r.phase| == |confs|
    ensures |r'.phase| == |confs|
  {
    if e.n >= |confs| then r
    else
      var c := confs[e.n];
      var t := TableOf(r, c.Wildcard());
      match e
      case Open(n) =>
        if r.phase[n] != Closed then r
        else
          var (t', code) := Add(t, c.Prefix(), Pointer(confs, n));
          WithTable(r, c.Wildcard(), t').(phase := r.phase[n := if code == Ok then Opened else Failed])
      case Close(n) =>
        if r.phase[n] == Closed then r
        else
          var (t', code) := Remove(t, c.Prefix(), Pointer(confs, n));
          WithTable(r, c.Wildcard(), t').(phase := r.phase[n := Closed])
  }

  /** A table holds exactly the entries of the open nodes of its kind. */
  ghost predicate Owned(confs: seq<Conf>, r: Reg, wildcard: bool)
    requires |r.phase| == |confs|
  {
    var t := TableOf(r, wildcard);
    && Sorted(t)
    && (forall n | 0 <= n < |confs| && r.phase[n] == Opened && confs[n].Wildcard() == wildcard ::
          EntryOf(confs, n) in t)
    && (forall e | e in t ::
          && e.node.id < |confs| && r.phase[e.node.id] == Opened
          && confs[e.node.id].Wildcard() == wildcard && e == EntryOf(confs, e.node.id))
  }

  ghost predicate Inv(confs: seq<Conf>, r: Reg) {
    |r.phase| == |confs| && Owned(confs, r, true) && Owned(confs, r, false)
  }

  lemma OwnedElsewhere(confs: seq<Conf>, r: Reg, r': Reg, wildcard: bool, n: nat)
    requires |r.phase| == |r'.phase| == |confs| && n < |confs| && confs[n].Wildcard() != wildcard
    requires Owned(confs, r, wildcard) && TableOf(r', wildcard) == TableOf(r, wildcard)
    requires r'.phase == r.phase[n := r'.phase[n]]
    ensures Owned(confs, r', wildcard)
  {
    hide Sorted, Normalise;
  }

  /** A node comes or goes with its entry, and one that fails to open changes nothing. */
  lemma OwnedHere(confs: seq<Conf>, r: Reg, r': Reg, n: nat)
    requires |r.phase| == |r'.phase| == |confs| && n < |confs| && r'.phase == r.phase[n := r'.phase[n]]
    requires Owned(confs, r, confs[n].Wildcard()) && Sorted(TableOf(r', confs[n].Wildcard()))
    requires var t, t' := TableOf(r, confs[n].Wildcard()), TableOf(r', confs[n].Wildcard());
             var e := EntryOf(confs, n);
             forall d :: d in t' <==> (d in t && d != e) || (d == e && r'.phase[n] == Opened)
    ensures Owned(confs, r', confs[n].Wildcard())
  {
    hide Sorted, Normalise;
    var w, e := confs[n].Wildcard(), EntryOf(confs, n);
    var t' := TableOf(r', w);
    forall d | d in t'
      ensures d.node.id < |confs| && r'.phase[d.node.id] == Opened
      ensures confs[d.node.id].Wildcard() == w && d == EntryOf(confs, d.node.id)
    {
      assert d != e ==> d.node.id != n;
    }
    forall m | 0 <= m < |confs| && r'.phase[m] == Opened && confs[m].Wildcard() == w
      ensures EntryOf(confs, m) in t'
    {
      assert m != n ==> EntryOf(confs, m) != e;
    }
  }

  lemma OpenInv(confs: seq<Conf>, r: Reg, n: nat)
    requires Inv(confs, r) && n < |confs| && r.phase[n] == Closed
    ensures Inv(confs, Step(confs, r, Open(n)))
  {
    var w := confs[n].Wildcard();
    var t, e := TableOf(r, w), EntryOf(confs, n);
    var r' := Step(confs, r, Open(n));
    if Position(t, confs[n].Prefix()) == |t| {
      InsertSorted(t, e);
    }
    assert e !in t;
    hide Sorted, Normalise, Insert, Position, Owned, EntryOf;
    OwnedElsewhere(confs, r, r', !w, n);
    OwnedHere(confs, r, r', n);
  }

  lemma RemoveMeans(t: Table, e: Entry)
    requires Sorted(t)
    ensures var t' := Remove(t, e.key, e.node).0;
            Sorted(t') && forall d :: d in t' <==> d in t && d != e
  {
    var i := Position(t, e.key);
    if i < |t| && t[i].node == e.node {
      assert t[i] == e;
      EraseSorted(t, i);
    } else if e in t {
      PositionOf(t, e);
    }
  }

  /** Closing takes out the node's own entry, and nothing if it never had one. */
  lemma CloseInv(confs: seq<Conf>, r: Reg, n: nat)
    requires Inv(confs, r) && n < |confs| && r.phase[n] != Closed
    ensures Inv(confs, Step(confs, r, Close(n)))
  {
    var w := confs[n].Wildcard();
    var r' := Step(confs, r, Close(n));
    RemoveMeans(TableOf(r, w), EntryOf(confs, n));
    assert EntryOf(confs, n) == Entry(confs[n].Prefix(), Pointer(confs, n));
    hide Sorted, Normalise, Remove, Owned, EntryOf;
    OwnedElsewhere(confs, r, r', !w, n);
    OwnedHere(confs, r, r', n);
  }

  /** In particular, closing a node whose open failed removes nobody's entry. */
  lemma FailedCloseRemovesNothing(confs: seq<Conf>, r: Reg, n: nat)
    requires Inv(confs, r) && n < |confs| && r.phase[n] == Failed
    ensures Step(confs, r, Close(n)) == r.(phase := r.phase[n := Closed])
  {
    hide Sorted, Normalise;
    var t := TableOf(r, confs[n].Wildcard());
    var i := Position(t, confs[n].Prefix());
    if i < |t| {
      assert t[i] in t;
    }
  }

  function Run(confs: seq<Conf>, r: Reg, es: seq<Event>): (r': Reg)
    requires |r.phase| == |confs|
    ensures |r'.phase| == |confs|
    decreases |es|
  {
    if es == [] then r else Run(confs, Step(confs, r, es[0]), es[1..])
  }

  lemma {:induction false} RunInv(confs: seq<Conf>, r: Reg, es: seq<Event>)
    requires Inv(confs, r)
    ensures Inv(confs, Run(confs, r, es))
    decreases |es|
  {
    if es != [] {
      var e := es[0];
      if e.n < |confs| {
        if e.Open? && r.phase[e.n] == Closed {
          OpenInv(confs, r, e.n);
        } else if e.Close? && r.phase[e.n] != Closed {
          CloseInv(confs, r, e.n);
        }
      }
      hide Inv, Step;
      RunInv(confs, Step(confs, r, e), es[1..]);
    }
  }

  lemma OwnersAt(confs: seq<Conf>, r: Reg, m: nat, n: nat)
    requires Inv(confs, r) && m < |confs| && n < |confs|
    ensures EntryOf(confs, n) in TableOf(r, confs[n].Wildcard()) <==> r.phase[n] == Opened
    ensures (r.phase[m] == r.phase[n] == Opened && confs[m].Wildcard() == confs[n].Wildcard()
             && confs[m].Prefix() == confs[n].Prefix()) ==> m == n
  {
    var t := TableOf(r, confs[n].Wildcard());
    var d, e := EntryOf(confs, m), EntryOf(confs, n);
    if d in t && e in t && d.key == e.key {
      UniqueKeys(t, d, e);
    }
    hide Normalise, Sorted;
  }

  /**
   After any run of opens and closes the tables hold exactly the open nodes, under their own
   prefixes, and no two open nodes share a kind of path and a prefix.
   */
  lemma OneOwner(confs: seq<Conf>, es: seq<Event>, m: nat, n: nat)
    requires m < |confs| && n < |confs|
    ensures var r := Run(confs, Init(confs), es);
            && (EntryOf(confs, n) in TableOf(r, confs[n].Wildcard()) <==> r.phase[n] == Opened)
            && ((r.phase[m] == r.phase[n] == Opened && confs[m].Wildcard() == confs[n].Wildcard()
                 && confs[m].Prefix() == confs[n].Prefix()) ==> m == n)
  {
    RunInv(confs, Init(confs), es);
    hide Run, Inv, EntryOf, Normalise;
    OwnersAt(confs, Run(confs, Init(confs), es), m, n);
  }

  /** Open wildcard node n matches the path, and no open wildcard node matches more of it. */
  ghost predicate BestWildcard(confs: seq<Conf>, r: Reg, uri: Text, n: nat)
    requires |r.phase| == |confs|
  {
    && n < |confs| && r.phase[n] == Opened && confs[n].Wildcard() && confs[n].Prefix() <= uri
    && forall m | 0 <= m < |confs| && r.phase[m] == Opened && confs[m].Wildcard() && confs[m].Prefix() <= uri ::
         |confs[m].Prefix()| <= |confs[n].Prefix()|
  }

  /**
   After any run, a request is served by an open node: the one registered for exactly its path if
   there is one, and otherwise, if by any, by the open wildcard node that matches most of it.
   */
  lemma ServedByOpenNode(confs: seq<Conf>, es: seq<Event>, uri: Text)
    ensures var r := Run(confs, Init(confs), es); var found := Lookup(r.exact, r.wild, uri);
            && (forall n | 0 <= n < |confs| && r.phase[n] == Opened && !confs[n].Wildcard() && confs[n].Prefix() == uri ::
                  found == Some(Pointer(confs, n)))
            && (found.Some? ==>
                  var n := found.value.id;
                  && n < |confs| && r.phase[n] == Opened && found == Some(Pointer(confs, n))
                  && (if confs[n].Wildcard() then BestWildcard(confs, r, uri, n) else confs[n].Prefix() == uri))
  {
    var r := Run(confs, Init(confs), es);
    RunInv(confs, Init(confs), es);
    var i := Position(r.exact, uri);
    forall n | 0 <= n < |confs| && r.phase[n] == Opened && !confs[n].Wildcard() && confs[n].Prefix() == uri
      ensures Lookup(r.exact, r.wild, uri) == Some(Pointer(confs, n))
    {
      PositionOf(r.exact, EntryOf(confs, n));
    }
    if i < |r.exact| {
      assert r.exact[i] in r.exact;
    } else if Probe(r.wild, uri).Some? {
      WildcardIsBest(confs, r, uri, Probe(r.wild, uri).value);
    }
  }

  lemma WildcardIsBest(confs: seq<Conf>, r: Reg, uri: Text, j: nat)
    requires Inv(confs, r) && Probe(r.wild, uri) == Some(j)
    ensures var n := r.wild[j].node.id;
            BestWildcard(confs, r, uri, n) && r.wild[j].node == Pointer(confs, n)
  {
    assert r.wild[j] in r.wild;
    FoundIsLongest(r.wild, uri, j);
    forall m | 0 <= m < |confs| && r.phase[m] == Opened && confs[m].Wildcard() && confs[m].Prefix() <= uri
      ensures |confs[m].Prefix()| <= |r.wild[j].key|
    {
      PositionOf(r.wild, EntryOf(confs, m));
    }
  }

  /**
   And after any run a request is turned away exactly if no open node has its very path, and either
   no open wildcard matches it or another open wildcard hides the best match.
   */
  lemma TurnedAwayExactly(confs: seq<Conf>, es: seq<Event>, uri: Text)
    ensures var r := Run(confs, Init(confs), es);
            Lookup(r.exact, r.wild, uri) == None <==>
            && (forall n | 0 <= n < |confs| && r.phase[n] == Opened && !confs[n].Wildcard() :: confs[n].Prefix() != uri)
            && (Hidden(r.wild, uri) ||
                forall n | 0 <= n < |confs| && r.phase[n] == Opened && confs[n].Wildcard() :: !(confs[n].Prefix() <= uri))
  {
    var r := Run(confs, Init(confs), es);
    RunInv(confs, Init(confs), es);
    hide Run, Init, Normalise, Pointer, Sorted, Hidden, Probe;
    ExactMatches(confs, r, uri);
    WildMatches(confs, r, uri);
  }

  lemma ExactMatches(confs: seq<Conf>, r: Reg, uri: Text)
    requires Inv(confs, r)
    ensures Position(r.exact, uri) == |r.exact| <==>
            forall n | 0 <= n < |confs| && r.phase[n] == Opened && !confs[n].Wildcard() :: confs[n].Prefix() != uri
  {
    hide Normalise, Pointer;
    var i := Position(r.exact, uri);
    if i < |r.exact| {
      assert r.exact[i] in r.exact;
    } else {
      forall n | 0 <= n < |confs| && r.phase[n] == Opened && !confs[n].Wildcard()
        ensures confs[n].Prefix() != uri
      {
        PositionOf(r.exact, EntryOf(confs, n));
      }
    }
  }

  lemma WildMatches(confs: seq<Conf>, r: Reg, uri: Text)
    requires Inv(confs, r)
    ensures Probe(r.wild, uri) == None <==>
            Hidden(r.wild, uri) ||
            forall n | 0 <= n < |confs| && r.phase[n] == Opened && confs[n].Wildcard() :: !(confs[n].Prefix() <= uri)
  {
    hide Normalise, Pointer;
    ProbeExact(r.wild, uri);
    if Probe(r.wild, uri).Some? {
      FoundIsLongest(r.wild, uri, Probe(r.wild, uri).value);
    }
    forall n | 0 <= n < |confs| && r.phase[n] == Opened && confs[n].Wildcard()
      ensures exists k :: 0 <= k < |r.wild| && r.wild[k].key == confs[n].Prefix()
    {
      PositionOf(r.wild, EntryOf(confs, n));
    }
    assert forall k | 0 <= k < |r.wild| :: r.wild[k] in r.wild;
  }

  // ----- Who is open, told by the opens and closes alone -----

  function Rooted(host: Text): Text {
    if host != [] && host[0] == '/' then host else ['/'] + host
  }

  /** Another node that is open has the same rooted host. */
  ghost predicate Taken(confs: seq<Conf>, phase: seq<Phase>, n: nat)
    requires |phase| == |confs| && n < |confs|
  {
    exists m :: 0 <= m < |confs| && phase[m] == Opened && Rooted(confs[m].host) == Rooted(confs[n].host)
  }

  /** An open of a closed node succeeds unless its host is taken, a close always does, nothing else changes. */
  ghost function PhaseStep(confs: seq<Conf>, phase: seq<Phase>, e: Event): (phase': seq<Phase>)
    requires |phase| == |confs|
    ensures |phase'| == |confs|
  {
    if e.n >= |confs| then phase
    else
      match e
      case Open(n) => if phase[n] != Closed then phase else phase[n := if Taken(confs, phase, n) then Failed else Opened]
      case Close(n) => phase[n := Closed]
  }

  ghost function Phases(confs: seq<Conf>, es: seq<Event>): (phase: seq<Phase>)
    ensures |phase| == |confs|
  {
    if es == [] then seq(|confs|, _ => Closed)
    else PhaseStep(confs, Phases(confs, es[..|es| - 1]), es[|es| - 1])
  }

  lemma SameEntryKey(g: Conf, h: Conf)
    ensures Rooted(g.host) == Rooted(h.host) <==> g.Wildcard() == h.Wildcard() && g.Prefix() == h.Prefix()
  {
    SamePrefix(g.host, h.host);
    hide Normalise;
  }

  /** A node's key is in its table exactly if its host is taken. */
  lemma KeyIfTaken(confs: seq<Conf>, r: Reg, n: nat)
    requires Inv(confs, r) && n < |confs|
    ensures HasKey(TableOf(r, confs[n].Wildcard()), confs[n].Prefix()) <==> Taken(confs, r.phase, n)
  {
    hide Normalise, Sorted, Pointer, Rooted;
    var t := TableOf(r, confs[n].Wildcard());
    if i :| 0 <= i < |t| && t[i].key == confs[n].Prefix() {
      assert t[i] in t;
      SameEntryKey(confs[t[i].node.id], confs[n]);
    }
    if Taken(confs, r.phase, n) {
      var m :| 0 <= m < |confs| && r.phase[m] == Opened && Rooted(confs[m].host) == Rooted(confs[n].host);
      SameEntryKey(confs[m], confs[n]);
      assert EntryOf(confs, m) in t;
    }
  }

  lemma OpenSucceedsUnlessTaken(confs: seq<Conf>, r: Reg, n: nat)
    requires Inv(confs, r) && n < |confs| && r.phase[n] == Closed
    ensures Step(confs, r, Open(n)).phase == r.phase[n := if Taken(confs, r.phase, n) then Failed else Opened]
  {
    KeyIfTaken(confs, r, n);
    hide Normalise, Add, Inv, Taken, HasKey, Pointer;
    AddMeans(TableOf(r, confs[n].Wildcard()), confs[n].Prefix(), Pointer(confs, n));
  }

  lemma PhaseOfStep(confs: seq<Conf>, r: Reg, e: Event)
    requires Inv(confs, r)
    ensures Step(confs, r, e).phase == PhaseStep(confs, r.phase, e)
  {
    if e.Open? && e.n < |confs| && r.phase[e.n] == Closed {
      OpenSucceedsUnlessTaken(confs, r, e.n);
    }
    hide Normalise, Add, Remove, Taken, Inv;
  }

  lemma {:induction false} RunSnoc(confs: seq<Conf>, r: Reg, es: seq<Event>, e: Event)
    requires |r.phase| == |confs|
    ensures Run(confs, r, es + [e]) == Step(confs, Run(confs, r, es), e)
    decreases |es|
  {
    hide Step;
    if es == [] {
      assert (es + [e])[1..] == [];
    } else {
      RunSnoc(confs, Step(confs, r, es[0]), es[1..], e);
      assert (es + [e])[1..] == es[1..] + [e];
    }
  }

  /**
   After any run of opens and closes: a node is open exactly if the events say so, for which all that
   counts is whether its host, up to the leading slash, was taken by an open node when it opened.
   */
  lemma {:induction false} OpenIffEventsSaySo(confs: seq<Conf>, es: seq<Event>)
    ensures Run(confs, Init(confs), es).phase == Phases(confs, es)
  {
    if es != [] {
      var n := |es| - 1;
      OpenIffEventsSaySo(confs, es[..n]);
      assert es[..n] + [es[n]] == es;
      RunInv(confs, Init(confs), es[..n]);
      hide Run, Step, Inv, PhaseStep;
      RunSnoc(confs, Init(confs), es[..n], es[n]);
      PhaseOfStep(confs, Run(confs, Init(confs), es[..n]), es[n]);
    }
  }

  // ----- The server object -----

  class Server {
    var nodes: Table
    var nodesWildcard: Table

    constructor ()
      ensures nodes == [] && nodesWildcard == []
    {
      nodes, nodesWildcard := [], [];
    }

    static method Find(t: Table, key: Text) returns (i: nat)
      ensures i == Position(t, key)
    {
      i := 0;
      while i < |t| && t[i].key != key
        invariant i <= |t| && i + Position(t[i..], key) == Position(t, key)
      {
        assert t[i..][1..] == t[i + 1..];
        i := i + 1;
      }
    }

    static method Bound(t: Table, key: Text) returns (i: nat)
      ensures i == UpperBound(t, key)
    {
      i := 0;
      while i < |t| && !Less(key, t[i].key)
        invariant i <= |t| && i + UpperBound(t[i..], key) == UpperBound(t, key)
      {
        assert t[i..][1..] == t[i + 1..];
        i := i + 1;
      }
    }

    static method AddTo(t: Table, key: Text, node: Node) returns (t': Table, code: Code)
      ensures (t', code) == Add(t, key, node)
    {
      var i := Find(t, key);
      if i < |t| {
        return t, EEXIST;
      }
      var b := Bound(t, key);
      return t[..b] + [Entry(key, node)] + t[b..], Ok;
    }

    static method RemoveFrom(t: Table, key: Text, node: Node) returns (t': Table, code: Code)
      ensures (t', code) == Remove(t, key, node)
    {
      var i := Find(t, key);
      if i == |t| {
        return t, ENOENT;
      }
      if t[i].node != node {
        return t, EINVAL;
      }
      return t[..i] + t[i + 1..], Ok;
    }

    method NodeAdd(prefix: Text, wildcard: bool, node: Node) returns (code: Code)
      modifies this
      ensures nodes == if wildcard then old(nodes) else Add(old(nodes), prefix, node).0
      ensures nodesWildcard == if wildcard then Add(old(nodesWildcard), prefix, node).0 else old(nodesWildcard)
      ensures code == Add(if wildcard then old(nodesWildcard) else old(nodes), prefix, node).1
      ensures code == if HasKey(if wildcard then old(nodesWildcard) else old(nodes), prefix) then EEXIST else Ok
      ensures code == Ok ==> Entry(prefix, node) in if wildcard then nodesWildcard else nodes
    {
      AddMeans(if wildcard then nodesWildcard else nodes, prefix, node);
      if wildcard {
        nodesWildcard, code := AddTo(nodesWildcard, prefix, node);
      } else {
        nodes, code := AddTo(nodes, prefix, node);
      }
    }

    method NodeRemove(prefix: Text, wildcard: bool, node: Node) returns (code: Code)
      modifies this
      ensures nodes == if wildcard then old(nodes) else Remove(old(nodes), prefix, node).0
      ensures nodesWildcard == if wildcard then Remove(old(nodesWildcard), prefix, node).0 else old(nodesWildcard)
      ensures code == Remove(if wildcard then old(nodesWildcard) else old(nodes), prefix, node).1
    {
      if wildcard {
        nodesWildcard, code := RemoveFrom(nodesWildcard, prefix, node);
      } else {
        nodes, code := RemoveFrom(nodes, prefix, node);
      }
    }

    method NodeLookup(uri: Text) returns (node: Option<Node>)
      ensures node == Lookup(nodes, nodesWildcard, uri)
    {
      var i := Find(nodes, uri);
      if i < |nodes| {
        return Some(nodes[i].node);
      }
      var b := Bound(nodesWildcard, uri);
      if b == 0 {
        return None;
      }
      var key := nodesWildcard[b - 1].key;
      if |key| <= |uri| && uri[..|key|] == key {
        return Some(nodesWildcard[b - 1].node);
      }
      return None;
    }
  }
}
