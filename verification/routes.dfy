/**
 The server's route tables: two ordered maps from prefixes to nodes, one for exact paths and one
 for wildcards, and the lookup that tries an exact key and then one neighbour in the other map.
 */
module Routes {
  import opened Common
  import opened TextOrder

  /** A pointer to a node, as the variant in the table holds it: its kind and its identity. */
  datatype Node = Http(id: nat) | Ws(id: nat) | Pub(id: nat)

  datatype Entry = Entry(key: Text, node: Node)

  type Table = seq<Entry>

  ghost predicate Sorted(t: Table) {
    forall i, j | 0 <= i < j < |t| :: Less(t[i].key, t[j].key)
  }

  /** The first position whose key is greater. */
  function UpperBound(t: Table, key: Text): (i: nat)
    ensures i <= |t|
    ensures forall j | 0 <= j < i :: !Less(key, t[j].key)
    ensures i < |t| ==> Less(key, t[i].key)
  {
    if t == [] || Less(key, t[0].key) then 0 else 1 + UpperBound(t[1..], key)
  }

  lemma AboveBound(t: Table, key: Text)
    requires Sorted(t)
    ensures forall j | UpperBound(t, key) <= j < |t| :: Less(key, t[j].key)
  {
    var i := UpperBound(t, key);
    forall j | i < j < |t|
      ensures Less(key, t[j].key)
    {
      Transitive(key, t[i].key, t[j].key);
    }
  }

  /** The wildcard part of the lookup: the last key that is not greater, if the path starts with it. */
  function Probe(t: Table, uri: Text): (r: Option<nat>)
    ensures r.Some? ==> r.value < |t|
  {
    var i := UpperBound(t, uri);
    if i > 0 && t[i - 1].key <= uri then Some(i - 1) else None
  }

  /** The simple specification: entry i has the longest key the path starts with. */
  ghost predicate Longest(t: Table, uri: Text, i: nat) {
    i < |t| && t[i].key <= uri && forall j | 0 <= j < |t| && t[j].key <= uri :: |t[j].key| <= |t[i].key|
  }

  /** The probe finds the longest match, and finds nothing only if nothing matches. */
  ghost predicate Correct(t: Table, uri: Text) {
    match Probe(t, uri)
    case Some(i) => Longest(t, uri, i)
    case None => forall j | 0 <= j < |t| :: !(t[j].key <= uri)
  }

  lemma {:induction false} LongestExists(t: Table, uri: Text, i: nat) returns (best: nat)
    requires i < |t| && t[i].key <= uri
    ensures Longest(t, uri, best)
    decreases |uri| - |t[i].key|
  {
    best := i;
    if j :| 0 <= j < |t| && t[j].key <= uri && |t[j].key| > |t[i].key| {
      best := LongestExists(t, uri, j);
    }
  }

  /** Whatever the probe finds is the longest match. */
  lemma FoundIsLongest(t: Table, uri: Text, i: nat)
    requires Sorted(t) && Probe(t, uri) == Some(i)
    ensures Longest(t, uri, i)
  {
    AboveBound(t, uri);
    Ordered(t);
    forall j | 0 <= j < |t| && t[j].key <= uri
      ensures |t[j].key| <= |t[i].key|
    {
      PrefixLess(t[j].key, uri);
      PrefixesNest(t[i].key, t[j].key, uri);
      if |t[j].key| > |t[i].key| {
        PrefixLess(t[i].key, t[j].key);
        assert false;
      }
    }
  }

  lemma PrefixesNest(p: Text, q: Text, u: Text)
    requires p <= u && q <= u
    ensures |p| <= |q| ==> p <= q
    ensures |q| <= |p| ==> q <= p
    ensures |p| == |q| ==> p == q
  {
    assert p == u[..|p|] && q == u[..|q|];
  }

  /** Keys are ordered as their positions are. */
  lemma Ordered(t: Table)
    requires Sorted(t)
    ensures forall i, j | 0 <= i < |t| && 0 <= j < |t| && Less(t[i].key, t[j].key) :: i < j
  {
    forall i, j | 0 <= i < |t| && 0 <= j < |t| && Less(t[i].key, t[j].key)
      ensures i < j
    {
      Total(t[i].key, t[j].key);
    }
  }

  /** A wildcard that extends the longest match and sorts below the path hides that match. */
  ghost predicate Hidden(t: Table, uri: Text) {
    exists i: nat, j: nat :: Longest(t, uri, i) && j < |t| && Extends(t[j].key, t[i].key) && Less(t[j].key, uri)
  }

  /** The probe agrees with the specification on a path exactly if the longest match is not hidden. */
  lemma ProbeExact(t: Table, uri: Text)
    requires Sorted(t)
    ensures Correct(t, uri) <==> !Hidden(t, uri)
  {
    AboveBound(t, uri);
    match Probe(t, uri)
    case Some(i) =>
      FoundIsLongest(t, uri, i);
      FoundIsNotHidden(t, uri, i);
    case None =>
      if j :| 0 <= j < |t| && t[j].key <= uri {
        var best := LongestExists(t, uri, j);
        MissedIsHidden(t, uri, best);
      }
  }

  lemma FoundIsNotHidden(t: Table, uri: Text, i: nat)
    requires Sorted(t) && Probe(t, uri) == Some(i) && Longest(t, uri, i)
    ensures !Hidden(t, uri)
  {
    AboveBound(t, uri);
    forall k: nat, j: nat | Longest(t, uri, k) && j < |t| && Extends(t[j].key, t[k].key)
      ensures !Less(t[j].key, uri)
    {
      PrefixesNest(t[i].key, t[k].key, uri);
      PrefixLess(t[i].key, t[j].key);
      Ordered(t);
      Total(t[j].key, uri);
    }
  }

  lemma MissedIsHidden(t: Table, uri: Text, best: nat)
    requires Sorted(t) && Probe(t, uri) == None && Longest(t, uri, best)
    ensures Hidden(t, uri)
  {
    var i := UpperBound(t, uri);
    AboveBound(t, uri);
    PrefixLess(t[best].key, uri);
    assert best < i;
    var last := i - 1;
    var p, q := t[best].key, t[last].key;
    if best == last {
      assert false;
    }
    Total(p, q);
    Between(p, q, uri);
    Total(q, uri);
  }

  // ----- Which tables are safe for every path -----

  /** p, or a longer registered key that starts a given text, lies on the way to that text. */
  ghost predicate Covered(t: Table, p: Text, text: Text) {
    exists k :: 0 <= k < |t| && Extends(t[k].key, p) && t[k].key <= text
  }

  /**
   Wherever one key extends another, every way of leaving the extension upwards runs into some
   other key between the two: nothing that sorts after the extension falls back to the shorter key.
   */
  ghost predicate Gapless(t: Table) {
    forall i, j, n, c: Octet |
      0 <= i < |t| && 0 <= j < |t| && Extends(t[j].key, t[i].key)
      && |t[i].key| <= n < |t[j].key| && t[j].key[n] < c ::
      Covered(t, t[i].key, t[j].key[..n] + [c])
  }

  /** A table answers every path right exactly if it is gapless. */
  lemma TableExact(t: Table)
    requires Sorted(t)
    ensures (forall uri :: Correct(t, uri)) <==> Gapless(t)
  {
    hide Correct, Hidden, Sorted, Covered;
    if Gapless(t) {
      forall uri
        ensures Correct(t, uri)
      {
        GaplessHidesNothing(t, uri);
        ProbeExact(t, uri);
      }
    }
    if forall uri :: Correct(t, uri) {
      forall i, j, n, c: Octet |
        0 <= i < |t| && 0 <= j < |t| && Extends(t[j].key, t[i].key)
        && |t[i].key| <= n < |t[j].key| && t[j].key[n] < c
        ensures Covered(t, t[i].key, t[j].key[..n] + [c])
      {
        ProbeExact(t, t[j].key[..n] + [c]);
        LeavingIsCovered(t, i, j, n, c);
      }
    }
  }

  lemma LeavingIsCovered(t: Table, i: nat, j: nat, n: nat, c: Octet)
    requires i < |t| && j < |t| && Extends(t[j].key, t[i].key)
    requires |t[i].key| <= n < |t[j].key| && t[j].key[n] < c
    requires !Hidden(t, t[j].key[..n] + [c])
    ensures Covered(t, t[i].key, t[j].key[..n] + [c])
  {
    var p, q := t[i].key, t[j].key;
    var uri := q[..n] + [c];
    assert uri[..n] == q[..n] && p == q[..n][..|p|];
    LessAt(q, uri, n);
    var best := LongestExists(t, uri, i);
    PrefixesNest(p, t[best].key, uri);
  }

  lemma GaplessHidesNothing(t: Table, uri: Text)
    requires Sorted(t) && Gapless(t)
    ensures !Hidden(t, uri)
  {
    forall i: nat, j: nat | Longest(t, uri, i) && j < |t| && Extends(t[j].key, t[i].key)
      ensures !Less(t[j].key, uri)
    {
      if Less(t[j].key, uri) {
        LeavingMatchesMore(t, uri, i, j);
      }
    }
  }

  /** A path that starts with a key and leaves an extension of it upwards starts with a longer key, too. */
  lemma LeavingMatchesMore(t: Table, uri: Text, i: nat, j: nat)
    requires Gapless(t) && i < |t| && t[i].key <= uri
    requires j < |t| && Extends(t[j].key, t[i].key) && Less(t[j].key, uri) && !(t[j].key <= uri)
    ensures Covered(t, t[i].key, uri)
  {
    var p, q := t[i].key, t[j].key;
    var n := TextOrder.Agree(q, uri);
    assert q[..|q|] == q;
    assert n >= |p| by {
      assert forall m | 0 <= m < |p| :: q[m] == p[m] == uri[m];
    }
    assert uri[..n + 1] == q[..n] + [uri[n]];
    var k :| 0 <= k < |t| && Extends(t[k].key, p) && t[k].key <= uri[..n + 1];
    assert t[k].key <= uri;
  }

  /** In particular if no wildcard extends another. */
  lemma PrefixFreeTables(t: Table, uri: Text)
    requires Sorted(t) && forall i, j | 0 <= i < |t| && 0 <= j < |t| :: !Extends(t[j].key, t[i].key)
    ensures Correct(t, uri)
  {
    ProbeExact(t, uri);
  }

  /**
   Nested wildcards do fail: with p* and px* registered, a path that continues p with anything
   above x is found nowhere, though p* matches it; so with /a* and /a/b*, the path /a/c.
   */
  lemma NestedWildcardsFail(p: Text, s: Text, x: Octet, y: Octet, n: Node, m: Node)
    requires x < y
    ensures var t := [Entry(p, n), Entry(p + s + [x], m)]; var uri := p + s + [y];
            Sorted(t) && Probe(t, uri) == None && t[0].key <= uri && !Correct(t, uri)
  {
    hide Less;
    NestedOrder(p, s, x, y);
    var t := [Entry(p, n), Entry(p + s + [x], m)];
    assert UpperBound(t, p + s + [y]) == 2;
  }

  lemma NestedOrder(p: Text, s: Text, x: Octet, y: Octet)
    requires x < y
    ensures var q, uri := p + s + [x], p + s + [y];
            && Less(p, q) && !Less(uri, p) && !Less(uri, q)
            && p <= uri && !(q <= uri)
  {
    var q, uri := p + s + [x], p + s + [y];
    var k := |p + s|;
    assert q[..k] == p + s == uri[..k] && q[k] == x && uri[k] == y;
    LessAt(q, uri, k);
    assert q[..k][..|p|] == p == uri[..k][..|p|];
    PrefixLess(p, q);
    PrefixLess(p, uri);
  }
}
