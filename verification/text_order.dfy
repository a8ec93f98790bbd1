/** The order of std::string_view, as std::map uses it: bytewise, a prefix before its extensions. */
module TextOrder {
  import opened Common

  /** The length of the longest common prefix. */
  function Agree(a: Text, b: Text): (i: nat)
    ensures i <= |a| && i <= |b| && a[..i] == b[..i]
    ensures i < |a| && i < |b| ==> a[i] != b[i]
  {
    if a == [] || b == [] || a[0] != b[0] then 0
    else
      var i := 1 + Agree(a[1..], b[1..]);
      assert a[..i] == [a[0]] + a[1..][..i - 1];
      assert b[..i] == [b[0]] + b[1..][..i - 1];
      i
  }

  predicate Less(a: Text, b: Text) {
    var i := Agree(a, b);
    i < |b| && (i == |a| || a[i] < b[i])
  }

  lemma AgreeIs(a: Text, b: Text, i: nat)
    requires i <= |a| && i <= |b| && a[..i] == b[..i]
    requires i < |a| && i < |b| ==> a[i] != b[i]
    ensures Agree(a, b) == i
  {
    var k := Agree(a, b);
    assert forall j | 0 <= j < i :: a[j] == a[..i][j] && b[j] == b[..i][j];
    assert k >= i;
    assert forall j | 0 <= j < k :: a[j] == a[..k][j] && b[j] == b[..k][j];
  }

  /** A first difference decides. */
  lemma LessAt(a: Text, b: Text, i: nat)
    requires i <= |a| && i < |b| && a[..i] == b[..i] && (i == |a| || a[i] < b[i])
    ensures Less(a, b) && !Less(b, a) && a != b
  {
    AgreeIs(a, b, i);
    AgreeIs(b, a, i);
  }

  lemma Total(a: Text, b: Text)
    ensures Less(a, b) || a == b || Less(b, a)
    ensures !(Less(a, b) && Less(b, a)) && !Less(a, a)
  {
    var i := Agree(a, b);
    AgreeIs(b, a, i);
    AgreeIs(a, a, |a|);
    if i == |a| && i == |b| {
      assert a[..i] == a && b[..i] == b;
    }
  }

  lemma Transitive(a: Text, b: Text, c: Text)
    requires Less(a, b) && Less(b, c)
    ensures Less(a, c)
  {
    var i, j := Agree(a, b), Agree(b, c);
    var k := if i <= j then i else j;
    assert a[..k] == a[..i][..k] == b[..i][..k] == b[..k];
    assert c[..k] == c[..j][..k] == b[..j][..k] == b[..k];
    LessAt(a, c, k);
  }

  predicate Extends(q: Text, p: Text) { p <= q && |p| < |q| }

  lemma PrefixLess(p: Text, q: Text)
    requires p <= q
    ensures p == q || Less(p, q)
    ensures !Less(q, p)
  {
    if |p| < |q| {
      LessAt(p, q, |p|);
    } else {
      Total(p, q);
    }
  }

  /** A string that does not start with a prefix of u lies on one side of both. */
  lemma Outside(p: Text, q: Text, u: Text)
    requires p <= u && !(p <= q)
    ensures Less(q, p) || Less(u, q)
  {
    var i := Agree(q, p);
    assert p[..|p|] == p;
    assert u[..i] == p[..i] && u[i] == p[i];
    if i == |q| || q[i] < p[i] {
      LessAt(q, p, i);
    } else {
      LessAt(u, q, i);
    }
  }

  /** Every string between a prefix of u and u itself starts with that prefix. */
  lemma Between(p: Text, q: Text, u: Text)
    requires p <= u && !Less(q, p) && !Less(u, q)
    ensures p <= q
  {
    if !(p <= q) {
      Outside(p, q, u);
    }
  }
}
