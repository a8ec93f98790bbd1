/** Walking a std::map keyed by address: the least key at or above a bound. */
module SessionOrder {
  import opened Common

  lemma {:induction false} LeastExists(keys: set<nat>, k: nat) returns (least: nat)
    requires k in keys
    ensures least in keys && forall a | a in keys :: least <= a
    decreases k
  {
    least := k;
    if a :| a in keys && a < k {
      least := LeastExists(keys, a);
    }
  }

  /** The iterator at the first key not below `from`, or None for end(). */
  method LowerBound(keys: set<nat>, from: nat) returns (it: Option<nat>)
    ensures it.Some? ==> it.value in keys && it.value >= from
    ensures forall a | a in keys && a >= from :: it.Some? && it.value <= a
  {
    var above := set a | a in keys && a >= from;
    assert forall a | a in keys && a >= from :: a in above;
    if above == {} {
      return None;
    }
    ghost var k :| k in above;
    ghost var least := LeastExists(above, k);
    var low :| low in above && forall a | a in above :: low <= a;
    return Some(low);
  }

  ghost predicate Ascending(s: seq<nat>) {
    forall i, j | 0 <= i < j < |s| :: s[i] < s[j]
  }

  ghost predicate NoRepeats(s: seq<nat>) {
    forall i, j | 0 <= i < j < |s| :: s[i] != s[j]
  }

  lemma NoRepeatsAppend(s: seq<nat>, t: seq<nat>)
    requires NoRepeats(s) && Ascending(t) && forall a | a in t :: a !in s
    ensures NoRepeats(s + t) && forall a :: a in s + t <==> a in s || a in t
  {
    forall i, j | 0 <= i < j < |s + t|
      ensures (s + t)[i] != (s + t)[j]
    {
      if i < |s| <= j {
        assert t[j - |s|] in t;
      }
    }
  }

  ghost predicate Below(s: seq<nat>, it: Option<nat>) {
    it.Some? ==> forall i | 0 <= i < |s| :: s[i] < it.value
  }

  lemma AscendingEmpty()
    ensures Ascending([]) && forall it :: Below([], it)
  {
  }

  lemma AscendingAppend(s: seq<nat>, a: nat, it: Option<nat>)
    requires Ascending(s) && Below(s, Some(a)) && (it.Some? ==> a < it.value)
    ensures Below(s, it)
    ensures Ascending(s + [a]) && Below(s + [a], it)
    ensures forall b :: b in s + [a] <==> b in s || b == a
  {
  }
}
