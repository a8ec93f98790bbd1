/**
 How full the message ring can get: the stored messages lie one after the other, wrapping at most
 once, so that enough free bytes in all leave a contiguous place for the next one.
 */
module RingLayout {
  import opened Common
  import opened DataRings

  function Total(parts: seq<Bytes>): nat {
    if parts == [] then 0 else |parts[0]| + Total(parts[1..])
  }

  lemma {:induction false} TotalAppend(a: seq<Bytes>, b: seq<Bytes>)
    ensures Total(a + b) == Total(a) + Total(b)
  {
    if a == [] {
      assert a + b == b;
    } else {
      TotalAppend(a[1..], b);
      assert (a + b)[1..] == a[1..] + b;
    }
  }

  function Size(es: seq<Slot>): nat {
    if es == [] then 0 else |es[0].data| + Size(es[1..])
  }

  lemma {:induction false} SizeAppend(a: seq<Slot>, b: seq<Slot>)
    ensures Size(a + b) == Size(a) + Size(b)
  {
    if a == [] {
      assert a + b == b;
    } else {
      SizeAppend(a[1..], b);
      assert (a + b)[1..] == a[1..] + b;
    }
  }

  lemma {:induction false} SizeIsTotal(es: seq<Slot>, parts: seq<Bytes>)
    requires |es| == |parts| && forall i | 0 <= i < |es| :: es[i].data == parts[i]
    ensures Size(es) == Total(parts)
  {
    if es != [] {
      SizeIsTotal(es[1..], parts[1..]);
    }
  }

  /** Each message begins where the one before it ends. */
  ghost predicate Contiguous(es: seq<Slot>) {
    forall i | 0 <= i < |es| - 1 :: es[i + 1].off == es[i].End()
  }

  /** The byte after the last message. */
  function Last(es: seq<Slot>): nat
    requires es != []
  {
    es[|es| - 1].End()
  }

  lemma {:induction false} Span(es: seq<Slot>)
    requires es != [] && Contiguous(es)
    ensures Last(es) == es[0].off + Size(es)
    ensures forall i | 0 <= i < |es| :: es[0].off <= es[i].off && es[i].End() <= Last(es)
  {
    if |es| > 1 {
      var rest := es[1..];
      assert Contiguous(rest) by {
        forall i | 0 <= i < |rest| - 1
          ensures rest[i + 1].off == rest[i].End()
        {
          assert es[i + 2].off == es[i + 1].End();
        }
      }
      Span(rest);
      assert es[1].off == es[0].End();
      assert forall i | 1 <= i < |es| :: es[i] == rest[i - 1];
    } else {
      assert es[1..] == [];
    }
  }

  /** The first part lies after the second, which was wrapped to the start as it did not fit behind. */
  ghost predicate Wrapped(r: Ring, a: seq<Slot>, b: seq<Slot>) {
    && r.entries == a + b && a != [] && b != [] && Contiguous(a) && Contiguous(b)
    && b[0].off == 0 && b[0].data != [] && r.write == Last(b)
    && r.write <= a[0].off
    && Last(a) + |b[0].data| > r.capacity
  }

  /** The same with a first part of empty messages only, which the second may have grown past. */
  ghost predicate Overgrown(r: Ring, a: seq<Slot>, b: seq<Slot>) {
    && r.entries == a + b && a != [] && b != [] && Contiguous(b)
    && b[0].off == 0 && b[0].data != [] && r.write == Last(b)
    && forall i | 0 <= i < |a| :: a[i].data == [] && a[i].off <= r.write
  }

  ghost predicate Straight(r: Ring) {
    r.entries != [] && Contiguous(r.entries) && r.write == Last(r.entries)
  }

  ghost predicate Laid(r: Ring) {
    && r.write <= r.capacity
    && (forall i | 0 <= i < |r.entries| :: r.entries[i].End() <= r.capacity)
    && (r.entries == [] || Straight(r)
        || (exists j | 0 < j < |r.entries| :: Wrapped(r, r.entries[..j], r.entries[j..]))
        || (exists j | 0 < j < |r.entries| :: Overgrown(r, r.entries[..j], r.entries[j..])))
  }

  // ----- Popping -----

  lemma ContiguousSlice(es: seq<Slot>, i: nat, j: nat)
    requires Contiguous(es) && i <= j <= |es|
    ensures Contiguous(es[i..j])
  {
    forall k | 0 <= k < j - i - 1
      ensures es[i..j][k + 1].off == es[i..j][k].End()
    {
      assert es[i + k + 1].off == es[i + k].End();
    }
  }

  lemma DropFirst(r: Ring)
    requires Laid(r) && r.entries != []
    ensures Laid(r.Drop(1))
  {
    var r' := r.Drop(1);
    if Straight(r) {
      ContiguousSlice(r.entries, 1, |r.entries|);
      assert r.entries[1..|r.entries|] == r.entries[1..];
    } else if j :| 0 < j < |r.entries| && Wrapped(r, r.entries[..j], r.entries[j..]) {
      DropWrapped(r, j);
    } else {
      var j :| 0 < j < |r.entries| && Overgrown(r, r.entries[..j], r.entries[j..]);
      DropOvergrown(r, j);
    }
  }

  lemma IsLaid(r: Ring, a: seq<Slot>, b: seq<Slot>)
    requires r.write <= r.capacity && forall i | 0 <= i < |r.entries| :: r.entries[i].End() <= r.capacity
    requires Wrapped(r, a, b) || Overgrown(r, a, b)
    ensures Laid(r)
  {
    var j := |a|;
    assert r.entries[..j] == a && r.entries[j..] == b;
    hide Wrapped, Overgrown;
  }

  lemma DropWrapped(r: Ring, j: nat)
    requires Laid(r) && 0 < j < |r.entries| && Wrapped(r, r.entries[..j], r.entries[j..])
    ensures Laid(r.Drop(1))
  {
    hide Laid;
    var r' := r.Drop(1);
    var a, b := r.entries[..j], r.entries[j..];
    WithinBuffer(r);
    if j == 1 {
      assert r'.entries == b;
      StraightIsLaid(r');
    } else {
      assert r'.entries == a[1..] + b;
      TailOfWrapped(r, a, b);
      IsLaid(r', a[1..], b);
    }
  }

  lemma WithinBuffer(r: Ring)
    requires Laid(r)
    ensures r.write <= r.capacity && forall i | 0 <= i < |r.entries| :: r.entries[i].End() <= r.capacity
  {
  }

  lemma StraightIsLaid(r: Ring)
    requires r.write <= r.capacity && forall i | 0 <= i < |r.entries| :: r.entries[i].End() <= r.capacity
    requires Straight(r)
    ensures Laid(r)
  {
  }

  lemma TailOfWrapped(r: Ring, a: seq<Slot>, b: seq<Slot>)
    requires Wrapped(r, a, b) && |a| > 1
    ensures Wrapped(r.Drop(1), a[1..], b)
  {
    Span(a);
    ContiguousSlice(a, 1, |a|);
    assert a[1..|a|] == a[1..];
    assert r.entries[1..] == a[1..] + b;
    assert a[1..][0] == a[1] && Last(a[1..]) == Last(a);
    hide Contiguous;
  }

  lemma DropOvergrown(r: Ring, j: nat)
    requires Laid(r) && 0 < j < |r.entries| && Overgrown(r, r.entries[..j], r.entries[j..])
    ensures Laid(r.Drop(1))
  {
    var r' := r.Drop(1);
    var a, b := r.entries[..j], r.entries[j..];
    if j == 1 {
      assert r'.entries == b;
    } else {
      assert r'.entries[..j - 1] == a[1..j] && r'.entries[j - 1..] == b;
      assert Overgrown(r', r'.entries[..j - 1], r'.entries[j - 1..]);
    }
  }

  lemma {:induction false} DropLaid(r: Ring, k: nat)
    requires Laid(r) && k <= |r.entries|
    ensures Laid(r.Drop(k))
    decreases k
  {
    if k == 0 {
      assert r.Drop(0) == r;
    } else {
      DropFirst(r);
      DropLaid(r.Drop(1), k - 1);
      assert r.Drop(1).Drop(k - 1) == r.Drop(k);
    }
  }

  // ----- Storing -----

  lemma ContiguousSnoc(es: seq<Slot>, s: Slot)
    requires Contiguous(es) && (es != [] ==> s.off == Last(es))
    ensures Contiguous(es + [s]) && Last(es + [s]) == s.End()
  {
  }

  lemma AppendLaid(r: Ring, data: Bytes)
    requires Laid(r) && r.Fits(|data|)
    ensures Laid(r.Append(data))
  {
    var r', n := r.Append(data), |r.entries|;
    var s := r'.entries[n];
    if r.entries == [] {
      assert Straight(r');
    } else if Straight(r) {
      AppendStraight(r, data);
    } else if j :| 0 < j < n && Wrapped(r, r.entries[..j], r.entries[j..]) {
      AppendWrapped(r, data, j);
    } else {
      var j :| 0 < j < n && Overgrown(r, r.entries[..j], r.entries[j..]);
      AppendOvergrown(r, data, j);
    }
  }

  lemma AppendStraight(r: Ring, data: Bytes)
    requires Laid(r) && r.Fits(|data|) && Straight(r)
    ensures Laid(r.Append(data))
  {
    var r', n := r.Append(data), |r.entries|;
    Span(r.entries);
    assert r.Free(r.write, |data|);
    if r.write + |data| <= r.capacity {
      ContiguousSnoc(r.entries, Slot(r.write, data));
      assert Straight(r');
    } else {
      assert r'.entries[..n] == r.entries && r'.entries[n..] == [Slot(0, data)];
      assert Wrapped(r', r'.entries[..n], r'.entries[n..]);
    }
  }

  /** The first message that is not empty lies where the first message lies. */
  lemma {:induction false} FirstBytes(es: seq<Slot>, k: nat) returns (i: nat)
    requires Contiguous(es) && k < |es| && es[k].data != []
    ensures i < |es| && es[i].data != [] && es[i].off == es[0].off
  {
    i := 0;
    if es[0].data == [] {
      ContiguousSlice(es, 1, |es|);
      assert es[1..|es|] == es[1..];
      i := FirstBytes(es[1..], k - 1);
      i := i + 1;
    }
  }

  lemma AppendWrapped(r: Ring, data: Bytes, j: nat)
    requires Laid(r) && r.Fits(|data|) && 0 < j < |r.entries| && Wrapped(r, r.entries[..j], r.entries[j..])
    ensures Laid(r.Append(data))
  {
    hide Laid;
    var r', s := r.Append(data), Slot(r.write, data);
    var a, b := r.entries[..j], r.entries[j..];
    WithinBuffer(r);
    WrappedSides(r, j);
    AppendsBehind(r, data, j);
    ContiguousSnoc(b, s);
    assert r'.entries == a + (b + [s]);
    assert forall i | 0 <= i < |a| :: a[i] == r.entries[i];
    if s.End() > a[0].off {
      GrowsOverEmpty(a, s);
      assert Overgrown(r', a, b + [s]);
    }
    IsLaid(r', a, b + [s]);
  }

  lemma WrappedSides(r: Ring, j: nat)
    requires 0 < j < |r.entries| && Wrapped(r, r.entries[..j], r.entries[j..])
    ensures forall i | 0 <= i < |r.entries| :: r.entries[i].End() <= r.write || r.entries[i].off >= r.write
  {
    var a, b := r.entries[..j], r.entries[j..];
    Span(a);
    Span(b);
    forall i | 0 <= i < |r.entries|
      ensures r.entries[i].End() <= r.write || r.entries[i].off >= r.write
    {
      assert r.entries[i] == if i < j then a[i] else b[i - j];
    }
  }

  /** A free stretch that reaches beyond the messages' beginning has only empty ones before it. */
  lemma GrowsOverEmpty(a: seq<Slot>, s: Slot)
    requires a != [] && Contiguous(a) && s.off <= a[0].off < s.End()
    requires forall i | 0 <= i < |a| :: s.End() <= a[i].off || a[i].End() <= s.off
    ensures forall i | 0 <= i < |a| :: a[i].data == [] && a[i].off <= s.End()
  {
    forall k | 0 <= k < |a|
      ensures a[k].data == []
    {
      if a[k].data != [] {
        var i := FirstBytes(a, k);
        assert false;
      }
    }
    NoBytes(a);
    Span(a);
  }

  lemma AppendOvergrown(r: Ring, data: Bytes, j: nat)
    requires Laid(r) && r.Fits(|data|) && 0 < j < |r.entries| && Overgrown(r, r.entries[..j], r.entries[j..])
    ensures Laid(r.Append(data))
  {
    var r' := r.Append(data);
    var a, b := r.entries[..j], r.entries[j..];
    Span(b);
    AppendsBehind(r, data, j);
    var s := Slot(r.write, data);
    ContiguousSnoc(b, s);
    assert r'.entries[..j] == a && r'.entries[j..] == b + [s];
    assert Overgrown(r', a, b + [s]);
  }

  /** With a message at the start of the buffer there is no other place than the write point. */
  lemma AppendsBehind(r: Ring, data: Bytes, j: nat)
    requires Laid(r) && r.Fits(|data|) && j < |r.entries|
    requires r.entries[j].off == 0 && r.entries[j].data != []
    requires forall i | 0 <= i < |r.entries| :: r.entries[i].End() <= r.write || r.entries[i].off >= r.write
    ensures r.Append(data).entries == r.entries + [Slot(r.write, data)]
    ensures r.write + |data| <= r.capacity && r.Free(r.write, |data|)
  {
    assert !r.Free(0, |data|) || data == [];
    assert data == [] ==> r.Free(r.write, |data|);
  }

  // ----- Room -----

  /** If the stored bytes and as many again as are to be stored leave that much of the buffer, there is a place. */
  lemma RoomInHalf(r: Ring, size: nat)
    requires Laid(r) && |r.entries| < r.slots && 2 * (Size(r.entries) + size) <= r.capacity
    ensures r.Fits(size)
  {
    if r.entries == [] {
      assert r.Free(r.write, size) && r.Free(0, size);
    } else if Straight(r) {
      Span(r.entries);
      assert r.Free(r.write, size);
      if r.write + size > r.capacity {
        assert r.Free(0, size);
      }
    } else if j :| 0 < j < |r.entries| && Wrapped(r, r.entries[..j], r.entries[j..]) {
      RoomWrapped(r, size, j);
    } else {
      var j :| 0 < j < |r.entries| && Overgrown(r, r.entries[..j], r.entries[j..]);
      RoomOvergrown(r, size, j);
    }
  }

  lemma RoomWrapped(r: Ring, size: nat, j: nat)
    requires 0 < j < |r.entries| && Wrapped(r, r.entries[..j], r.entries[j..])
    requires |r.entries| < r.slots && 2 * (Size(r.entries) + size) <= r.capacity
    ensures r.Fits(size)
  {
    var a, b := r.entries[..j], r.entries[j..];
    Span(a);
    Span(b);
    SizeAppend(a, b);
    assert |b[0].data| <= Size(b);
    forall i | 0 <= i < |r.entries|
      ensures r.write + size <= r.entries[i].off || r.entries[i].End() <= r.write
    {
      if i < j {
        assert r.entries[i] == a[i];
      } else {
        assert r.entries[i] == b[i - j];
      }
    }
    assert r.Free(r.write, size);
  }

  lemma RoomOvergrown(r: Ring, size: nat, j: nat)
    requires 0 < j < |r.entries| && Overgrown(r, r.entries[..j], r.entries[j..])
    requires |r.entries| < r.slots && 2 * (Size(r.entries) + size) <= r.capacity
    ensures r.Fits(size)
  {
    var a, b := r.entries[..j], r.entries[j..];
    Span(b);
    SizeAppend(a, b);
    forall i | 0 <= i < |r.entries|
      ensures r.entries[i].End() <= r.write
    {
      if i < j {
        assert r.entries[i] == a[i];
      } else {
        assert r.entries[i] == b[i - j];
      }
    }
    assert r.Free(r.write, size);
  }

  /** And the stored bytes are never more than the buffer has. */
  lemma SizeWithinCapacity(r: Ring)
    requires Laid(r)
    ensures Size(r.entries) <= r.capacity
  {
    if r.entries == [] {
    } else if Straight(r) {
      Span(r.entries);
    } else if j :| 0 < j < |r.entries| && Wrapped(r, r.entries[..j], r.entries[j..]) {
      var a, b := r.entries[..j], r.entries[j..];
      Span(a);
      Span(b);
      SizeAppend(a, b);
      assert a[j - 1] == r.entries[j - 1];
    } else {
      var j :| 0 < j < |r.entries| && Overgrown(r, r.entries[..j], r.entries[j..]);
      var a, b := r.entries[..j], r.entries[j..];
      Span(b);
      SizeAppend(a, b);
      NoBytes(a);
    }
  }

  lemma {:induction false} NoBytes(es: seq<Slot>)
    requires forall i | 0 <= i < |es| :: es[i].data == []
    ensures Size(es) == 0
  {
    if es != [] {
      NoBytes(es[1..]);
    }
  }
}
