/**
 The bounded message ring that a publishing node keeps.  The ring belongs to the tll library;
 this is the behaviour its call sites rely on: messages leave in the order they came, at most
 `slots` of them are held, each lies contiguously in a buffer of `capacity` bytes, and two
 iterators are compared by the slot they denote.
 */
module DataRings {
  import opened Common

  /** A stored message and the place of its first byte. */
  datatype Slot = Slot(off: nat, data: Bytes) {
    function End(): nat { off + |data| }
  }

  /** The ring as a value; message `popped + i` of everything ever stored is entries[i]. */
  datatype Ring = Ring(slots: nat, capacity: nat, popped: nat, entries: seq<Slot>, write: nat) {
    predicate Free(off: nat, size: nat) {
      forall i | 0 <= i < |entries| :: off + size <= entries[i].off || entries[i].End() <= off
    }

    /** Where the oldest byte lies; an empty ring keeps its write point. */
    function Low(): nat { if entries == [] then write else entries[0].off }

    /** A contiguous place for `size` bytes: at the write point, or else at the start of the buffer. */
    function Place(size: nat): Option<nat> {
      if write + size <= capacity && Free(write, size) then Some(write)
      else if size <= Low() && Free(0, size) then Some(0)
      else None
    }

    predicate Fits(size: nat) { |entries| < slots && Place(size).Some? }

    function Append(data: Bytes): Ring
      requires Fits(|data|)
    {
      var off := Place(|data|).value;
      this.(entries := entries + [Slot(off, data)], write := off + |data|)
    }

    function Drop(k: nat): Ring
      requires k <= |entries|
    {
      this.(popped := popped + k, entries := entries[k..])
    }

    /** The stored messages stay within the buffer and never overlap. */
    ghost predicate Valid() {
      && |entries| <= slots
      && write <= capacity
      && (forall i | 0 <= i < |entries| :: entries[i].End() <= capacity)
      && (forall i, j | 0 <= i < j < |entries| ::
            entries[i].End() <= entries[j].off || entries[j].End() <= entries[i].off)
    }
  }

  lemma AppendValid(r: Ring, data: Bytes)
    requires r.Valid() && r.Fits(|data|)
    ensures r.Append(data).Valid()
  {
    var r' := r.Append(data);
    var n := |r.entries|;
    if r.entries != [] {
      assert r.entries[0].End() <= r.capacity;
    }
    forall i | 0 <= i < n
      ensures r'.entries[i] == r.entries[i]
      ensures r'.entries[i].End() <= r'.entries[n].off || r'.entries[n].End() <= r'.entries[i].off
    {
    }
  }

  /** An empty ring takes any message of at most half its buffer, wherever its write point is. */
  lemma EmptyRingFits(r: Ring, size: nat)
    requires r.Valid() && r.slots >= 1 && size <= r.capacity / 2
    ensures r.entries == [] ==> r.Fits(size)
  {
  }

  /** Popping until `size` bytes fit, one message at a time. */
  function Evict(r: Ring, size: nat): (r': Ring)
    requires r.Valid() && r.slots >= 1 && size <= r.capacity / 2
    ensures r'.Valid() && r'.Fits(size)
    ensures r'.slots == r.slots && r'.capacity == r.capacity
    decreases |r.entries|
  {
    if r.Fits(size) then r
    else
      EmptyRingFits(r, size);
      DropValid(r);
      Evict(r.Drop(1), size)
  }

  lemma DropValid(r: Ring)
    requires r.Valid() && r.entries != []
    ensures r.Drop(1).Valid()
    ensures forall k: nat | 1 <= k <= |r.entries| :: r.Drop(1).Drop(k - 1) == r.Drop(k)
  {
    var r' := r.Drop(1);
    assert forall i | 0 <= i < |r'.entries| :: r'.entries[i] == r.entries[i + 1];
  }

  lemma EvictUnfold(r: Ring, size: nat)
    requires r.Valid() && r.slots >= 1 && size <= r.capacity / 2
    ensures r.Fits(size) ==> Evict(r, size) == r
    ensures !r.Fits(size) ==> r.entries != [] && r.Drop(1).Valid() && Evict(r, size) == Evict(r.Drop(1), size)
  {
    EmptyRingFits(r, size);
    if r.entries != [] {
      DropValid(r);
    }
  }

  /** It pops the least number of messages that makes room. */
  lemma {:induction false} EvictPopsTheLeast(r: Ring, size: nat) returns (k: nat)
    requires r.Valid() && r.slots >= 1 && size <= r.capacity / 2
    ensures k <= |r.entries| && Evict(r, size) == r.Drop(k)
    ensures forall j: nat | j < k :: !r.Drop(j).Fits(size)
    decreases |r.entries|
  {
    assert r.Drop(0) == r;
    if r.Fits(size) {
      k := 0;
    } else {
      hide r.Valid, r.Fits;
      EmptyRingFits(r, size);
      DropValid(r);
      var k' := EvictPopsTheLeast(r.Drop(1), size);
      k := k' + 1;
      assert r.Drop(1).Drop(k - 1) == r.Drop(k);
      forall j: nat | j < k
        ensures !r.Drop(j).Fits(size)
      {
        assert j == 0 || r.Drop(1).Drop(j - 1) == r.Drop(j);
      }
    }
  }

  /**
   The pop-and-retry loop stores a message of admissible size without ever popping an empty ring
   exactly when the ring has at least one slot.
   */
  lemma RoomCanBeMade(r: Ring, size: nat)
    requires r.Valid() && size <= r.capacity / 2
    ensures (exists k: nat | k <= |r.entries| :: r.Drop(k).Fits(size)) <==> r.slots >= 1
  {
    if r.slots >= 1 {
      var k := EvictPopsTheLeast(r, size);
    }
  }

  /** The cell k steps after `from` in a circle of m cells. */
  function Cell(from: nat, k: nat, m: nat): nat {
    if from + k < m then from + k else from + k - m
  }

  /**
   The ring over a circle of slots + 1 cells.  An iterator is a cell; the extra cell keeps the end
   of a full ring apart from its beginning.
   */
  class DataRing {
    const capacity: nat
    const cells: array<Slot>
    var head: nat
    var tail: nat
    var write: nat
    ghost var model: Ring

    ghost predicate Valid()
      reads this, cells
    {
      && cells.Length == model.slots + 1
      && capacity == model.capacity
      && write == model.write
      && model.Valid()
      && head < cells.Length
      && tail == Cell(head, |model.entries|, cells.Length)
      && forall k | 0 <= k < |model.entries| :: cells[Cell(head, k, cells.Length)] == model.entries[k]
    }

    /** The iterator to message number p, for p in the live window or just past it. */
    ghost function Iterator(p: nat): (c: nat)
      requires model.popped <= p
      reads this
    {
      Cell(head, p - model.popped, cells.Length)
    }

    lemma Bounds()
      requires Valid()
      ensures head < cells.Length && |model.entries| < cells.Length && capacity == model.capacity
      ensures model.Valid()
      ensures tail == Iterator(model.popped + |model.entries|)
    {
    }

    /** Equality of iterators into the live window is equality of message numbers. */
    lemma IteratorsCompare(p: nat, q: nat)
      requires Valid()
      requires model.popped <= p <= model.popped + |model.entries|
      requires model.popped <= q <= model.popped + |model.entries|
      ensures Iterator(p) == Iterator(q) <==> p == q
      ensures Iterator(p) == head <==> p == model.popped
      ensures Iterator(p) == tail <==> p == model.popped + |model.entries|
    {
    }

    /** Reading through an iterator gives the message with its number, stepping gives the next. */
    lemma MessageAt(p: nat)
      requires Valid() && model.popped <= p < model.popped + |model.entries|
      ensures Iterator(p) < cells.Length
      ensures At(Iterator(p)) == model.entries[p - model.popped].data
      ensures Next(Iterator(p)) == Iterator(p + 1)
    {
      assert cells[Cell(head, p - model.popped, cells.Length)] == model.entries[p - model.popped];
    }

    constructor (slots: nat, capacity: nat)
      ensures Valid() && fresh(cells)
      ensures model == Ring(slots, capacity, 0, [], 0)
    {
      this.capacity := capacity;
      cells := new Slot[slots + 1](_ => Slot(0, []));
      head, tail, write := 0, 0, 0;
      model := Ring(slots, capacity, 0, [], 0);
    }

    method Clear()
      requires Valid()
      modifies this
      ensures Valid() && model == Ring(old(model.slots), capacity, 0, [], 0)
    {
      head, tail, write := 0, 0, 0;
      model := Ring(model.slots, capacity, 0, [], 0);
    }

    function Begin(): nat
      reads this
    {
      head
    }

    function End(): nat
      reads this
    {
      tail
    }

    function Next(cursor: nat): nat
      requires cursor < cells.Length
    {
      Cell(cursor, 1, cells.Length)
    }

    function At(cursor: nat): Bytes
      requires cursor < cells.Length
      reads this, cells
    {
      cells[cursor].data
    }

    method IsFree(off: nat, size: nat) returns (free: bool)
      requires Valid()
      ensures free == model.Free(off, size)
    {
      var c := head;
      ghost var k := 0;
      while c != tail
        invariant 0 <= k <= |model.entries|
        invariant c == Cell(head, k, cells.Length)
        invariant forall j | 0 <= j < k ::
          off + size <= model.entries[j].off || model.entries[j].End() <= off
        decreases |model.entries| - k
      {
        assert cells[c] == model.entries[k];
        if !(off + size <= cells[c].off || cells[c].End() <= off) {
          return false;
        }
        c, k := Next(c), k + 1;
      }
      return true;
    }

    method FindPlace(size: nat) returns (place: Option<nat>)
      requires Valid()
      ensures place == model.Place(size)
    {
      if write + size <= capacity {
        var free := IsFree(write, size);
        if free {
          return Some(write);
        }
      }
      assert model.entries != [] ==> cells[Cell(head, 0, cells.Length)] == model.entries[0];
      var low := if head == tail then write else cells[head].off;
      if size <= low {
        var free := IsFree(0, size);
        if free {
          return Some(0);
        }
      }
      return None;
    }

    method PushBack(data: Bytes) returns (ok: bool)
      requires Valid()
      modifies this, cells
      ensures Valid() && head == old(head)
      ensures ok == old(model).Fits(|data|)
      ensures model == if ok then old(model).Append(data) else old(model)
    {
      if Next(tail) == head {
        return false;
      }
      var place := FindPlace(|data|);
      if place == None {
        return false;
      }
      AppendValid(model, data);
      cells[tail] := Slot(place.value, data);
      tail, write := Next(tail), place.value + |data|;
      model := model.Append(data);
      return true;
    }

    method PopFront()
      requires Valid() && model.entries != []
      modifies this
      ensures Valid() && model == old(model).Drop(1)
      ensures head == Cell(old(head), 1, cells.Length) && tail == old(tail)
    {
      head := Next(head);
      model := model.Drop(1);
      assert forall k | 0 <= k < |model.entries| ::
          Cell(head, k, cells.Length) == Cell(old(head), k + 1, cells.Length);
    }
  }
}
