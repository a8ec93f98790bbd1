/** Types shared by every component of the model. */
module Common {
  datatype Option<+T> = None | Some(value: T)

  /** Return codes of the channel operations. */
  datatype Code = Ok | EINVAL | EEXIST | ENOENT | EMSGSIZE

  newtype Byte = x: int | 0 <= x < 256

  type Bytes = seq<Byte>

  /** A char of std::string: one octet, ordered by its unsigned value. */
  type Octet = c: char | c as int < 256 witness ' '

  type Text = seq<Octet>

  /** Addresses are unsigned 64-bit counters. */
  const U64: nat := 0x1_0000_0000_0000_0000

  /** The bytes of a sequence of messages, in order. */
  function Flatten(parts: seq<Bytes>): Bytes {
    if parts == [] then [] else parts[0] + Flatten(parts[1..])
  }

  lemma Assoc<T>(a: seq<T>, b: seq<T>, c: seq<T>)
    ensures a + (b + c) == (a + b) + c
  {
  }

  lemma {:induction false} FlattenAppend(a: seq<Bytes>, b: seq<Bytes>)
    ensures Flatten(a + b) == Flatten(a) + Flatten(b)
  {
    if a == [] {
      assert a + b == b;
    } else {
      FlattenAppend(a[1..], b);
      assert (a + b)[1..] == a[1..] + b;
      Assoc(a[0], Flatten(a[1..]), Flatten(b));
    }
  }
}
