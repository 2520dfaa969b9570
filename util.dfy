/** Shared vocabulary: bytes, half-open ranges, optional values and the error
    type that replaces the boxed `dyn Error` of the original. */
module Util {

  newtype byte = x: int | 0 <= x < 256

  type Bytes = seq<byte>

  /** The line-feed byte 0x0a that delimits lines. */
  const NEWLINE: byte := 10

  /** A half-open byte range `start..end`. */
  datatype Range = Range(start: nat, end: nat)

  datatype Option<T> = None | Some(value: T)

  /** The error kinds of the core, each carrying the message the source produces. */
  datatype Error = Error(descr: string)

  datatype Result<T> = Ok(value: T) | Err(error: Error)

  /** Concatenation of a sequence of byte strings. */
  function Flatten(parts: seq<Bytes>): (r: Bytes)
  {
    if parts == [] then [] else parts[0] + Flatten(parts[1..])
  }

  lemma {:induction false} FlattenAppend(a: seq<Bytes>, b: seq<Bytes>)
    ensures Flatten(a + b) == Flatten(a) + Flatten(b)
  {
    if a != [] {
      assert (a + b)[1..] == a[1..] + b;
      FlattenAppend(a[1..], b);
    } else {
      assert a + b == b;
    }
  }
}
