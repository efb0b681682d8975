/** Bytes, byte strings and the result shapes every module shares. */
module Bytes {

  type byte = b: int | 0 <= b < 256

  type bytes = seq<byte>

  datatype Option<+T> = None | Some(value: T)

  datatype Result<+T, +E> = Ok(value: T) | Err(error: E)

  /** The byte stream a list of chunks carries. */
  function Flatten<T>(chunks: seq<seq<T>>): (s: seq<T>)
  {
    if chunks == [] then [] else chunks[0] + Flatten(chunks[1..])
  }

  /** What a reader that already has `a` ends with, when the rest gives `r`. */
  function Prepend<T, E>(a: seq<T>, r: Result<seq<T>, E>): (r': Result<seq<T>, E>)
  {
    match r
    case Ok(s) => Ok(a + s)
    case Err(e) => Err(e)
  }

  lemma PrependNothing<T, E>(r: Result<seq<T>, E>)
    ensures Prepend([], r) == r
  {
    if r.Ok? {
      assert [] + r.value == r.value;
    }
  }

  lemma PrependAll<T, E>(a: seq<T>, b: seq<T>, r: Result<seq<T>, E>)
    ensures Prepend(a, Prepend(b, r)) == Prepend(a + b, r)
  {
    if r.Ok? {
      assert a + (b + r.value) == a + b + r.value;
    }
  }

  /** Splitting a stream at the end of a known prefix. */
  lemma CutPrefix<T>(a: seq<T>, b: seq<T>)
    ensures (a + b)[..|a|] == a
    ensures (a + b)[|a|..] == b
  {
  }

  lemma CountWithout<T>(items: set<T>, item: T)
    ensures |items| == |items - {item}| + (if item in items then 1 else 0)
  {
    assert items == if item in items then (items - {item}) + {item} else items - {item};
  }
}
