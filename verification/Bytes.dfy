/** Bytes, machine-word bounds and the two ways a call can end early. */
module Bytes {

  type byte = b: int | 0 <= b < 256

  /** One past the largest `u32`; `as u32` keeps the residue modulo this. */
  const U32_MODULUS: nat := 0x1_0000_0000

  /** `u32::MAX`, which the tokenizer uses as its "nothing yet" marker. */
  const U32_MAX: nat := 0xFFFF_FFFF

  datatype Option<+T> = None | Some(value: T)

  /** A computation that may hit a failing index or division, which ends a Rust program. */
  datatype Run<+T> = Done(value: T) | Panic

  /** Concatenation of a sequence of sequences. */
  function Flatten<T>(parts: seq<seq<T>>): seq<T> {
    if parts == [] then [] else parts[0] + Flatten(parts[1..])
  }

  lemma {:induction false} FlattenAppend<T>(a: seq<seq<T>>, b: seq<seq<T>>)
    ensures Flatten(a + b) == Flatten(a) + Flatten(b)
  {
    if a == [] {
      assert a + b == b;
    } else {
      assert (a + b)[1..] == a[1..] + b;
      FlattenAppend(a[1..], b);
    }
  }
}
