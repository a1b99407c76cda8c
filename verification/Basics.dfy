/** Shared result types and byte-level arithmetic. */
module Basics {

  datatype Option<+T> = None | Some(value: T)

  /** The result of a Python computation: a value, or an exception that unwinds to the caller's `try`. */
  datatype Outcome<+T> = Done(value: T) | Raises {
    predicate IsFailure() { Raises? }

    function PropagateFailure<U>(): Outcome<U>
      requires Raises?
    {
      Raises
    }

    function Extract(): T
      requires Done?
    {
      value
    }
  }

  type byte = b: int | 0 <= b < 256
  type bytes = seq<byte>

  /** `int.from_bytes(b, 'big')`: the unsigned big-endian value; zero for no octets. */
  function FromBytes(b: bytes): nat {
    if b == [] then 0 else FromBytes(b[..|b| - 1]) * 256 + b[|b| - 1]
  }

  function Min(a: int, b: int): int {
    if a < b then a else b
  }

  /** Python's `data[lo:hi]` for non-negative bounds: both ends are clamped to the data. */
  function Slice<T>(data: seq<T>, lo: nat, hi: nat): seq<T>
    requires lo <= hi
  {
    data[Min(lo, |data|)..Min(hi, |data|)]
  }
}
