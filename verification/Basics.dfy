/** Bytes, fixed-width integers, optional values and the engine's error type. */
module Basics {

  type Byte = x: int | 0 <= x < 0x100
  type Bytes = seq<Byte>

  const U32_LIMIT := 0x1_0000_0000
  type U32 = x: int | 0 <= x < 0x1_0000_0000

  datatype Option<+T> = None | Some(value: T)

  /** The error enumeration; message texts are dropped, sizes are kept. */
  datatype EngineError =
    | InvalidCameraId
    | InvalidFrameFormat
    | InvalidFrameSize(actual: nat, expected: nat)
    | SinkClosed
    | AlreadyRunning
    | NotRunning
    | Timeout
    | InvalidArgument
    | Backend

  datatype Result<+T> = Ok(value: T) | Err(error: EngineError)

  /** How a call ends when the code can also unwind. */
  datatype Outcome<+T> = Returned(value: T) | Failed(error: EngineError) | Panicked

  /** `u32::checked_mul`. */
  function CheckedMul(a: U32, b: U32): Option<U32> {
    if a * b < U32_LIMIT then Some(a * b) else None
  }

  function Flatten<T>(parts: seq<seq<T>>): seq<T> {
    if parts == [] then [] else parts[0] + Flatten(parts[1..])
  }

  lemma ConcatAssociative<T>(a: seq<T>, b: seq<T>, c: seq<T>)
    ensures (a + b) + c == a + (b + c)
  {
  }

  lemma FlattenAppend<T>(a: seq<seq<T>>, b: seq<seq<T>>)
    ensures Flatten(a + b) == Flatten(a) + Flatten(b)
  {
    if a == [] {
      assert a + b == b;
    } else {
      assert (a + b)[1..] == a[1..] + b;
      FlattenAppend(a[1..], b);
    }
  }

  lemma MulStep(a: nat, b: nat, d: nat)
    requires a < b
    ensures a * d + d <= b * d
  {
    assert (b - a - 1) * d >= 0;
    assert b * d == a * d + d + (b - a - 1) * d;
  }
}
