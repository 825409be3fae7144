/** The Rust primitives the motion-to-script chain relies on: fixed-width
    integer types, the `as` casts between floats and integers, truncating
    integer division, `Option`, and panics (an `unwrap`, an `expect` or a
    remainder by zero) as an explicit outcome instead of a crash.

    Floats (`f32`, `f64`) are modelled as exact `real`s; a float-to-integer
    `as` cast truncates toward zero and saturates at the target type's
    bounds.  Integer-to-integer `as` casts and overflowing unsigned
    arithmetic wrap around, as in a release build. */
module RustPrelude {

  const I32_MIN: int := -0x8000_0000
  const I32_MAX: int := 0x7FFF_FFFF
  const U32_MAX: int := 0xFFFF_FFFF
  const U32_MODULUS: int := 0x1_0000_0000

  type i32 = x: int | I32_MIN <= x <= I32_MAX
  type u32 = x: int | 0 <= x <= U32_MAX
  type u8 = x: int | 0 <= x < 256

  datatype Option<+T> = None | Some(value: T) {
    function GetOr(default: T): T {
      match this
      case Some(v) => v
      case None => default
    }
  }

  /** Why a run of the program aborts. */
  datatype Fault =
    | NoFrames            // `min().unwrap()` over a trajectory without frames
    | EmptyFrame          // `first().unwrap()` on a frame without any box
    | MissingSecondBox    // `get(1).unwrap()` on a frame with one box, two trackers
    | EmptySignal         // `min().unwrap()` in `scale_y` on an empty signal
    | DimensionOverflow   // `parse::<u32>().expect(..)` on a number above u32::MAX
    | RemainderByZero     // `% frame_step` with a zero step

  /** A computation that either finishes or panics. */
  datatype Result<+T> = Ok(value: T) | Panic(fault: Fault) {
    predicate IsFailure() {
      Panic?
    }

    function PropagateFailure<U>(): Result<U>
      requires Panic?
    {
      Panic(fault)
    }

    function Extract(): T
      requires Ok?
    {
      value
    }
  }

  function Abs(x: int): nat {
    if x < 0 then -x else x
  }

  /** Rust's integer `/`: the quotient is truncated toward zero. */
  function DivTrunc(a: int, b: int): (q: int)
    requires b != 0
    ensures Abs(a - q * b) < Abs(b)
    ensures a - q * b == 0 || (a - q * b < 0 <==> a < 0)
  {
    if a >= 0 && b > 0 then a / b
    else if a >= 0 then -(a / -b)
    else if b > 0 then -(-a / b)
    else -a / -b
  }

  /** Truncation of a real toward zero. */
  function Trunc(r: real): (t: int)
    ensures 0.0 <= r ==> t as real <= r < t as real + 1.0
    ensures r < 0.0 ==> t as real - 1.0 < r <= t as real
  {
    if r >= 0.0 then r.Floor else -((-r).Floor)
  }

  /** A float-to-`i32` `as` cast (NaN is handled by the callers). */
  function FloatToI32(r: real): (v: i32)
    ensures I32_MIN as real <= r < (I32_MAX + 1) as real ==> v == Trunc(r)
    ensures r < I32_MIN as real ==> v == I32_MIN
    ensures r >= (I32_MAX + 1) as real ==> v == I32_MAX
  {
    var t := Trunc(r);
    if t < I32_MIN then I32_MIN else if t > I32_MAX then I32_MAX else t
  }

  /** A float-to-`u32` `as` cast (NaN is handled by the callers). */
  function FloatToU32(r: real): (v: u32)
    ensures 0.0 <= r < U32_MODULUS as real ==> v as real <= r < v as real + 1.0
    ensures r < 1.0 ==> v == 0
    ensures r >= U32_MODULUS as real ==> v == U32_MAX
  {
    var t := Trunc(r);
    if t < 0 then 0 else if t > U32_MAX then U32_MAX else t
  }

  /** An integer-to-`u8` `as` cast: the low eight bits. */
  function WrapU8(x: int): (v: u8)
    ensures 0 <= x < 256 ==> v == x
    ensures (x - v) % 256 == 0
  {
    x % 256
  }

  /** An integer-to-`i32` `as` cast: the low 32 bits, read as two's complement. */
  function WrapI32(x: int): (v: i32)
    ensures I32_MIN <= x <= I32_MAX ==> v == x
    ensures (x - v) % U32_MODULUS == 0
  {
    (x - I32_MIN) % U32_MODULUS + I32_MIN
  }

  /** Wrapping `u32` arithmetic: the low 32 bits. */
  function WrapU32(x: int): (v: u32)
    ensures 0 <= x <= U32_MAX ==> v == x
    ensures (x - v) % U32_MODULUS == 0
  {
    x % U32_MODULUS
  }

  /** The float `as` casts never decrease when their argument grows. */
  lemma FloatToU32Monotone(a: real, b: real)
    requires a <= b
    ensures FloatToU32(a) <= FloatToU32(b)
  {
  }

  lemma FloatToI32Monotone(a: real, b: real)
    requires a <= b
    ensures FloatToI32(a) <= FloatToI32(b)
  {
  }
}
