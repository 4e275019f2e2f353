/** Shared vocabulary of the emulator: error codes, results, access kinds and
    fixed-width unsigned integers. */
module Wrappers {

  /** The error codes the core returns. Their numeric values live in error.h,
      which is not part of this model; only ERR_BAD_PARAMETER's value matters
      (the page walk compares table entries against it), see BadParameterValue. */
  datatype ErrorCode = ErrNone | ErrBadParameter | ErrMem | ErrSize | ErrIo

  /** Assumed numeric value of ERR_BAD_PARAMETER: the fifth member of an enum
      that starts at -128 (ERR_FIRST, ERR_INVALID_COMMAND, ERR_IO, ERR_MEM,
      ERR_BAD_PARAMETER, ...). */
  const BadParameterValue: int := -124

  datatype Option<+T> = None | Some(value: T)

  /** A successful value or one of the error codes. */
  datatype Result<+T> = Ok(value: T) | Err(error: ErrorCode)

  /** mem_access_t: what an access fetches. */
  datatype AccessKind = Instruction | Data

  const TwoTo12: nat := 0x1000
  const TwoTo16: nat := 0x1_0000
  const TwoTo20: nat := 0x10_0000
  const TwoTo32: nat := 0x1_0000_0000
  const TwoTo36: nat := 0x10_0000_0000
  const TwoTo48: nat := 0x1_0000_0000_0000
  const TwoTo49: nat := 0x2_0000_0000_0000
  const TwoTo64: nat := 0x1_0000_0000_0000_0000

  type U16 = x: nat | x < TwoTo16
  type U32 = x: nat | x < TwoTo32
  type U64 = x: nat | x < TwoTo64

  /** A 32-bit memory word (word_t, pte_t). */
  type Word = U32

  /** The value of an int once converted to a 32-bit unsigned integer, as C
      does when an enum constant meets a uint32_t in a comparison. */
  function ToU32(x: int): (r: U32)
    ensures (r - x) % TwoTo32 == 0
  {
    x % TwoTo32
  }

  /** Adding a multiple of d leaves the remainder by d alone and adds to the
      quotient: Euclidean quotient and remainder are unique. */
  lemma DivModAdd(q: int, o: int, d: int)
    requires d > 0
    ensures (d * q + o) / d == q + o / d && (d * q + o) % d == o % d
  {
    var a := d * q + o;
    var q1 := a / d;
    var q2 := o / d;
    assert a == q1 * d + a % d;
    assert o == q2 * d + o % d;
    var e := q1 - q - q2;
    assert o % d - a % d == e * d by {
      assert q1 * d - q * d - q2 * d == (q1 - q - q2) * d;
      assert d * q == q * d;
    }
    if e >= 1 {
      assert false;
    } else if e <= -1 {
      assert false;
    }
  }
}
