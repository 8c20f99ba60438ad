/** The status `_nanomsg_cpy.nn_poll` hands back to Python. The C glue
    converts the native `int` result with `PyLong_FromUnsignedLong`, so on an
    LP64 platform (64-bit `unsigned long`) a negative status arrives as a
    large positive number and `nanomsg.poll` no longer raises. */
module CpyPoll {
  import opened Common
  import Nanomsg

  /** The range of the native C `int` status. */
  predicate IsCInt(res: int) {
    -0x8000_0000 <= res < 0x8000_0000
  }

  /** `PyLong_FromUnsignedLong(res)` as written: the `int` converted to a
      64-bit `unsigned long`, that is, taken modulo 2^64. */
  function PollStatusAsWritten(res: int): (code: int)
    requires IsCInt(res)
    ensures 0 <= code < 0x1_0000_0000_0000_0000
    ensures code % 0x1_0000_0000_0000_0000 == res % 0x1_0000_0000_0000_0000
  {
    if res < 0 then res + 0x1_0000_0000_0000_0000 else res
  }

  /** The evidently intended conversion, `PyLong_FromLong(res)`: the status keeps its sign. */
  function PollStatus(res: int): (code: int)
    requires IsCInt(res)
    ensures code == res
  {
    res
  }

  /** With the conversion as written, a failed native poll (`res = -1`) is not
      reported: `_nn_check_positive_rtn` accepts the status, and because the C
      glue builds the result dict only for `res > 0`, `poll` returns two empty lists. */
  lemma PollErrorSwallowed(res: int)
    requires IsCInt(res) && res < 0
    ensures Nanomsg.CheckPositive(PollStatusAsWritten(res)).Ok?
    ensures PollStatusAsWritten(res) > 0x7fff_ffff
  {
  }

  /** The concrete input: `-1` comes back as 2^64 - 1. */
  lemma PollErrorSwallowedAtMinusOne()
    ensures PollStatusAsWritten(-1) == 0xffff_ffff_ffff_ffff
    ensures Nanomsg.CheckPositive(PollStatusAsWritten(-1)) == Ok(0xffff_ffff_ffff_ffff)
  {
  }

  /** With the intended conversion, `_nn_check_positive_rtn` raises exactly when
      the native poll failed, and a success status passes through unchanged. */
  lemma PollErrorReported(res: int)
    requires IsCInt(res)
    ensures Nanomsg.CheckPositive(PollStatus(res)) == if res < 0 then Err(ApiError) else Ok(res)
  {
  }
}
