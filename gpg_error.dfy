/**
  The error-value codec of libgpg-error's public header.

  An error value (`gpg_error_t`, an unsigned 32-bit integer) packs an error
  source and an error code:

    bit  31       reserved, always zero (the value never reads as negative)
    bits 24 - 30  error source (7 bits)
    bits 16 - 23  reserved, always zero
    bits  0 - 15  error code (16 bits; bit 15 flags codes mapped from errno)

  Sources and codes are C enumerations, which are int-sized: an argument is
  modelled as the 32-bit pattern the C value has, so that every value a C
  caller can pass, in range or not, is covered and masked exactly as the C
  `&` masks it.
 */
module GpgError {

  /** `gpg_error_t`: an unsigned 32-bit integer. */
  type ErrorValue = bv32

  /** `gpg_err_source_t`, as the bit pattern of the int-sized enumeration value. */
  type ErrorSource = bv32

  /** `gpg_err_code_t`, as the bit pattern of the int-sized enumeration value. */
  type ErrorCode = bv32

  /** One more than the largest allowed source. */
  const SOURCE_DIM: bv32 := 128

  /** One more than the largest allowed code. */
  const CODE_DIM: bv32 := 65536

  /** The code lives in the lowest 16 bits. */
  const CODE_MASK: bv32 := CODE_DIM - 1

  /** The source lives in 7 bits starting at bit 24. */
  const SOURCE_MASK: bv32 := SOURCE_DIM - 1
  const SOURCE_SHIFT: bv32 := 24

  /** Bit 15 of a code marks a code mapped from a system error (errno). */
  const SYSTEM_ERROR: bv32 := 1 << 15

  /** Bits 16 to 23 of an error value are reserved. */
  const RESERVED_MASK: bv32 := 0x00FF_0000

  /** The highest bit of an error value is reserved. */
  const HIGH_BIT: bv32 := 0x8000_0000

  /** The "no error" code; the error value built from it is 0 as well. */
  const NO_ERROR: ErrorCode := 0

  /** The "unknown source" source. */
  const SOURCE_UNKNOWN: ErrorSource := 0

  /** The source `gpg_error` uses; a component that does not choose one gets SOURCE_UNKNOWN. */
  const SOURCE_DEFAULT: ErrorSource := SOURCE_UNKNOWN

  /** Code for "errno was 0 when a system error was expected" (libgpg-error's table value). */
  const MISSING_ERRNO: ErrorCode := 16381

  /** Code for "this errno has no mapping" (libgpg-error's table value). */
  const UNKNOWN_ERRNO: ErrorCode := 16382

  /** `gpg_err_make`: build an error value from a source and a code.
      The "no error" code gives the value 0 whatever the source; any other
      code is masked to 16 bits, the source to 7 bits, and the two are
      packed with the reserved bits left clear. */
  function ErrMake(source: ErrorSource, code: ErrorCode): (r: ErrorValue)
    ensures code == NO_ERROR ==> r == 0
    ensures code != NO_ERROR ==> r & CODE_MASK == code & CODE_MASK
    ensures code != NO_ERROR ==> r >> SOURCE_SHIFT == source & SOURCE_MASK
    ensures r & RESERVED_MASK == 0
    ensures r & HIGH_BIT == 0
  {
    if code == NO_ERROR then NO_ERROR
    else ((source & SOURCE_MASK) << SOURCE_SHIFT) | (code & CODE_MASK)
  }

  /** `gpg_error`: `gpg_err_make` with the component's default source. */
  function Error(code: ErrorCode): (r: ErrorValue)
    ensures code == NO_ERROR ==> r == 0
    ensures code != NO_ERROR ==> ErrCode(r) == code & CODE_MASK && ErrSource(r) == SOURCE_DEFAULT
    ensures r & (RESERVED_MASK | HIGH_BIT) == 0
  {
    ErrMake(SOURCE_DEFAULT, code)
  }

  /** `gpg_err_code`: the code held in an error value; every bit outside the
      code field is ignored. */
  function ErrCode(err: ErrorValue): (r: ErrorCode)
    ensures r < CODE_DIM
    ensures r | (err & !CODE_MASK) == err
  {
    err & CODE_MASK
  }

  /** `gpg_err_source`: the source held in an error value; every bit outside
      the source field is ignored. */
  function ErrSource(err: ErrorValue): (r: ErrorSource)
    ensures r < SOURCE_DIM
    ensures (r << SOURCE_SHIFT) | (err & !(SOURCE_MASK << SOURCE_SHIFT)) == err
  {
    (err >> SOURCE_SHIFT) & SOURCE_MASK
  }

  /** `gpg_err_make_from_errno`: an error value with the given source for the
      system error `err`, translated by the errno mapper `codeFromErrno`
      (`gpg_err_code_from_errno`, whose table is not part of this model). */
  function ErrMakeFromErrno(source: ErrorSource, err: int, codeFromErrno: int -> ErrorCode): (r: ErrorValue)
    ensures codeFromErrno(err) == NO_ERROR ==> r == 0
    ensures codeFromErrno(err) != NO_ERROR ==>
      ErrCode(r) == codeFromErrno(err) & CODE_MASK && ErrSource(r) == source & SOURCE_MASK
    ensures r & (RESERVED_MASK | HIGH_BIT) == 0
  {
    ErrMake(source, codeFromErrno(err))
  }

  /** `gpg_error_from_errno`: as `gpg_err_make_from_errno`, with the default source. */
  function ErrorFromErrno(err: int, codeFromErrno: int -> ErrorCode): (r: ErrorValue)
    ensures codeFromErrno(err) == NO_ERROR ==> r == 0
    ensures codeFromErrno(err) != NO_ERROR ==>
      ErrCode(r) == codeFromErrno(err) & CODE_MASK && ErrSource(r) == SOURCE_DEFAULT
    ensures r & (RESERVED_MASK | HIGH_BIT) == 0
  {
    Error(codeFromErrno(err))
  }

  /** `gpg_err_code_from_syserror`, as its declaration documents it: the code
      for the current errno, which is passed in as `errno`; an errno of 0
      gives MISSING_ERRNO rather than "no error". */
  function CodeFromSyserror(errno: int, codeFromErrno: int -> ErrorCode): (r: ErrorCode)
    ensures errno == 0 ==> r == MISSING_ERRNO && r != NO_ERROR && r != UNKNOWN_ERRNO
    ensures errno != 0 ==> r == codeFromErrno(errno)
  {
    if errno == 0 then MISSING_ERRNO else codeFromErrno(errno)
  }

  /** `gpg_error_from_syserror`: an error value for the current errno with
      the default source. An errno of 0 still yields a real error. */
  function ErrorFromSyserror(errno: int, codeFromErrno: int -> ErrorCode): (r: ErrorValue)
    ensures errno == 0 ==> r != 0 && ErrCode(r) == MISSING_ERRNO && ErrSource(r) == SOURCE_DEFAULT
    ensures errno != 0 && codeFromErrno(errno) == NO_ERROR ==> r == 0
    ensures errno != 0 && codeFromErrno(errno) != NO_ERROR ==>
      ErrCode(r) == codeFromErrno(errno) & CODE_MASK && ErrSource(r) == SOURCE_DEFAULT
    ensures r & (RESERVED_MASK | HIGH_BIT) == 0
  {
    Error(CodeFromSyserror(errno, codeFromErrno))
  }
}
