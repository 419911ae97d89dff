/**
  Properties of the error-value codec: the round trips between an error
  value and its (source, code) pair, the collapse of "no error", the
  reserved bits, and the value seen as a signed decimal number.
 */
module GpgErrorProperties {
  import opened GpgError

  /** An error value whose reserved bits are clear and which is either 0
      or carries a code other than "no error": exactly the values
      `gpg_err_make` builds from a code below `CODE_DIM` (`MakeIsWellFormed`,
      `DecodeEncode`); an out-of-range code whose low 16 bits are clear
      builds others (`CodeMaskedToNoError`). */
  predicate WellFormed(v: ErrorValue)
  {
    && v & (RESERVED_MASK | HIGH_BIT) == 0
    && (ErrCode(v) == NO_ERROR ==> v == 0)
  }

  /** The number a careless caller prints when it reads the unsigned error
      value as a 32-bit two's-complement signed integer. */
  function AsSignedInt(v: ErrorValue): (x: int)
  {
    if v as int < 0x8000_0000 then v as int else v as int - 0x1_0000_0000
  }

  /** "No error" keeps no source: the value is 0 and reads back as the
      unknown source and the "no error" code. */
  lemma NoErrorCollapse(s: ErrorSource)
    ensures ErrMake(s, NO_ERROR) == 0
    ensures ErrSource(ErrMake(s, NO_ERROR)) == SOURCE_UNKNOWN
    ensures ErrCode(ErrMake(s, NO_ERROR)) == NO_ERROR
  {
  }

  /** The code of a constructed value is the given code masked to 16 bits,
      hence the code itself when it is in range. */
  lemma CodeRoundTrip(s: ErrorSource, c: ErrorCode)
    requires c != NO_ERROR
    ensures ErrCode(ErrMake(s, c)) == c & CODE_MASK
    ensures c < CODE_DIM ==> ErrCode(ErrMake(s, c)) == c
  {
  }

  /** The source of a constructed value is the given source masked to 7
      bits, hence the source itself when it is in range. */
  lemma SourceRoundTrip(s: ErrorSource, c: ErrorCode)
    requires c != NO_ERROR
    ensures ErrSource(ErrMake(s, c)) == s & SOURCE_MASK
    ensures s < SOURCE_DIM ==> ErrSource(ErrMake(s, c)) == s
  {
  }

  /** Rebuilding a value from its own source and code gives it back exactly
      when it is well formed. */
  lemma DecodeEncode(v: ErrorValue)
    ensures ErrMake(ErrSource(v), ErrCode(v)) == v <==> WellFormed(v)
  {
  }

  /** Every value `gpg_err_make` returns for an in-range code is well formed,
      whatever its source. */
  lemma MakeIsWellFormed(s: ErrorSource, c: ErrorCode)
    requires c < CODE_DIM
    ensures WellFormed(ErrMake(s, c))
  {
  }

  /** On in-range sources and real codes the constructor loses nothing: two
      pairs build the same value exactly when they are the same pair. */
  lemma MakeInjective(s1: ErrorSource, c1: ErrorCode, s2: ErrorSource, c2: ErrorCode)
    requires s1 < SOURCE_DIM && s2 < SOURCE_DIM
    requires NO_ERROR < c1 < CODE_DIM && NO_ERROR < c2 < CODE_DIM
    ensures ErrMake(s1, c1) == ErrMake(s2, c2) <==> s1 == s2 && c1 == c2
  {
  }

  /** An out-of-range code whose low 16 bits are all clear is not "no error"
      to the constructor, yet the value built from it reads back the
      "no error" code, and is nonzero when the masked source is. */
  lemma CodeMaskedToNoError(s: ErrorSource, c: ErrorCode)
    requires c != NO_ERROR && c & CODE_MASK == 0
    ensures ErrCode(ErrMake(s, c)) == NO_ERROR
    ensures ErrMake(s, c) == 0 <==> s & SOURCE_MASK == 0
  {
  }

  /** The system-error flag (bit 15) of a value is that of its code. */
  lemma SystemErrorFlag(s: ErrorSource, c: ErrorCode)
    ensures ErrMake(s, c) & SYSTEM_ERROR == c & SYSTEM_ERROR
  {
  }

  /** Bits outside the code and source fields do not change what the
      accessors read. */
  lemma AccessorsIgnoreReserved(v: ErrorValue, noise: bv32)
    requires noise & (CODE_MASK | (SOURCE_MASK << SOURCE_SHIFT)) == 0
    ensures ErrCode(v | noise) == ErrCode(v)
    ensures ErrSource(v | noise) == ErrSource(v)
  {
  }

  /** `gpg_error` always carries the unknown source when the component sets
      no default of its own. */
  lemma DefaultSourceIsUnknown(c: ErrorCode)
    ensures ErrSource(Error(c)) == SOURCE_UNKNOWN
  {
  }

  /** A value read as a signed integer is non-negative exactly when its
      highest bit is clear. */
  lemma SignedNonNegative(v: ErrorValue)
    ensures AsSignedInt(v) >= 0 <==> v & HIGH_BIT == 0
  {
    HighBitAsNumber(v);
  }

  /** The highest bit of a 32-bit word is clear exactly when the word, as a
      number, is below 2^31. */
  lemma HighBitAsNumber(v: ErrorValue)
    ensures v & HIGH_BIT == 0 <==> v as int < 0x8000_0000
  {
    var top := v >> 31;
    ShiftAsDivision(v);
    TopBit(v);
    BitAsNumber(top);
    DivisionByHalfRange(v as int, top as int);
  }

  // The lemmas below without a doc comment (ShiftAsDivision to
  // RemainderBelow7) state nothing about the codec: each only moves one fact
  // between `bv32` and `int`, in steps small enough for the solver, for
  // SignedNonNegative, MakeAsNumber, CodeAsNumber and SourceAsNumber.

  lemma ShiftAsDivision(v: bv32)
    ensures (v >> 31) as int == v as int / 0x8000_0000
  {
  }

  lemma TopBit(v: bv32)
    ensures v & HIGH_BIT == 0 <==> v >> 31 == 0
    ensures v >> 31 < 2
  {
  }

  lemma BitAsNumber(t: bv32)
    requires t < 2
    ensures t == 0 <==> t as int == 0
  {
  }

  lemma DivisionByHalfRange(n: int, q: int)
    requires 0 <= n && q == n / 0x8000_0000
    ensures q == 0 <==> n < 0x8000_0000
  {
  }

  /** Every constructed value prints as the same non-negative number whether
      it is read as unsigned or as signed. */
  lemma MakeNeverNegative(s: ErrorSource, c: ErrorCode)
    ensures AsSignedInt(ErrMake(s, c)) == ErrMake(s, c) as int
    ensures AsSignedInt(ErrMake(s, c)) >= 0
  {
    SignedNonNegative(ErrMake(s, c));
  }

  /** As a number, a constructed value is its source times 2^24 plus its
      code. */
  lemma MakeAsNumber(s: ErrorSource, c: ErrorCode)
    requires c != NO_ERROR
    ensures ErrMake(s, c) as int == (s & SOURCE_MASK) as int * 0x100_0000 + (c & CODE_MASK) as int
  {
    MakeAsSum(s, c);
    SumAsNumber(ErrMake(s, c), s & SOURCE_MASK, c & CODE_MASK);
  }

  lemma MakeAsSum(s: ErrorSource, c: ErrorCode)
    requires c != NO_ERROR
    ensures ErrMake(s, c) == (s & SOURCE_MASK) * 0x100_0000 + (c & CODE_MASK)
    ensures s & SOURCE_MASK < SOURCE_DIM && c & CODE_MASK < CODE_DIM
  {
  }

  lemma SumAsNumber(w: bv32, hi: bv32, lo: bv32)
    requires hi < SOURCE_DIM && lo < CODE_DIM && w == hi * 0x100_0000 + lo
    ensures w as int == hi as int * 0x100_0000 + lo as int
  {
  }

  /** As a number, the code an accessor reads is the value modulo 2^16. */
  lemma CodeAsNumber(v: ErrorValue)
    ensures ErrCode(v) as int == v as int % 0x1_0000
  {
    TopAndRest(v);
    MiddleAndCode(v);
    RemainderBelow16(v as int, (v >> 24) as int * 0x100 + ((v >> 16) & 0xFF) as int, (v & CODE_MASK) as int);
  }

  lemma TopAndRest(v: bv32)
    ensures v as int == (v >> 24) as int * 0x100_0000 + (v & 0xFF_FFFF) as int
  {
    SplitBytes(v);
    SumAsNumber24(v, v >> 24, v & 0xFF_FFFF);
  }

  lemma MiddleAndCode(v: bv32)
    ensures (v & 0xFF_FFFF) as int == ((v >> 16) & 0xFF) as int * 0x1_0000 + (v & CODE_MASK) as int
    ensures 0 <= (v & CODE_MASK) as int < 0x1_0000
  {
    SplitBytes(v);
    SumAsNumber16(v & 0xFF_FFFF, (v >> 16) & 0xFF, v & CODE_MASK);
  }

  /** As a number, the source an accessor reads is the value divided by
      2^24, modulo 2^7. */
  lemma SourceAsNumber(v: ErrorValue)
    ensures ErrSource(v) as int == (v as int / 0x100_0000) % 0x80
  {
    var top := v >> 24;
    ShiftAsDivision24(v);
    SplitTop(top);
    SumAsNumber7(top, top >> 7, top & SOURCE_MASK);
    RemainderBelow7(top as int, (top >> 7) as int, (top & SOURCE_MASK) as int);
  }

  lemma SplitBytes(v: bv32)
    ensures v == (v >> 24) * 0x100_0000 + (v & 0xFF_FFFF)
    ensures v & 0xFF_FFFF == ((v >> 16) & 0xFF) * 0x1_0000 + (v & CODE_MASK)
    ensures v >> 24 < 0x100 && (v >> 16) & 0xFF < 0x100
    ensures v & 0xFF_FFFF < 0x100_0000 && v & CODE_MASK < 0x1_0000
  {
  }

  lemma SumAsNumber24(w: bv32, hi: bv32, lo: bv32)
    requires hi < 0x100 && lo < 0x100_0000 && w == hi * 0x100_0000 + lo
    ensures w as int == hi as int * 0x100_0000 + lo as int
  {
  }

  lemma SumAsNumber16(w: bv32, hi: bv32, lo: bv32)
    requires hi < 0x100 && lo < 0x1_0000 && w == hi * 0x1_0000 + lo
    ensures w as int == hi as int * 0x1_0000 + lo as int
    ensures 0 <= lo as int < 0x1_0000
  {
  }

  lemma RemainderBelow16(n: int, q: int, low: int)
    requires 0 <= low < 0x1_0000 && n == q * 0x1_0000 + low
    ensures n % 0x1_0000 == low
  {
  }

  lemma ShiftAsDivision24(v: bv32)
    ensures (v >> 24) as int == v as int / 0x100_0000
  {
  }

  lemma SplitTop(t: bv32)
    requires t < 0x100
    ensures t == (t >> 7) * 0x80 + (t & SOURCE_MASK)
    ensures t >> 7 < 2
  {
  }

  lemma SumAsNumber7(w: bv32, hi: bv32, lo: bv32)
    requires hi < 2 && lo < 0x80 && w == hi * 0x80 + lo
    ensures w as int == hi as int * 0x80 + lo as int
    ensures 0 <= lo as int < 0x80
  {
  }

  lemma RemainderBelow7(n: int, q: int, r: int)
    requires 0 <= r < 0x80 && n == q * 0x80 + r
    ensures n % 0x80 == r
  {
  }

  /** Concrete values: source 5 with code 17; source 5 with "no error";
      source 0x85 with code 0x1_0011, which mask down to source 5 and code 17. */
  lemma ConcreteValues()
    ensures ErrMake(5, 17) == 0x0500_0011
    ensures ErrCode(0x0500_0011) == 17 && ErrSource(0x0500_0011) == 5
    ensures ErrMake(5, NO_ERROR) == 0
    ensures ErrSource(0) == SOURCE_UNKNOWN && ErrCode(0) == NO_ERROR
    ensures ErrMake(0x85, 0x1_0011) == 0x0500_0011
  {
  }
}
