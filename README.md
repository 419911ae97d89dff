# libgpg-error error values, modelled in Dafny

libgpg-error passes errors between the components of the GnuPG suite as a
single unsigned 32-bit *error value* (`gpg_error_t`). Each value packs an
*error source* (which component failed) and an *error code* (what went wrong).
This project models the constructor and accessor functions of that codec from
the public header `include/gpg-error.h`. It also models the three convenience
wrappers that build error values from system errors (`errno`), and it proves
the layout the header's comments promise.

Layout of an error value:

| bits | content |
|---|---|
| 31 | reserved, always 0, so the value never prints as a negative number |
| 24-30 | error source, 7 bits (`GPG_ERR_SOURCE_DIM` = 128) |
| 16-23 | reserved, always 0 |
| 0-15 | error code, 16 bits (`GPG_ERR_CODE_DIM` = 65536); bit 15 marks codes mapped from `errno` |

Files:

- `gpg_error.dfy`, module `GpgError`: the constants, `ErrMake`
  (`gpg_err_make`), `Error` (`gpg_error`), `ErrCode` (`gpg_err_code`),
  `ErrSource` (`gpg_err_source`) and the errno wrappers.
- `gpg_error_properties.dfy`, module `GpgErrorProperties`: the round trips,
  the collapse of "no error", the reserved bits, injectivity, and the value
  read as a signed or unsigned number.
- `gpg_error_text.dfy`, module `GpgErrorText`: the reason the highest bit is
  reserved (lines 127-129). A value is printed with `%d`, that is, as a
  32-bit signed integer. A receiver reads it back and accepts only decimal
  digits. Every value the constructor builds survives this trip, and a value
  with the highest bit set would print with a minus sign.

Modelling decisions:

- `gpg_error_t` is `bv32`. The source and code arguments are C enumerations,
  so their values are int-sized. Each argument is modelled by the 32-bit
  pattern of its C value (also `bv32`). This covers every value a C caller
  can pass, including out-of-range ones, and masks it exactly as the C `&`
  does.
- The `errno` mapper `gpg_err_code_from_errno` is only declared in the
  header; its table is not visible. Every wrapper takes it as a function
  parameter `codeFromErrno: int -> ErrorCode`, so the wrappers are proved
  for every possible mapper.
- `gpg_err_code_from_syserror` reads the global `errno`. `CodeFromSyserror`
  takes the current value of `errno` as a parameter. It follows the behaviour
  the declaration documents: 0 gives `GPG_ERR_MISSING_ERRNO`, and any other
  value goes through the mapper.
- `GPG_ERR_NO_ERROR` and `GPG_ERR_SOURCE_UNKNOWN` are both 0.
  `GPG_ERR_MISSING_ERRNO` (16381) and `GPG_ERR_UNKNOWN_ERRNO` (16382) are the
  values in libgpg-error's code table. That table is pulled in by
  `@include err-codes.h.in` and is not part of this model.
- `GPG_ERR_SOURCE_DEFAULT` is a per-component compile-time setting. The
  model fixes it as the module constant `SOURCE_DEFAULT`. It has the
  header's fallback value, `GPG_ERR_SOURCE_UNKNOWN`.

Where the header text and the model differ:

- The model's constants are the header's macro bodies:
  `SYSTEM_ERROR` is `GPG_ERR_SYSTEM_ERROR`, `(1 << 15)` (line 101);
  `CODE_MASK` is `GPG_ERR_CODE_MASK`, `(GPG_ERR_CODE_DIM - 1)` (119);
  `SOURCE_MASK` is `GPG_ERR_SOURCE_MASK`, `(GPG_ERR_SOURCE_DIM - 1)` (124);
  `SOURCE_SHIFT` is `GPG_ERR_SOURCE_SHIFT`, `24` (125);
  `SOURCE_DEFAULT` is the fallback `GPG_ERR_SOURCE_DEFAULT`,
  `GPG_ERR_SOURCE_UNKNOWN` (183). `SOURCE_DIM` and `CODE_DIM` are the
  enumerators at 88 and 105.
- The comments count bits from 1. "The 16th bit" (118) is bit 15, and
  "bits 17 to 24" (121) are bits 16 to 23.
- The header says an error value "preserver[s] the information about the
  source and nature of the error" (lines 58-61). In the code, the
  constructor tests for "no error" *before* it masks. An out-of-range code
  whose low 16 bits are 0 (say 0x10000) therefore gives a value whose code
  reads back as "no error". That value is nonzero whenever the masked source
  is nonzero. `CodeMaskedToNoError` states this, and `MakeIsWellFormed`
  holds only for in-range codes. The header only declares the parameters
  with the enumeration types (lines 172 and 187) and says nothing about
  values outside them, so this is recorded as behaviour, not as a defect.

## Model

| member | source | states |
|---|---|---|
| `GpgError.ErrMake` | include/gpg-error.h:171-177 | "no error" gives 0 whatever the source; any other code ends up in the low 16 bits masked to 16 bits, and the source, masked to 7 bits, is all that is above bit 23; the reserved bits 16-23 and bit 31 are clear for every input |
| `GpgError.Error` | include/gpg-error.h:180-190 | "no error" gives 0; any other code reads back masked, with the component's default source; bits 16-23 and bit 31 are always clear |
| `GpgError.ErrCode` | include/gpg-error.h:193-198 | the code read is below `GPG_ERR_CODE_DIM`, and combined with the value's bits outside the code field it gives the value back, so it is exactly the value's low 16 bits |
| `GpgError.ErrSource` | include/gpg-error.h:201-207 | the source read is below `GPG_ERR_SOURCE_DIM`, and shifted back into place it is exactly the value's bits in the source field |
| `GpgError.ErrMakeFromErrno` | include/gpg-error.h:257-261 | for every errno mapper: a mapped "no error" gives 0; otherwise the value carries the mapped code (masked) and the given source (masked); bits 16-23 and bit 31 are always clear |
| `GpgError.ErrorFromErrno` | include/gpg-error.h:264-268 | for every errno mapper: a mapped "no error" gives 0; otherwise the value carries the mapped code with the default source; bits 16-23 and bit 31 are always clear |
| `GpgError.CodeFromSyserror` | include/gpg-error.h:243-246 | errno 0 gives `GPG_ERR_MISSING_ERRNO`, which is neither "no error" nor `GPG_ERR_UNKNOWN_ERRNO`; any other errno gives the mapper's code |
| `GpgError.ErrorFromSyserror` | include/gpg-error.h:270-274 | errno 0 still gives a nonzero error value whose code is `GPG_ERR_MISSING_ERRNO`, with the default source; otherwise as `gpg_error` of the mapped code; bits 16-23 and bit 31 are always clear |
| `GpgErrorProperties.NoErrorCollapse` | include/gpg-error.h:174 | for every source, building "no error" gives 0, which reads back as the unknown source and "no error", so the source is lost |
| `GpgErrorProperties.CodeRoundTrip` | include/gpg-error.h:117-119 | for a code other than "no error", the code read back is the code masked to 16 bits, and the code itself when it is below 65536 |
| `GpgErrorProperties.SourceRoundTrip` | include/gpg-error.h:123-125 | for a code other than "no error", the source read back is the source masked to 7 bits, and the source itself when it is below 128 |
| `GpgErrorProperties.DecodeEncode` | include/gpg-error.h:171-207 | rebuilding a value from its own source and code gives it back if and only if its reserved bits are clear and it is 0 or carries a real code |
| `GpgErrorProperties.MakeIsWellFormed` | include/gpg-error.h:117-129 | every value built from an in-range code has its reserved bits clear and is 0 or carries a real code |
| `GpgErrorProperties.MakeInjective` | include/gpg-error.h:58-61 | on in-range sources and real in-range codes, two pairs build the same value if and only if they are the same pair, so the value keeps both pieces of information |
| `GpgErrorProperties.CodeMaskedToNoError` | include/gpg-error.h:174-176 | a nonzero code whose low 16 bits are clear builds a value that reads back "no error", and that value is 0 exactly when the masked source is 0 |
| `GpgErrorProperties.SystemErrorFlag` | include/gpg-error.h:100-101 | the system-error flag (bit 15) of a built value is the flag of its code |
| `GpgErrorProperties.AccessorsIgnoreReserved` | include/gpg-error.h:194-207 | setting any bits outside the code and source fields changes neither the code nor the source read |
| `GpgErrorProperties.DefaultSourceIsUnknown` | include/gpg-error.h:63-68 | without a component default, every `gpg_error` value reads back the unknown source |
| `GpgErrorProperties.SignedNonNegative` | include/gpg-error.h:127-129 | an error value read as a 32-bit signed integer is non-negative if and only if its highest bit is clear |
| `GpgErrorProperties.MakeNeverNegative` | include/gpg-error.h:127-129 | every built value has the same non-negative number whether it is read as unsigned or as signed, so it never prints as negative |
| `GpgErrorProperties.MakeAsNumber` | include/gpg-error.h:175-176 | as a number, a value built from a real code is the masked source times 2^24 plus the masked code |
| `GpgErrorProperties.CodeAsNumber` | include/gpg-error.h:197 | as a number, the code read from any value is the value modulo 2^16 |
| `GpgErrorProperties.SourceAsNumber` | include/gpg-error.h:205-206 | as a number, the source read from any value is the value divided by 2^24, modulo 2^7 |
| `GpgErrorText.Decimal` | include/gpg-error.h:127-129 | the decimal text of a number is a non-empty run of digits with no leading zero |
| `GpgErrorText.IntText` | include/gpg-error.h:127-129 | `%d` text is non-empty and starts with a minus sign if and only if the number is negative |
| `GpgErrorText.ReadDecimal` | include/gpg-error.h:127-129 | the receiver reads the decimal text of every number back as that number |
| `GpgErrorText.DecimalOfRead` | include/gpg-error.h:127-129 | whenever the receiver reads a number from a text with no leading zero, that text is the number's decimal text, so the receiver and `Decimal` are inverses in both directions |
| `GpgErrorText.DecimalRoundTrip` | include/gpg-error.h:127-129 | reading back the decimal text of any number gives that number |
| `GpgErrorText.SignedTextNegativeIff` | include/gpg-error.h:127-129 | an error value printed with `%d` starts with a minus sign if and only if its highest bit is set |
| `GpgErrorText.HighBitTextRejected` | include/gpg-error.h:127-129 | a value with the highest bit set prints as text that a digits-only receiver rejects |
| `GpgErrorText.MakeTextRoundTrip` | include/gpg-error.h:127-129 | every value `gpg_err_make` builds, printed with `%d` and read back, gives the same number |
| `GpgErrorProperties.ConcreteValues` | include/gpg-error.h:171-207 | source 5 with code 17 packs to 0x05000011 and reads back 17 and 5; source 5 with "no error" packs to 0, which reads back the unknown source and "no error"; source 0x85 with code 0x10011 masks down to 0x05000011 |

## Left out

- `gpg_err_init` and `gpg_err_deinit`, and the GCC version test that decides whether `gpg_err_init` runs as a load-time constructor (lines 132-164): they are declared only, and they do process initialisation with no logic in the header.
- `gpg_strerror`, `gpg_strerror_r` and `gpg_strsource` (lines 212-227): they are declared only, and they depend on external string tables, the locale and a shared buffer.
- The body of `gpg_err_code_from_errno` (line 235): it is declared only, and its errno table is platform data that is not part of this model. It is a function parameter of the wrappers instead.
- `gpg_err_code_to_errno` (line 240): it is declared only, and its reverse table is not part of this model. Nothing in the modelled core calls it.
- `gpg_err_set_errno` (line 251): it is declared only, and it writes the platform's global `errno`. The model has no global state.
- The global `errno` that `gpg_err_code_from_syserror` reads (line 246): the model passes its value in as the parameter `errno`.
- The enumerator lists brought in by `@include err-sources.h.in`, `err-codes.h.in`, `errnos.in` and `extra-h.in` (lines 85, 98, 102, 253): this is generated data that is not visible. The model has only the constants it needs.
- The `GPG_ERR_INLINE` keyword selection and the `extern "C"` scaffolding (lines 31-49, 276-278): they do not affect behaviour.
