/** Code units of 16 bits and surrogate pairs (`is_surrogate` and the like of cutils.h). */
module Surrogates {
  type Unit = u: int | 0 <= u <= 0xffff

  predicate IsHiSurrogate(c: int) { 0xD800 <= c <= 0xDBFF }

  predicate IsLoSurrogate(c: int) { 0xDC00 <= c <= 0xDFFF }

  function FromSurrogate(hi: int, lo: int): int {
    0x10000 + 0x400 * (hi - 0xD800) + (lo - 0xDC00)
  }
}
