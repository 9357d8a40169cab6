/** Character classes and NUL-terminated strings, as the kernel's ctype
    helpers see them on 7-bit ASCII. A C string is modelled by the bytes
    before its terminator; reading at or past the end yields NUL. */
module CString {

  /** The byte at index k of the C string s: past the end it is the terminator. */
  function At(s: string, k: int): char
  {
    if 0 <= k < |s| then s[k] else '\0'
  }

  predicate IsDigit(c: char) { '0' <= c <= '9' }

  predicate IsLower(c: char) { 'a' <= c <= 'z' }

  /** s holds no terminator inside it, so it is the whole C string. */
  predicate NoNul(s: string) { forall i :: 0 <= i < |s| ==> s[i] != '\0' }

  /** Every byte is 7-bit ASCII. */
  predicate IsAscii(s: string) { forall i :: 0 <= i < |s| ==> s[i] < 128 as char }

  predicate AllDigits(ds: string) { forall i :: 0 <= i < |ds| ==> IsDigit(ds[i]) }
}
