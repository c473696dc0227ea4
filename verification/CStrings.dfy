/** NUL-terminated strings. */
module CStrings {
  const NUL := '\0'
  const SIZE_MAX := 0xFFFF_FFFF_FFFF_FFFF

  /** A NUL-terminated string whose characters size_t can index. */
  type CString = s: string | NUL !in s && |s| < SIZE_MAX witness ""

  /** Reading a C string up to and including its terminator. */
  function At(s: CString, i: nat): char
    requires i <= |s|
  {
    if i < |s| then s[i] else NUL
  }
}
