/** Go strings and byte slices, and the result of an operation that can fail. */
module Bytes {

  /** One byte, written as the character with that code. */
  type Byte = c: char | c as int < 256 witness 'a'

  /** A Go `string` or `[]byte`. */
  type Bytes = seq<Byte>

  /** A Unicode scalar value. */
  predicate IsScalar(point: nat) {
    point < 0xD800 || 0xE000 <= point < 0x110000
  }

  /** Its encoding in UTF-8 (RFC 3629, section 3). */
  function Utf8(point: nat): Bytes
    requires IsScalar(point)
  {
    if point < 0x80 then [point as char]
    else if point < 0x800 then [(0xC0 + point / 64) as char, (0x80 + point % 64) as char]
    else if point < 0x10000 then
      [(0xE0 + point / 4096) as char, (0x80 + point / 64 % 64) as char, (0x80 + point % 64) as char]
    else
      [(0xF0 + point / 262144) as char, (0x80 + point / 4096 % 64) as char,
       (0x80 + point / 64 % 64) as char, (0x80 + point % 64) as char]
  }

  datatype Option<+T> = None | Some(value: T)

  /** What a Go function returning `error` reports. */
  datatype Status = Ok | Failed
}
