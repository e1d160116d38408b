/** Bytes as C sees them, and the few character codes the protocols share. */
module Bytes {
  type byte = b: int | 0 <= b < 256

  const NUL: byte := 0
  const LF: byte := 10
  const CR: byte := 13
  const SPACE: byte := 32
  const QUOTE: byte := '\"' as int
  const BACKSLASH: byte := '\\' as int

  datatype Option<+T> = None | Some(value: T)

  predicate IsDigit(b: byte) { '0' as int <= b <= '9' as int }

  /** The digit of a hexadecimal numeral. */
  function HexChar(v: int): byte
    requires 0 <= v < 16
  {
    if v < 10 then '0' as int + v else 'a' as int + v - 10
  }

  /** The byte a pointer into NUL-terminated text points at, given the text that remains from there on. */
  function Peek(s: seq<byte>): byte {
    if s == [] then NUL else s[0]
  }

  /** The chunks of a stream, put back together. */
  function Flatten(chunks: seq<seq<byte>>): seq<byte> {
    if chunks == [] then [] else chunks[0] + Flatten(chunks[1..])
  }
}
