/** Bytes and byte strings: the text of queries, words, URLs and chunk files. */
module Bytes {
  type byte = b: int | 0 <= b < 256

  type Text = seq<byte>

  const SPACE: byte := 32
  const TAB: byte := 9
  const NEWLINE: byte := 10
  const RETURN: byte := 13

  const UINT32_MAX: nat := 0xFFFF_FFFF
}
