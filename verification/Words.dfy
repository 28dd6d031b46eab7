/** Bytes, 32-bit words, and strings with a terminator. */
module Words {

  type Byte = b: nat | b < 256

  const WORD := 0x1_0000_0000

  /** 32 unsigned bits. */
  function U32(n: int): nat {
    n % 0x1_0000_0000
  }

  /** 32 signed bits. */
  function Signed32(n: int): int {
    var x := n % 0x1_0000_0000;
    if x < 0x8000_0000 then x else x - 0x1_0000_0000
  }

  /** The character at a place; the terminator at the end. */
  function At(s: string, i: nat): char {
    if i < |s| then s[i] else '\0'
  }
}
