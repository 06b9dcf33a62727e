/** Shared vocabulary of the firmware model: optional values, the C integer
    widths the firmware uses, and reading a buffer as if a NUL byte followed
    its last element. Bytes and C characters are both `char`; protocol text
    is written with char literals. */
module Common {

  datatype Option<T> = None | Some(value: T)

  /** C fixed-width unsigned integers. */
  type u8 = x: int | 0 <= x < 0x100
  type u16 = x: int | 0 <= x < 0x1_0000
  type u32 = x: int | 0 <= x < 0x1_0000_0000

  const U32_MOD: int := 0x1_0000_0000
  const U16_MOD: int := 0x1_0000
  const U8_MOD: int := 0x100

  /** The byte at position i of a buffer that is followed by NUL bytes:
      C code that dereferences one element past a frame (or a string) reads
      the terminator that the model places there. */
  function At(s: seq<char>, i: nat): char
  {
    if i < |s| then s[i] else '\0'
  }

  /** A C string's contents: no NUL before its terminator. */
  predicate CStr(s: seq<char>)
  {
    forall i :: 0 <= i < |s| ==> s[i] != '\0'
  }

  function Min(a: int, b: int): int
  {
    if a <= b then a else b
  }
}
