/** What several of the models use. */
module Basics {
  type Byte = x: int | 0 <= x < 0x100
  type Ushort = x: int | 0 <= x < 0x1_0000
  // A 16-bit unit of text.
  type Unit = Ushort
  type Wchar = x: int | 0 <= x < 0x1_0000_0000

  datatype Option<T> = None | Some(value: T)

  function Min(a: int, b: int): int { if a <= b then a else b }

  function Max(a: int, b: int): int { if a <= b then b else a }
}
