/** The machine's unsigned widths, as integers with a range. Shifts and masks
    of unsigned words are written as `/` and `%` throughout the project. */
module Machine {
  type byte = x: int | 0 <= x < 0x100
  type uint16 = x: int | 0 <= x < 0x1_0000
  type uint32 = x: int | 0 <= x < 0x1_0000_0000

  /** 32-bit unsigned addition. */
  function Add32(a: uint32, b: uint32): uint32 {
    if a + b < 0x1_0000_0000 then a + b else a + b - 0x1_0000_0000
  }

  datatype Option<+T> = None | Some(value: T)
}
