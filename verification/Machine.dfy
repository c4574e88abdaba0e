/** The widths of the machine's numbers. */
module Machine {
  const TWO16: nat := 0x1_0000
  const TWO32: nat := 0x1_0000_0000

  type Byte = x: int | 0 <= x < 0x100
  type U16 = x: int | 0 <= x < TWO16
  type U32 = x: int | 0 <= x < TWO32

  datatype Option<+T> = None | Some(value: T)
}
