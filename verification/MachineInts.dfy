/** The unsigned integers of the C code, and its truth values as numbers. */
module MachineInts {
  type byte = x: int | 0 <= x < 256
  type u16 = x: int | 0 <= x < 0x10000
  type u32 = x: int | 0 <= x < 0x1_0000_0000

  function One(b: bool): nat { if b then 1 else 0 }
}
