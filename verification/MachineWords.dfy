/** Fixed-width unsigned numbers. */
module MachineWords {
  type Byte = b: int | 0 <= b < 0x100

  const UINT32 := 0x1_0000_0000
}
