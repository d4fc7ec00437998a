/** The `IOReturn` status codes the driver returns. */
module IoReturn {
  /** `kIOReturnSuccess`. */
  const Success: int := 0

  /** `kIOReturnError`, 0xE00002BC, read as the signed 32-bit value it is. */
  const GeneralError: int := 0xE00002BC - 0x1_0000_0000
}
