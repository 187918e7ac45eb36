/** Value types shared by the model of the firmware manager: bytes, the IOKit status
    codes the manager returns, firmware descriptors and C arrays passed with a count. */
module KernelTypes {

  /** One octet of firmware data. */
  type byte = b: int | 0 <= b < 0x100

  /** An IOReturn (or OSReturn) status: a 32-bit code, written as its unsigned value. */
  type IOReturn = c: int | 0 <= c < 0x1_0000_0000

  /** kIOReturnSuccess: zero, the only code that callers read as success. */
  const IOReturnSuccess: IOReturn := 0

  /** kIOReturnError, iokit_common_err(0x2bc). */
  const IOReturnError: IOReturn := 0xe000_02bc

  /** kIOReturnInvalid, iokit_common_err(0x1). */
  const IOReturnInvalid: IOReturn := 0xe000_0001

  /** kIOReturnUnsupported, iokit_common_err(0x2c7). */
  const IOReturnUnsupported: IOReturn := 0xe000_02c7

  datatype Option<T> = None | Some(value: T)

  /** A FirmwareDescriptor: the firmware's name and the firmwareSize bytes at firmwareData. */
  datatype Descriptor = Descriptor(name: string, data: seq<byte>)

  /** The elements a C array passed with a signed element count makes available:
      the first `count` of them, and none when `count` is zero or negative. */
  function Leading<T>(xs: seq<T>, count: int): (r: seq<T>)
    requires count <= |xs|
    ensures |r| == if count <= 0 then 0 else count
    ensures forall i :: 0 <= i < |r| ==> r[i] == xs[i]
  {
    if count <= 0 then [] else xs[..count]
  }
}
