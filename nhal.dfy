/**
 * Types of the NHAL I2C transport interface that the 24C32 driver consumes:
 * fixed-width integers, the transport's result codes, the device address
 * and the shape of each bus transaction the driver can issue.
 */
module Nhal {

  /** uint8_t */
  newtype uint8 = x: int | 0 <= x < 0x100

  /** uint16_t */
  newtype uint16 = x: int | 0 <= x < 0x1_0000

  /** An argument that may be NULL: `None` is NULL, `Some(v)` refers to `v`. */
  datatype Option<T> = None | Some(value: T)

  /**
   * nhal_result_t, one constructor per enumerator the driver names.
   * `NhalUnknown` stands for any other value the enum variable may hold
   * (the `default` branch of the driver's switch).
   */
  datatype HalResult =
    | NhalOk
    | NhalErrTimeout
    | NhalErrNoResponse
    | NhalErrTransmissionError
    | NhalErrHwFailure
    | NhalErrBusy
    | NhalErrNotInitialized
    | NhalErrNotConfigured
    | NhalErrInvalidArg
    | NhalErrOther
    | NhalUnknown(code: int)

  /** nhal_i2c_address; the driver only ever builds 7-bit addresses. */
  datatype I2cAddress = SevenBit(address: uint8)

  /**
   * One call into the transport, as recorded in a trace:
   * nhal_i2c_master_write (address prefix and payload in one buffer),
   * nhal_i2c_master_read of `count` bytes, and
   * nhal_i2c_master_write_read_reg (send `reg`, then read `count` bytes).
   */
  datatype Transaction =
    | MasterWrite(dev: I2cAddress, bytes: seq<uint8>)
    | MasterRead(dev: I2cAddress, count: nat)
    | MasterWriteReadReg(dev: I2cAddress, reg: seq<uint8>, count: nat)
}
