/**
 * The public constants and the result type of the 24C32 driver.
 */
module Eeprom24c32Defs {

  /** EEPROM_24C32_SIZE_BYTES: total capacity of the device. */
  const SizeBytes: nat := 4096

  /** EEPROM_24C32_PAGE_SIZE_BYTES: one write transaction never crosses a page of this size. */
  const PageSizeBytes: nat := 32

  /** EEPROM_24C32_WRITE_CYCLE_TIME_MS: the readiness-poll budget after each page write. */
  const WriteCycleTimeMs: nat := 5

  /** eeprom_24c32_result_t */
  datatype EepromResult =
    | Ok
    | ErrInvalidArg
    | ErrAddressOutOfRange
    | ErrI2cError
    | ErrWriteTimeout
}
