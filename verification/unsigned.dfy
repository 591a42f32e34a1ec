/** Fixed-width unsigned integers of the modelled C, Go and numpy code. */
module Unsigned {

  /** An 8-bit unsigned value (C `uint8_t`, Go `uint8`, numpy `uint8`). */
  type byte = x: int | 0 <= x < 256

  /** A 16-bit unsigned value (C `uint16_t`, numpy `uint16`). */
  type u16 = x: int | 0 <= x < 65536
}
