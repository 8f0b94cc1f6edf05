/** The fixed-width integer types the USB stack and the EEM engine exchange. Integers are kept as
    bounded `int`s so that lengths computed by the engine and bytes stored in its buffers live in
    the same arithmetic; bit extraction is written as division and remainder by powers of two. */
module UsbTypes {
  /** `uint8_t` */
  type Byte = x: int | 0 <= x < 0x100

  /** `uint16_t` */
  type Word = x: int | 0 <= x < 0x1_0000
}
