/** Value types shared by the EAN-8 modules. */
module Base {

  datatype Option<T> = None | Some(value: T)

  /** An 8-bit unsigned pixel intensity (`uint8_t` / `unsigned char`). */
  type Byte = b: int | 0 <= b < 256

  /** One module of a resampled bitstream: 1 = bar, 0 = space. */
  type Bit = b: int | 0 <= b <= 1
}
