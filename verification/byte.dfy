/** The unit of every device and buffer in the model. */
module Byte {
  newtype byte = x: int | 0 <= x < 256
}
