/** The types that several parts of the model share. */
module Common {

  type Byte = b: int | 0 <= b < 0x100

  type Half = h: int | 0 <= h < 0x1_0000

  datatype Option<+T> = None | Some(value: T)
}
