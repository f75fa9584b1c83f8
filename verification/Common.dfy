/** What several modules share: optional values, bytes, and the sizes of machine words. */
module Common {

  datatype Option<+T> = None | Some(value: T)

  type Byte = x: nat | x < 256

  const TWO32: nat := 0x1_0000_0000
  const TWO64: nat := 0x1_0000_0000_0000_0000
}
