/** Small types and constants that several components share. */
module Values {

  datatype Option<+T> = None | Some(value: T)

  type Byte = b: int | 0 <= b < 256

  /** The size of the CPU table. */
  const NCPU := 64
}
