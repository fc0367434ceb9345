/** Types that several modules share. */
module Common {

  type Addr = int

  type Byte = x: nat | x < 256

  const U64_MAX: nat := 0xFFFF_FFFF_FFFF_FFFF

  datatype Option<T> = None | Some(value: T)
}
