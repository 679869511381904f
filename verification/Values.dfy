/** Types that several parts of the model share. */
module Values {
  datatype Option<T> = None | Some(value: T)

  type byte = b: nat | b < 0x100
}
