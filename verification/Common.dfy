/** Types that several models share. */
module Common {

  type Octet = x: nat | x < 0x100

  datatype Option<T> = None | Some(value: T)
}
