/** Types shared by the components. */
module Prelude {
  type Byte = bv8

  datatype Option<+T> = None | Some(value: T)

  /** A MAC address (MWIFI_ADDR_LEN bytes). */
  datatype Addr = Mac(b0: Byte, b1: Byte, b2: Byte, b3: Byte, b4: Byte, b5: Byte)

  function Min(a: int, b: int): int {
    if a <= b then a else b
  }
}
