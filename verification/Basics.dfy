/** Small types and results that several components share. */
module Basics {

  type byte = n: int | 0 <= n < 0x100
  type int8 = n: int | -0x80 <= n < 0x80
  type uint8 = byte
  type uint16 = n: int | 0 <= n < 0x1_0000
  type nat32 = n: int | 0 <= n < 0x1_0000_0000

  datatype Option<+T> = None | Some(value: T)

  const LORA_OK: int := 0
}
