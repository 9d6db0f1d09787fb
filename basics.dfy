/** Machine types and small wrappers shared by the rest of the model. */
module Basics {

  /** An octet, as stored in a C++ `char` buffer. */
  newtype byte = b: int | 0 <= b < 256

  type Bytes = seq<byte>

  const UINT16_LIMIT: int := 0x1_0000
  const UINT32_LIMIT: int := 0x1_0000_0000
  const UINT64_LIMIT: int := 0x1_0000_0000_0000_0000
  const UINT32_MAX: int := UINT32_LIMIT - 1

  type uint16 = x: int | 0 <= x < UINT16_LIMIT
  type uint32 = x: int | 0 <= x < UINT32_LIMIT
  type uint64 = x: int | 0 <= x < UINT64_LIMIT

  /** A C++ implicit conversion of a (possibly negative) integer to an unsigned
      32-bit integer: reduction modulo 2^32. */
  function ToUint32(x: int): (r: uint32)
    ensures (x - r) % UINT32_LIMIT == 0
    ensures 0 <= x < UINT32_LIMIT ==> r == x
  {
    x % UINT32_LIMIT
  }

  /** The same for an unsigned 16-bit integer (`in_port_t`). */
  function ToUint16(x: int): (r: uint16)
    ensures (x - r) % UINT16_LIMIT == 0
    ensures 0 <= x < UINT16_LIMIT ==> r == x
  {
    x % UINT16_LIMIT
  }

  function Max(a: nat, b: nat): (m: nat)
    ensures m >= a && m >= b && (m == a || m == b)
  {
    if a >= b then a else b
  }

  datatype Option<T> = None | Some(value: T)
}
