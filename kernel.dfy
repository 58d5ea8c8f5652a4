/** Kernel-level vocabulary shared by the driver model: bytes, optional values
    (a pointer that may be NULL), the errno values the driver returns, and the
    implicit conversion of a signed file offset (loff_t) to size_t. */
module Kernel {

  /** A possibly-NULL pointer to a value. */
  datatype Option<+T> = None | Some(value: T)

  type byte = b: int | 0 <= b < 256

  /** The line terminator '\n'. */
  const NEWLINE: byte := 10

  // errno values of the Linux kernel headers; the driver returns their negations
  const ENOMEM: int := 12
  const EFAULT: int := 14
  const EINVAL: int := 22
  const ERESTARTSYS: int := 512

  const SIZE_T_MODULUS: int := 0x1_0000_0000_0000_0000

  /** C's conversion of a 64-bit loff_t to a 64-bit size_t: the value modulo 2^64,
      so a negative offset becomes a very large one. */
  function ToSizeT(x: int): (r: nat)
    ensures r < SIZE_T_MODULUS
    ensures 0 <= x < SIZE_T_MODULUS ==> r == x
    ensures -SIZE_T_MODULUS <= x < 0 ==> r == x + SIZE_T_MODULUS
  {
    x % SIZE_T_MODULUS
  }

  function Min(a: nat, b: nat): (r: nat)
    ensures r <= a && r <= b && (r == a || r == b)
  {
    if a <= b then a else b
  }
}
