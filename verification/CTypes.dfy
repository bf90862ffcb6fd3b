/** The C integer types, conversions and constants that the modelled files rely on. */
module CTypes {
  newtype byte = x: int | 0 <= x < 256

  const NUL: byte := 0
  const NEWLINE: byte := 10

  type uint8 = x: nat | x < 0x100
  type uint32 = x: nat | x < 0x1_0000_0000
  type size_t = x: nat | x < TWO_TO_64

  const TWO_TO_63: int := 0x8000_0000_0000_0000
  const TWO_TO_64: int := 0x1_0000_0000_0000_0000

  // Error numbers of the kernel, negated where a driver entry point returns them.
  const ENOMEM: int := 12
  const EFAULT: int := 14
  const EINVAL: int := 22
  const ERESTARTSYS: int := 512

  datatype Option<+T> = None | Some(value: T)

  /** A pointer to a heap block: NULL, or the block's address. */
  datatype Pointer = Null | At(address: nat)

  /** Conversion to `uint8_t`. */
  function ToUint8(x: int): uint8 {
    x % 0x100
  }

  /** Conversion of a `size_t` to `ssize_t`. */
  function ToSsize(x: size_t): int {
    if x < TWO_TO_63 then x else x - TWO_TO_64
  }

  /** A sum of two in-range indices wraps at most once. */
  lemma WrapOnce(x: nat, n: nat)
    requires 0 < n && x < 2 * n
    ensures x % n == if x < n then x else x - n
  {
    if x >= n {
      assert x == n + (x - n);
    }
  }

  /** The C remainder operator, which takes the sign of its left operand
      (section 6.5.5 of ISO/IEC 9899:2011). */
  function TruncatedRemainder(a: int, b: int): int
    requires b > 0
  {
    if a >= 0 then a % b else -(-a % b)
  }

  function Min(a: int, b: int): int {
    if a < b then a else b
  }

  /** The first `n` elements of `s`, or all of it when it is shorter. */
  function Take<T>(s: seq<T>, n: nat): seq<T> {
    s[..Min(n, |s|)]
  }

  /** What is left of `s` after its first `n` elements, which is nothing when it is shorter. */
  function Drop<T>(s: seq<T>, n: nat): seq<T> {
    s[Min(n, |s|)..]
  }

  lemma AppendAssociates<T>(a: seq<T>, b: seq<T>, c: seq<T>)
    ensures (a + b) + c == a + (b + c)
  {
  }
}
