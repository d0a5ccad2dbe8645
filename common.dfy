/** Definitions shared by every part of the model. */
module Common {

  /** The absent-or-present value that stands for a C pointer that may be NULL. */
  datatype Option<+T> = None | Some(value: T)

  /** An unsigned 8-bit byte. */
  newtype byte = x: int | 0 <= x < 256

  /** 2^32: the modulus of the source's `uint32_t` arithmetic. */
  const U32_MOD: nat := 0x1_0000_0000

  /** A value of the source's `uint32_t` type. */
  type u32 = x: nat | x < U32_MOD

  /** Concatenation is associative; stated once so that large proofs can cite it. */
  lemma AppendAssoc<T>(x: seq<T>, y: seq<T>, z: seq<T>)
    ensures (x + y) + z == x + (y + z)
  {
  }
}
