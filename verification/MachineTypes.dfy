/** The fixed-width integers of the C++ sources, and the optional result. */
module MachineTypes {
  import opened Arithmetic

  const TWO_32: nat := 0x1_0000_0000
  const TWO_63: nat := 0x8000_0000_0000_0000
  const TWO_64: nat := 0x1_0000_0000_0000_0000

  type byte = x: int | 0 <= x < 0x100
  type uint32 = x: int | 0 <= x < 0x1_0000_0000
  type uint64 = x: int | 0 <= x < 0x1_0000_0000_0000_0000

  /** Whole turns of a 64-bit value do not show. */
  lemma WrapShift(x: int, q: int)
    ensures (x - TWO_64 * q) % TWO_64 == x % TWO_64
  {
    DivModUnique(x - TWO_64 * q, TWO_64, x / TWO_64 - q, x % TWO_64);
  }

  datatype Option<+T> = None | Some(value: T)
}
