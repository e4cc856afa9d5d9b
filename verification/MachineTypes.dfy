/** The C integer types of kernel/config.h and a few shared constants. */
module MachineTypes {
  type uint8 = x: int | 0 <= x < 0x100
  type uint16 = x: int | 0 <= x < 0x1_0000
  type uint32 = x: int | 0 <= x < 0x1_0000_0000

  const WORD := 0x1_0000_0000

  /** What a uint32 keeps of a result. */
  function Wrap(x: int): (r: uint32) {
    x % WORD
  }

  lemma WrapOnce(a: int, b: int)
    ensures Wrap(Wrap(a) + b) == Wrap(a + b)
  {
  }

  const PAGE_SIZE := 4096
}
