/** Results shared by the whole model. A kernel panic stops the machine for good, so an
    operation that panics returns Panic and nothing is promised about running on. */
module Outcomes {
  datatype Option<+T> = None | Some(value: T)

  datatype Outcome = Done | Panic(message: string)

  /** One more than the largest unsigned 64-bit value. */
  const WORD: nat := 0x1_0000_0000_0000_0000

  /** Unsigned 64-bit addition. */
  function WrapAdd(a: nat, b: nat): (c: nat)
    requires a < WORD && b < WORD
    ensures c < WORD
  {
    if a + b < WORD then a + b else a + b - WORD
  }

  const PAGE_SIZE: nat := 4096
}
