/** Fixed-width numbers. */
module Words {
  type byte = x: int | 0 <= x < 0x100
  type uint16 = x: int | 0 <= x < 0x1_0000
  type uint32 = x: int | 0 <= x < TWO_32

  const TWO_32: int := 0x1_0000_0000

  // Go's uint32 addition.
  function Add32(a: uint32, n: nat): uint32 { (a + n) % TWO_32 }

  lemma AddAdd(a: uint32, m: nat, n: nat)
    ensures Add32(Add32(a, m), n) == Add32(a, m + n)
  {
  }
}
