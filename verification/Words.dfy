/** The machine's integers: arithmetic is on unbounded integers and wrapped where the code stores it. */
module Words {
  const LIMIT16: nat := 0x1_0000
  const LIMIT32: nat := 0x1_0000_0000

  function U16(x: int): (m: nat)
    ensures m < LIMIT16
    ensures 0 <= x < LIMIT16 ==> m == x
  {
    x % LIMIT16
  }

  function U32(x: int): (m: nat)
    ensures m < LIMIT32
    ensures 0 <= x < LIMIT32 ==> m == x
  {
    x % LIMIT32
  }

  lemma WrapAdd(a: nat, b: nat)
    ensures U32(U32(a) + b) == U32(a + b)
  {
  }

  function I32(x: int): int {
    if U32(x) < 0x8000_0000 then U32(x) else U32(x) - LIMIT32
  }

  predicate IsInt(x: int) {
    -0x8000_0000 <= x < 0x8000_0000
  }
}
