/** Machine word sizes and their arithmetic. */
module Words {
  const U32 := 0x1_0000_0000
  const U64 := 0x1_0000_0000_0000_0000

  /** A u32 result. */
  function W(x: nat): (r: nat)
    ensures r < U32
  {
    x % U32
  }

  lemma WSmall(x: nat)
    requires x < U32
    ensures W(x) == x
  {
  }

  lemma WAdd(x: nat, y: nat)
    ensures W(W(x) + y) == W(x + y)
  {
  }
}
