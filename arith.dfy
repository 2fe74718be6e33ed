/** Facts about products of naturals, used for row-major and slot indices. */
module Arith {

  lemma {:induction false} MulLe(x: nat, y: nat, z: nat)
    requires x <= y
    ensures x * z <= y * z
  {
    if z > 0 {
      MulLe(x, y, z - 1);
      assert x * z == x * (z - 1) + x && y * z == y * (z - 1) + y;
    }
  }

  lemma {:induction false} MulLeInt(x: int, y: int, z: nat)
    requires x <= y
    ensures x * z <= y * z
  {
    if z > 0 {
      MulLeInt(x, y, z - 1);
      assert x * z == x * (z - 1) + x && y * z == y * (z - 1) + y;
    }
  }

  /** One more row of b: (a + 1) * b == a * b + b. */
  lemma MulSucc(a: int, b: int)
    ensures (a + 1) * b == a * b + b
  {
  }

}
