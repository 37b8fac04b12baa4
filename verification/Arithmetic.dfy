/** The smaller of two numbers; division and remainder by a variable. */
module Arithmetic {

  function Min(a: nat, b: nat): nat { if a <= b then a else b }

  lemma DivStep(x: nat, b: nat)
    requires b > 0 && x >= b
    ensures (x + b) / b == 1 + x / b
  {
    var q, r := x / b, x % b;
    assert x + b == (q + 1) * b + r;
    DivUnique(x + b, b, q + 1, r);
  }

  lemma DivSmall(x: nat, b: nat)
    requires 0 < b && x < b
    ensures (x + b) / b == 1
  {
    DivUnique(x + b, b, 1, x);
  }

  lemma DivZero(x: nat, b: nat)
    requires x < b
    ensures x / b == 0
  {
    DivUnique(x, b, 0, x);
  }

  lemma MulSign(k: int, b: int)
    requires b > 0
    ensures k >= 1 ==> k * b >= b
    ensures k >= 0 ==> k * b >= 0
    ensures k <= -1 ==> k * b <= -b
  {
  }

  lemma DivUnique(x: nat, b: nat, q: nat, r: nat)
    requires r < b && x == q * b + r
    ensures x / b == q
  {
    var d := x / b;
    assert (d - q) * b == r - x % b;
    MulSign(d - q, b);
  }

  lemma DivBelow(x: nat, b: nat, k: nat)
    requires b > 0
    ensures x / b < k <==> x < k * b
  {
    var d := x / b;
    assert (d - k) * b == x - x % b - k * b;
    MulSign(d - k, b);
  }

  lemma ModUnique(x: nat, b: nat, q: nat, r: nat)
    requires r < b && x == q * b + r
    ensures x % b == r
  {
    DivUnique(x, b, q, r);
  }

  lemma ModAdd(x: nat, y: nat, b: nat)
    requires b > 0
    ensures (x % b + y) % b == (x + y) % b
  {
    var q, z := x / b, x % b + y;
    assert x + y == (q + z / b) * b + z % b;
    ModUnique(x + y, b, q + z / b, z % b);
  }

  lemma DivMod(x: nat, b: nat) returns (q: nat, r: nat)
    requires b > 0
    ensures q == x / b && r == x % b && r < b && x == q * b + r
  {
    q, r := x / b, x % b;
  }

  lemma ModOfProduct(x: nat, a: nat, k: nat)
    requires a > 0 && k > 0
    ensures a * k > 0 && x % (a * k) % a == x % a
  {
    MulSign(a, k);
    var h, r := DivMod(x, a * k);
    ModOfParts(x, a, k, h, r);
  }

  lemma ModOfParts(x: nat, a: nat, k: nat, h: nat, r: nat)
    requires a > 0 && x == h * (a * k) + r
    ensures x % a == r % a
  {
    var q, s := DivMod(r, a);
    ProductRegroup(h, a, k, q);
    ModUnique(x, a, h * k + q, s);
  }

  lemma ProductRegroup(h: nat, a: nat, k: nat, q: nat)
    ensures h * (a * k) + q * a == (h * k + q) * a
  {
  }

  /** The remainder of a multiple of a modulo a * k. */
  lemma MultipleMod(q: nat, a: nat, k: nat)
    requires a > 0 && k > 0
    ensures a * k > 0 && a * q % (a * k) == a * (q % k)
  {
    MulSign(a, k);
    var d, m := DivMod(q, k);
    Regroup(a, k, d, m);
    Scale(m, k, a);
    ModUnique(a * q, a * k, d, a * m);
  }

  lemma Regroup(a: nat, k: nat, d: nat, m: nat)
    ensures a * (d * k + m) == d * (a * k) + a * m
  {
  }

  lemma Scale(m: nat, k: nat, a: nat)
    requires m < k && a > 0
    ensures a * m < a * k
  {
  }
}
