/** Masking of unsigned numbers. */
module Bits {
  import opened Arithmetic

  /** x & y. */
  function And(x: nat, y: nat): nat
    decreases x
  {
    if x == 0 || y == 0 then 0
    else 2 * And(x / 2, y / 2) + if x % 2 == 1 && y % 2 == 1 then 1 else 0
  }

  lemma {:induction false} AndAtMost(x: nat, y: nat)
    ensures And(x, y) <= y
    decreases x
  {
    if x != 0 && y != 0 { AndAtMost(x / 2, y / 2); }
  }

  function Pow2(p: nat): (r: nat)
    ensures r > 0
  {
    if p == 0 then 1 else 2 * Pow2(p - 1)
  }

  ghost predicate IsPow2(a: nat) { exists p: nat :: a == Pow2(p) }

  lemma HalfMod(x: nat, m: nat)
    requires m > 0
    ensures x % (2 * m) == 2 * (x / 2 % m) + x % 2
  {
    var h := x / 2;
    assert x == (h / m) * (2 * m) + (2 * (h % m) + x % 2);
    ModUnique(x, 2 * m, h / m, 2 * (h % m) + x % 2);
  }

  /** Masking with 2^p - 1 keeps the remainder modulo 2^p. */
  lemma {:induction false} AndMask(x: nat, p: nat)
    ensures And(x, Pow2(p) - 1) == x % Pow2(p)
    decreases p
  {
    if p > 0 {
      HalfMod(x, Pow2(p - 1));
      assert (Pow2(p) - 1) / 2 == Pow2(p - 1) - 1;
      AndMask(x / 2, p - 1);
      if x == 0 { assert 0 % Pow2(p) == 0; }
    }
  }

  lemma {:induction false} AndSelf(x: nat)
    ensures And(x, x) == x
    decreases x
  {
    if x > 0 { AndSelf(x / 2); }
  }

  lemma {:induction false} NoCommonBitMeansPow2(a: nat)
    requires a > 0 && And(a, a - 1) == 0
    ensures IsPow2(a)
    decreases a
  {
    if a % 2 == 1 {
      OddAndPred(a);
      assert a == Pow2(0);
    } else {
      assert (a - 1) / 2 == a / 2 - 1;
      NoCommonBitMeansPow2(a / 2);
      var p: nat :| a / 2 == Pow2(p);
      assert a == Pow2(p + 1);
    }
  }

  lemma OddAndPred(a: nat)
    requires a % 2 == 1
    ensures And(a, a - 1) == a - 1
  {
    assert (a - 1) / 2 == a / 2;
    AndSelf(a / 2);
  }

  /** Masking with a - 1 is the remainder modulo a for every number exactly when a is a power of two. */
  lemma MaskIsModIff(a: nat)
    requires a > 0
    ensures (forall x: nat :: And(x, a - 1) == x % a) <==> IsPow2(a)
  {
    if IsPow2(a) {
      var p: nat :| a == Pow2(p);
      forall x: nat ensures And(x, a - 1) == x % a {
        AndMask(x, p);
      }
    } else {
      ModUnique(a, a, 1, 0);
      if And(a, a - 1) == 0 {
        NoCommonBitMeansPow2(a);
      }
    }
  }

  lemma {:induction false} Pow2Add(a: nat, b: nat)
    ensures Pow2(a + b) == Pow2(a) * Pow2(b)
  {
    if a > 0 { Pow2Add(a - 1, b); }
  }

  lemma Pow2Values()
    ensures Pow2(12) == 0x1000 && Pow2(32) == 0x1_0000_0000 && Pow2(64) == 0x1_0000_0000_0000_0000
  {
    SmallPow2();
    hide Pow2;
    Pow2Add(4, 4);
    Pow2Add(8, 4);
    Pow2Add(8, 8);
    Pow2Add(16, 16);
    Pow2Add(32, 32);
  }

  lemma SmallPow2()
    ensures Pow2(4) == 16
  {
    assert Pow2(2) == 4;
  }

  /** Truncating to a larger power of two does not change the remainder modulo a smaller one. */
  lemma ModOfPow2(x: nat, p: nat, q: nat)
    requires p <= q
    ensures x % Pow2(q) % Pow2(p) == x % Pow2(p)
  {
    Pow2Add(p, q - p);
    ModOfProduct(x, Pow2(p), Pow2(q - p));
  }
}
