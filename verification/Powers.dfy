/** Powers of two. */
module Powers {
  import opened Machine
  function Pow2(n: nat): (p: nat)
    ensures p >= 1
  {
    if n == 0 then 1 else 2 * Pow2(n - 1)
  }

  lemma {:induction false} Pow2Sum(a: nat, b: nat)
    ensures Pow2(a + b) == Pow2(a) * Pow2(b)
  {
    if a == 0 {
    } else {
      Pow2Sum(a - 1, b);
      assert Pow2(a + b) == 2 * Pow2(a - 1 + b);
    }
  }

  lemma {:induction false} Pow2Monotone(a: nat, b: nat)
    requires a <= b
    ensures Pow2(a) <= Pow2(b)
  {
    if b == 0 {
    } else {
      Pow2Monotone(if a == b then a - 1 else a, b - 1);
    }
  }

  lemma Pow2Shift(n: nat)
    ensures Pow2(n + 2) == 4 * Pow2(n) && Pow2(n + 4) == 16 * Pow2(n) && Pow2(n + 8) == 256 * Pow2(n)
  {
    assert Pow2(n + 1) == 2 * Pow2(n) && Pow2(n + 3) == 2 * Pow2(n + 2);
    assert Pow2(n + 5) == 2 * Pow2(n + 4) && Pow2(n + 7) == 2 * Pow2(n + 6);
  }

  lemma Widths()
    ensures TWO16 == Pow2(16) && TWO32 == Pow2(32)
  {
    assert Pow2(4) == 0x10 && Pow2(8) == 0x100 && Pow2(12) == 0x1000;
    Pow2Sum(16, 16);
  }
}
