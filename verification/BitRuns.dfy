/** When the set bits of a mask are next to each other. */
module BitRuns {
  import opened Machine
  import opened Powers
  import opened Bits
  import opened BitMasks

  /** The lowest `k` bits of `v`, and the others. */
  function Low(v: nat, k: nat): nat {
    if k == 0 then 0 else v % 2 + 2 * Low(v / 2, k - 1)
  }

  function High(v: nat, k: nat): nat {
    if k == 0 then v else High(v / 2, k - 1)
  }

  predicate IsSet(v: nat, k: nat) {
    High(v, k) % 2 == 1
  }

  lemma {:induction false} OnesSplit(v: nat, k: nat)
    ensures Ones(v) == Ones(Low(v, k)) + Ones(High(v, k))
  {
    if k == 0 {
    } else {
      OnesSplit(v / 2, k - 1);
      OnesUnfold(v);
      OnesStep(Low(v / 2, k - 1), v % 2);
    }
  }

  lemma {:induction false} NoHigh(v: nat, k: nat)
    ensures v < Pow2(k) ==> High(v, k) == 0
    ensures High(v, k) == 0 ==> Low(v, k) == v
  {
    if k == 0 {
    } else {
      NoHigh(v / 2, k - 1);
    }
  }

  lemma {:induction false} NoOnes(v: nat)
    ensures Ones(v) == 0 <==> v == 0
  {
    if v == 0 {
    } else {
      NoOnes(v / 2);
    }
  }

  /** The next bit. */
  lemma {:induction false} LowNext(v: nat, k: nat)
    ensures Low(v, k + 1) == Low(v, k) + (if IsSet(v, k) then Pow2(k) else 0)
    ensures High(v, k + 1) == High(v, k) / 2
  {
    if k == 0 {
    } else {
      LowNext(v / 2, k - 1);
    }
  }

  /** The bitwise and has the bits that both have. */
  lemma {:induction false} AndIsBitwise(a: nat, b: nat, k: nat)
    ensures IsSet(And(a, b), k) <==> IsSet(a, k) && IsSet(b, k)
  {
    AndUnfold(a, b);
    if k == 0 {
    } else {
      AndIsBitwise(a / 2, b / 2, k - 1);
    }
  }

  /** What the test in the loop finds out. */
  lemma {:induction false} TestsBit(v: nat, k: nat)
    ensures And(v, Pow2(k)) != 0 <==> IsSet(v, k)
  {
    AndUnfold(v, Pow2(k));
    if k > 0 {
      TestsBit(v / 2, k - 1);
    } else {
      AndUnfold(v / 2, 0);
    }
  }

  /** `length` set bits from bit `start` on. */
  function Run(start: nat, length: nat): int {
    (Pow2(length) - 1) * Pow2(start)
  }

  ghost predicate IsRun(mask: nat) {
    exists start, length :: start + length <= 32 && mask == Run(start, length)
  }

  lemma RunHalves(start: nat, length: nat)
    ensures start > 0 ==> Run(start, length) == 2 * Run(start - 1, length)
    ensures start == 0 && length > 0 ==> Run(start, length) == 2 * Run(0, length - 1) + 1
    ensures length == 0 ==> Run(start, length) == 0
  {
    if start > 0 {
      assert (Pow2(length) - 1) * (2 * Pow2(start - 1)) == 2 * ((Pow2(length) - 1) * Pow2(start - 1));
    }
  }

  /** A run has the bits that it says, and no others. */
  lemma {:induction false} RunBits(v: nat, start: nat, length: nat, k: nat)
    requires v == Run(start, length)
    ensures IsSet(v, k) <==> start <= k < start + length
    ensures start + length <= k ==> High(v, k) == 0
  {
    RunHalves(start, length);
    if length == 0 {
      NoHigh(v, k);
    } else if k > 0 {
      if start > 0 { RunBits(v / 2, start - 1, length, k - 1); } else { RunBits(v / 2, 0, length - 1, k - 1); }
    }
  }

  lemma Grow(p: nat, q: nat)
    ensures (p - 1) * q + p * q == (2 * p - 1) * q
  {
  }

  /** A set bit above the run makes the run longer; a first set bit starts one. */
  lemma RunGrows(i: nat, j: nat)
    requires j <= i
    ensures Run(i - j, j) + Pow2(i) == Run(i - j, j + 1)
  {
    Pow2Sum(j, i - j);
    Grow(Pow2(j), Pow2(i - j));
  }

  lemma {:induction false} OnesOfRun(v: nat, start: nat, length: nat)
    requires v == Run(start, length)
    ensures Ones(v) == length
  {
    RunHalves(start, length);
    if length == 0 {
    } else if start > 0 {
      OnesUnfold(v);
      OnesOfRun(v / 2, start - 1, length);
    } else {
      OnesUnfold(v);
      OnesOfRun(v / 2, 0, length - 1);
    }
  }

  lemma Product(a: nat, b: nat)
    ensures a * b >= 0
  {
  }

  lemma RunBig(i: nat, j: nat)
    requires j <= i
    ensures Run(i - j, j + 1) >= Pow2(i)
  {
    RunGrows(i, j);
    Product(Pow2(j) - 1, Pow2(i - j));
  }

  lemma {:induction false} LowSmall(v: nat, k: nat)
    ensures Low(v, k) < Pow2(k)
  {
    if k == 0 {
    } else {
      LowSmall(v / 2, k - 1);
    }
  }

  /** The loop has just counted the bit below. */
  lemma LastBit(mask: nat, i: nat, j: nat)
    requires 0 < j <= i && Low(mask, i) == Run(i - j, j)
    ensures IsSet(mask, i - 1)
  {
    LowNext(mask, i - 1);
    LowSmall(mask, i - 1);
    RunBig(i - 1, j - 1);
  }

  lemma NotRun(mask: nat, i: nat, j: nat, start: nat, length: nat)
    requires 0 < j <= i && Low(mask, i) == Run(i - j, j) && !IsSet(mask, i) && High(mask, i) != 0
    ensures mask != Run(start, length)
  {
    LastBit(mask, i, j);
    if mask == Run(start, length) {
      RunBits(mask, start, length, i - 1);
      RunBits(mask, start, length, i);
    }
  }

  /** The loop stops where the mask, if it is a run, has no more set bits. */
  lemma Stopped(mask: nat, i: nat, j: nat)
    requires mask < TWO32 && j <= i <= 32 && Low(mask, i) == Run(i - j, j)
    requires i == 32 || (j > 0 && !IsSet(mask, i))
    ensures Ones(mask) == j <==> IsRun(mask)
  {
    OnesSplit(mask, i);
    OnesOfRun(Low(mask, i), i - j, j);
    NoOnes(High(mask, i));
    NoHigh(mask, i);
    Constants();
    if High(mask, i) == 0 {
      assert mask == Run(i - j, j);
    } else {
      forall start: nat, length: nat | start + length <= 32 ensures mask != Run(start, length) {
        NotRun(mask, i, j, start, length);
      }
    }
  }

  /** One turn of the loop: a set bit lengthens the run, and another one before the run moves its start. */
  lemma Turn(mask: nat, i: nat, j: nat)
    requires j <= i && Low(mask, i) == Run(i - j, j)
    ensures And(mask, Pow2(i)) != 0 <==> IsSet(mask, i)
    ensures IsSet(mask, i) ==> Low(mask, i + 1) == Run(i - j, j + 1)
    ensures !IsSet(mask, i) && j == 0 ==> Low(mask, i + 1) == Run(i + 1, 0)
  {
    TestsBit(mask, i);
    LowNext(mask, i);
    RunGrows(i, j);
  }

  /** True exactly when the set bits of the mask are next to each other, or there are none. */
  method IsContiguous(mask: nat) returns (r: bool)
    requires mask < TWO32
    ensures r <==> IsRun(mask)
  {
    var i: nat, j: nat := 0, 0;
    while i < 32
      invariant j <= i <= 32 && Low(mask, i) == Run(i - j, j)
    {
      Turn(mask, i, j);
      if And(mask, Pow2(i)) != 0 {
        j := j + 1;
      } else if j > 0 {
        break;
      }
      i := i + 1;
    }
    Stopped(mask, i, j);
    var ones := PopCount(mask);
    r := ones == j;
  }
}
