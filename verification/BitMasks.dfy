/** Counting the set bits of a mask in a few operations on the whole word. */
module BitMasks {
  import opened Machine
  import opened Powers
  import opened Bits

  lemma OnesByte(q: nat, e: nat)
    requires e < 256
    ensures Ones(256 * q + e) == Ones(q) + Ones(e) && Ones(e) <= 8
  {
    OnesBytes(q, e / 16, e % 16);
    OnesBytes(0, e / 16, e % 16);
    OnesSmall(e / 16);
    OnesSmall(e % 16);
  }

  lemma Fields8Next(q: nat, e: nat) returns (d: nat)
    requires e < 256
    ensures d <= 8 && Fields8(256 * q + e) == 256 * Fields8(q) + d && Ones(256 * q + e) == Ones(q) + d
  {
    d := Ones(e);
    OnesByte(q, e);
    Fields8Step(q, e);
  }

  lemma TwoFields(v: nat, q: nat, e1: nat, e0: nat) returns (d1: nat, d0: nat)
    requires e1 < 256 && e0 < 256 && v == 256 * (256 * q + e1) + e0
    ensures d1 <= 8 && d0 <= 8
    ensures Ones(v) == Ones(q) + d1 + d0
    ensures Fields8(v) == 0x1_0000 * Fields8(q) + 0x100 * d1 + d0
  {
    d1 := Fields8Next(q, e1);
    d0 := Fields8Next(256 * q + e1, e0);
  }

  lemma Cut(v: nat) returns (q: nat, e1: nat, e0: nat)
    ensures v == 256 * (256 * q + e1) + e0 && e1 < 256 && e0 < 256 && q == v / 0x1_0000
  {
    var w := v / 256;
    q, e1, e0 := w / 256, w % 256, v % 256;
  }

  /** Four fields of eight bits. */
  lemma FourFields(v: nat) returns (d3: nat, d2: nat, d1: nat, d0: nat)
    requires v < TWO32
    ensures d3 <= 8 && d2 <= 8 && d1 <= 8 && d0 <= 8 && Ones(v) == d3 + d2 + d1 + d0
    ensures Fields8(v) == 0x100_0000 * d3 + 0x1_0000 * d2 + 0x100 * d1 + d0
  {
    var q, e1, e0 := Cut(v);
    var z, e3, e2 := Cut(q);
    d1, d0 := TwoFields(v, q, e1, e0);
    d3, d2 := TwoFields(q, z, e3, e2);
  }

  lemma WrapsTo(h: nat, x: nat)
    requires x < TWO32
    ensures (TWO32 * h + x) % TWO32 == x
  {
  }

  lemma Shift(h: nat, x: nat)
    requires x < 0x100_0000
    ensures (0x100_0000 * h + x) / 0x100_0000 == h
  {
  }

  /** The product gathers the four fields in its top byte; what wraps around is above it. */
  lemma TopByte(y: nat, d3: nat, d2: nat, d1: nat, d0: nat)
    requires d3 <= 8 && d2 <= 8 && d1 <= 8 && d0 <= 8 && y == 0x100_0000 * d3 + 0x1_0000 * d2 + 0x100 * d1 + d0
    ensures y * 0x101_0101 % TWO32 / 0x100_0000 == d3 + d2 + d1 + d0
  {
    var low := d0 + 0x100 * (d0 + d1) + 0x1_0000 * (d0 + d1 + d2);
    var high := d1 + d2 + d3 + 0x100 * (d2 + d3) + 0x1_0000 * d3;
    WrapsTo(high, 0x100_0000 * (d3 + d2 + d1 + d0) + low);
    Shift(d3 + d2 + d1 + d0, low);
    assert y * 0x101_0101 == TWO32 * high + (0x100_0000 * (d3 + d2 + d1 + d0) + low);
  }

  lemma Total(v: nat)
    requires v < TWO32
    ensures Fields8(v) * 0x101_0101 % TWO32 / 0x100_0000 == Ones(v) <= 32
  {
    var d3, d2, d1, d0 := FourFields(v);
    TopByte(Fields8(v), d3, d2, d1, d0);
  }

  lemma {:induction false} FitsBelow(v: nat, n: nat)
    ensures v < Pow2(2 * n) ==> Fits2(v, n)
    ensures v < Pow2(4 * n) ==> Fits4(v, n)
  {
    if n == 0 {
    } else {
      FitsBelow(v / 4, n - 1);
      FitsBelow(v / 16, n - 1);
      Pow2Shift(2 * (n - 1));
      Pow2Shift(4 * (n - 1));
    }
  }

  lemma {:induction false} FitsBelow8(v: nat, n: nat)
    ensures v < Pow2(8 * n) ==> Fits8(v, n)
  {
    if n == 0 {
    } else {
      FitsBelow8(v / 256, n - 1);
      Pow2Shift(8 * (n - 1));
    }
  }

  lemma Constants()
    ensures Pow2(32) == TWO32 && Mask2(16) == 0x5555_5555 && Mask4(8) == 0x3333_3333 && Mask8(4) == 0xf0f_0f0f
  {
    assert Pow2(4) == 16 && Pow2(8) == 0x100 && Pow2(12) == 0x1000 && Pow2(16) == 0x1_0000;
    Pow2Sum(16, 16);
    assert Mask2(4) == 0x55 && Mask2(8) == 0x5555 && Mask2(12) == 0x55_5555;
    assert Mask4(4) == 0x3333;
  }

  /** The fields of four bits do not fill the word: adding neighbours does not carry out of it. */
  lemma {:induction false} FieldsSmall(v: nat, n: nat)
    requires Fits4(v, n)
    ensures 15 * Fields4(v) <= 4 * (Pow2(4 * n) - 1)
  {
    if v == 0 {
    } else {
      Pow2Shift(4 * (n - 1));
      FieldsSmall(v / 16, n - 1);
      OnesSmall(v % 16);
    }
  }

  lemma Step2(v: nat)
    requires v < TWO32
    ensures And(v / 2, 0x5555_5555) <= v && v - And(v / 2, 0x5555_5555) == Fields2(v)
  {
    Constants();
    FitsBelow(v, 16);
    Pairs(v, 16);
  }

  lemma Step4(v: nat)
    requires v < TWO32
    ensures And(Fields2(v), 0x3333_3333) + And(Fields2(v) / 4, 0x3333_3333) == Fields4(v)
  {
    Constants();
    FitsBelow(v, 8);
    Quads(v, 8);
  }

  lemma Reduced(x: nat)
    requires 15 * x <= 4 * (TWO32 - 1)
    ensures (x + x / 16) % TWO32 == x + x / 16
  {
    WrapsTo(0, x + x / 16);
  }

  lemma Step8(v: nat)
    requires v < TWO32
    ensures And((Fields4(v) + Fields4(v) / 16) % TWO32, 0xf0f_0f0f) == Fields8(v)
  {
    Constants();
    FitsBelow(v, 8);
    FieldsSmall(v, 8);
    Reduced(Fields4(v));
    FitsBelow8(v, 4);
    Bytes(v, 4);
  }

  method PopCount(mask: nat) returns (r: nat)
    requires mask < TWO32
    ensures r == Ones(mask) <= 32
  {
    Step2(mask);
    Step4(mask);
    Step8(mask);
    Total(mask);
    var v := mask;
    v := v - And(v / 2, 0x5555_5555);
    v := And(v, 0x3333_3333) + And(v / 4, 0x3333_3333);
    r := And((v + v / 16) % TWO32, 0xf0f_0f0f) * 0x101_0101 % TWO32 / 0x100_0000;
  }
}
