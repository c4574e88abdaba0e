/** Numbers as bits, and how counting them in parallel fields adds up. */
module Bits {
  /** Bitwise and. */
  function And(a: nat, b: nat): nat {
    if a == 0 || b == 0 then 0 else 2 * And(a / 2, b / 2) + (if a % 2 == 1 && b % 2 == 1 then 1 else 0)
  }

  lemma {:induction false} AndUnfold(a: nat, b: nat)
    ensures And(a, b) == 2 * And(a / 2, b / 2) + (if a % 2 == 1 && b % 2 == 1 then 1 else 0)
  {
  }

  /** The number of set bits. */
  function Ones(v: nat): nat {
    if v == 0 then 0 else v % 2 + Ones(v / 2)
  }

  lemma {:induction false} OnesUnfold(v: nat)
    ensures Ones(v) == v % 2 + Ones(v / 2)
  {
  }

  type Bit = b: nat | b < 2

  lemma OnesStep(a: nat, i: Bit)
    ensures Ones(2 * a + i) == Ones(a) + i
  {
    OnesUnfold(2 * a + i);
  }

  lemma AndStep(a: nat, i: Bit, b: nat, j: Bit)
    ensures And(2 * a + i, 2 * b + j) == 2 * And(a, b) + (if i == 1 && j == 1 then 1 else 0)
  {
    AndUnfold(2 * a + i, 2 * b + j);
  }

  lemma OnesPair(q: nat, e1: Bit, e0: Bit)
    ensures Ones(4 * q + 2 * e1 + e0) == Ones(q) + e1 + e0
  {
    OnesStep(q, e1);
    OnesStep(2 * q + e1, e0);
    assert 4 * q + 2 * e1 + e0 == 2 * (2 * q + e1) + e0;
  }

  lemma OnesPairs(q: nat, e: nat)
    requires e < 4
    ensures Ones(4 * q + e) == Ones(q) + Ones(e) && Ones(e) == e - e / 2
  {
    OnesPair(q, e / 2, e % 2);
    OnesPair(0, e / 2, e % 2);
  }

  lemma OnesNibbles(q: nat, e1: nat, e0: nat)
    requires e0 < 4 && e1 < 4
    ensures Ones(16 * q + 4 * e1 + e0) == Ones(q) + Ones(e1) + Ones(e0)
  {
    OnesPairs(q, e1);
    OnesPairs(4 * q + e1, e0);
  }

  lemma OnesNibble(q: nat, e: nat)
    requires e < 16
    ensures Ones(16 * q + e) == Ones(q) + Ones(e)
  {
    OnesNibbles(q, e / 4, e % 4);
    OnesNibbles(0, e / 4, e % 4);
  }

  lemma OnesBytes(q: nat, e1: nat, e0: nat)
    requires e0 < 16 && e1 < 16
    ensures Ones(256 * q + 16 * e1 + e0) == Ones(q) + Ones(e1) + Ones(e0)
  {
    OnesNibble(q, e1);
    OnesNibble(16 * q + e1, e0);
  }

  /** The set bits of every 2, 4 or 8 bits of `v`, in fields of that width. */
  function Fields2(v: nat): nat {
    if v == 0 then 0 else Ones(v % 4) + 4 * Fields2(v / 4)
  }

  function Fields4(v: nat): nat {
    if v == 0 then 0 else Ones(v % 16) + 16 * Fields4(v / 16)
  }

  function Fields8(v: nat): nat {
    if v == 0 then 0 else Ones(v % 256) + 256 * Fields8(v / 256)
  }

  /** `n` fields of ones in every other bit, pair or quad: 0x55.., 0x33.. and 0x0f... */
  function Mask2(n: nat): nat {
    if n == 0 then 0 else 1 + 4 * Mask2(n - 1)
  }

  function Mask4(n: nat): nat {
    if n == 0 then 0 else 3 + 16 * Mask4(n - 1)
  }

  function Mask8(n: nat): nat {
    if n == 0 then 0 else 15 + 256 * Mask8(n - 1)
  }

  /** `v` has at most `n` fields of two bits. */
  predicate Fits2(v: nat, n: nat) {
    v == 0 || (n > 0 && Fits2(v / 4, n - 1))
  }

  predicate Fits4(v: nat, n: nat) {
    v == 0 || (n > 0 && Fits4(v / 16, n - 1))
  }

  predicate Fits8(v: nat, n: nat) {
    v == 0 || (n > 0 && Fits8(v / 256, n - 1))
  }

  lemma AndLow2(x: nat, m: nat)
    ensures And(x / 2, 1 + 4 * m) == 4 * And(x / 4 / 2, m) + x % 4 / 2
  {
    var q, d := x / 4, x % 4;
    AndStep(q / 2, q % 2, m, 0);
    AndStep(q, d / 2, 2 * m, 1);
    assert x / 2 == 2 * q + d / 2;
  }

  lemma {:induction false} Pairs(v: nat, n: nat)
    requires Fits2(v, n)
    ensures And(v / 2, Mask2(n)) <= v && v - And(v / 2, Mask2(n)) == Fields2(v)
  {
    if v == 0 {
    } else {
      Pairs(v / 4, n - 1);
      AndLow2(v, Mask2(n - 1));
      OnesPairs(v / 4, v % 4);
    }
  }

  lemma AndPair(x: nat, i1: Bit, i0: Bit, m: nat, j1: Bit, j0: Bit)
    ensures And(4 * x + 2 * i1 + i0, 4 * m + 2 * j1 + j0)
      == 4 * And(x, m) + (if i1 == 1 && j1 == 1 then 2 else 0) + (if i0 == 1 && j0 == 1 then 1 else 0)
  {
    AndStep(x, i1, m, j1);
    AndStep(2 * x + i1, i0, 2 * m + j1, j0);
  }

  lemma AndKeep(x: nat, y: nat, m: nat)
    requires y < 4
    ensures And(4 * x + y, 4 * m + 3) == 4 * And(x, m) + y
    ensures And(4 * x + y, 4 * m) == 4 * And(x, m)
  {
    AndPair(x, y / 2, y % 2, m, 1, 1);
    AndPair(x, y / 2, y % 2, m, 0, 0);
  }

  lemma AndLow4(x: nat, y1: nat, y0: nat, m: nat)
    requires y0 < 4 && y1 < 4
    ensures And(16 * x + 4 * y1 + y0, 3 + 16 * m) == 16 * And(x, m) + y0
  {
    AndKeep(x, y1, m);
    AndKeep(4 * x + y1, y0, 4 * m);
  }

  lemma AndKeep4(x: nat, y1: nat, y0: nat, m: nat)
    requires y0 < 4 && y1 < 4
    ensures And(16 * x + 4 * y1 + y0, 16 * m + 15) == 16 * And(x, m) + 4 * y1 + y0
  {
    AndKeep(x, y1, m);
    AndKeep(4 * x + y1, y0, 4 * m + 3);
  }

  lemma AndClear4(x: nat, y1: nat, y0: nat, m: nat)
    requires y0 < 4 && y1 < 4
    ensures And(16 * x + 4 * y1 + y0, 16 * m) == 16 * And(x, m)
  {
    AndKeep(x, y1, m);
    AndKeep(4 * x + y1, y0, 4 * m);
  }

  lemma AndLow8(x: nat, y1: nat, y0: nat, m: nat)
    requires y0 < 16 && y1 < 16
    ensures And(256 * x + 16 * y1 + y0, 15 + 256 * m) == 256 * And(x, m) + y0
  {
    AndClear4(x, y1 / 4, y1 % 4, m);
    AndKeep4(16 * x + y1, y0 / 4, y0 % 4, 16 * m);
  }

  // ---------- the three steps ----------

  lemma OnesSmall(e: nat)
    ensures e < 4 ==> Ones(e) <= 2
    ensures e < 16 ==> Ones(e) <= 4
  {
    if e < 4 {
      OnesPairs(0, e);
    } else if e < 16 {
      OnesPairs(e / 4, e % 4);
      OnesPairs(0, e / 4);
    }
  }

  lemma QuadStep(x: nat, d1: nat, d0: nat, m: nat)
    requires d0 <= 2 && d1 <= 2
    ensures var w := 16 * x + 4 * d1 + d0;
      And(w, 3 + 16 * m) + And(w / 4, 3 + 16 * m) == 16 * (And(x, m) + And(x / 4, m)) + d0 + d1
  {
    AndLow4(x, d1, d0, m);
    AndLow4(x / 4, x % 4, d1, m);
    assert (16 * x + 4 * d1 + d0) / 4 == 16 * (x / 4) + 4 * (x % 4) + d1;
  }

  lemma Fields2Step(q: nat, e: nat)
    requires e < 4
    ensures Fields2(4 * q + e) == 4 * Fields2(q) + Ones(e)
  {
    assert (4 * q + e) / 4 == q && (4 * q + e) % 4 == e;
  }

  lemma Fields4Step(q: nat, e: nat)
    requires e < 16
    ensures Fields4(16 * q + e) == 16 * Fields4(q) + Ones(e)
  {
    assert (16 * q + e) / 16 == q && (16 * q + e) % 16 == e;
  }

  lemma Fields8Step(q: nat, e: nat)
    requires e < 256
    ensures Fields8(256 * q + e) == 256 * Fields8(q) + Ones(e)
  {
    assert (256 * q + e) / 256 == q && (256 * q + e) % 256 == e;
  }

  lemma QuadSums(q: nat, e1: nat, e0: nat)
    requires e1 < 4 && e0 < 4
    ensures Fields4(16 * q + 4 * e1 + e0) == 16 * Fields4(q) + Ones(e1) + Ones(e0)
  {
    Fields4Step(q, 4 * e1 + e0);
    OnesNibbles(0, e1, e0);
  }

  lemma QuadFields(q: nat, e1: nat, e0: nat) returns (d1: nat, d0: nat)
    requires e1 < 4 && e0 < 4
    ensures d1 <= 2 && d0 <= 2
    ensures Fields2(16 * q + 4 * e1 + e0) == 16 * Fields2(q) + 4 * d1 + d0
    ensures Fields4(16 * q + 4 * e1 + e0) == 16 * Fields4(q) + d1 + d0
  {
    d1, d0 := Ones(e1), Ones(e0);
    QuadSums(q, e1, e0);
    Fields2Step(q, e1);
    Fields2Step(4 * q + e1, e0);
    OnesSmall(e1);
    OnesSmall(e0);
  }

  lemma Cut16(v: nat) returns (q: nat, e1: nat, e0: nat)
    ensures v == 16 * q + 4 * e1 + e0 && v / 16 == q && e1 < 4 && e0 < 4
  {
    q, e1, e0 := v / 16, v / 4 % 4, v % 4;
  }

  lemma Cut256(v: nat) returns (q: nat, e2: nat, e1: nat, e0: nat)
    ensures v == 256 * (16 * q + e2) + 16 * e1 + e0 && v / 256 == 16 * q + e2 && e2 < 16 && e1 < 16 && e0 < 16
  {
    var w, e := v / 256, v % 256;
    q, e2, e1, e0 := w / 16, w % 16, e / 16, e % 16;
  }

  ghost predicate QuadsAdd(v: nat, m: nat) {
    And(Fields2(v), m) + And(Fields2(v) / 4, m) == Fields4(v)
  }

  lemma QuadsJoin(q: nat, e1: nat, e0: nat, m: nat)
    requires e1 < 4 && e0 < 4 && QuadsAdd(q, m)
    ensures QuadsAdd(16 * q + 4 * e1 + e0, 3 + 16 * m)
  {
    var d1, d0 := QuadFields(q, e1, e0);
    QuadStep(Fields2(q), d1, d0, m);
  }

  /** Neighbouring fields of two bits add up to fields of four. */
  lemma {:induction false} Quads(v: nat, n: nat)
    requires Fits4(v, n)
    ensures QuadsAdd(v, Mask4(n))
  {
    if v == 0 {
    } else {
      var q, e1, e0 := Cut16(v);
      Quads(q, n - 1);
      QuadsJoin(q, e1, e0, Mask4(n - 1));
    }
  }

  lemma ByteStep(w: nat, q: nat, x: nat, d2: nat, d1: nat, d0: nat, m: nat)
    requires d0 <= 4 && d1 <= 4 && d2 <= 4 && q == 16 * x + d2 && w == 256 * q + 16 * d1 + d0
    ensures And(w + w / 16, 15 + 256 * m) == 256 * And(q + q / 16, m) + d0 + d1
  {
    assert q / 16 == x && w / 16 == 16 * q + d1;
    AndLow8(q + x, d1 + d2, d0 + d1, m);
  }

  lemma ByteSums(q: nat, e1: nat, e0: nat)
    requires e1 < 16 && e0 < 16
    ensures Fields8(256 * q + 16 * e1 + e0) == 256 * Fields8(q) + Ones(e1) + Ones(e0)
  {
    Fields8Step(q, 16 * e1 + e0);
    OnesBytes(0, e1, e0);
  }

  lemma LowField(q: nat, e: nat) returns (d: nat)
    requires e < 16
    ensures d <= 4 && Fields4(16 * q + e) == 16 * Fields4(q) + d
  {
    d := Ones(e);
    Fields4Step(q, e);
    OnesSmall(e);
  }

  lemma ByteFields(q: nat, e1: nat, e0: nat) returns (d1: nat, d0: nat)
    requires e1 < 16 && e0 < 16
    ensures d1 <= 4 && d0 <= 4
    ensures Fields4(256 * q + 16 * e1 + e0) == 256 * Fields4(q) + 16 * d1 + d0
    ensures Fields8(256 * q + 16 * e1 + e0) == 256 * Fields8(q) + d1 + d0
  {
    d1, d0 := Ones(e1), Ones(e0);
    ByteSums(q, e1, e0);
    Fields4Step(q, e1);
    Fields4Step(16 * q + e1, e0);
    OnesSmall(e1);
    OnesSmall(e0);
  }

  ghost predicate BytesAdd(v: nat, m: nat) {
    And(Fields4(v) + Fields4(v) / 16, m) == Fields8(v)
  }

  lemma BytesJoin(v: nat, w: nat, q: nat, e2: nat, e1: nat, e0: nat, m: nat)
    requires e2 < 16 && e1 < 16 && e0 < 16 && w == 16 * q + e2 && v == 256 * w + 16 * e1 + e0 && BytesAdd(w, m)
    ensures BytesAdd(v, 15 + 256 * m)
  {
    var d2 := LowField(q, e2);
    var d1, d0 := ByteFields(w, e1, e0);
    ByteStep(Fields4(v), Fields4(w), Fields4(q), d2, d1, d0, m);
  }

  /** Neighbouring fields of four bits add up to fields of eight. */
  lemma {:induction false} Bytes(v: nat, n: nat)
    requires Fits8(v, n)
    ensures BytesAdd(v, Mask8(n))
  {
    if v == 0 {
    } else {
      var q, e2, e1, e0 := Cut256(v);
      Bytes(16 * q + e2, n - 1);
      BytesJoin(v, 16 * q + e2, q, e2, e1, e0, Mask8(n - 1));
    }
  }
}
