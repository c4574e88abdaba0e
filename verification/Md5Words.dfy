/** The operations on 32-bit words: those of the RFC, and those of the code. */
module Md5Words {
  import opened Machine
  import opened Md5Block

  // ---------- section 3.4 of RFC 1321 ----------

  function F(x: bv32, y: bv32, z: bv32): bv32 { (x & y) | (!x & z) }

  function G(x: bv32, y: bv32, z: bv32): bv32 { (x & z) | (y & !z) }

  function H(x: bv32, y: bv32, z: bv32): bv32 { x ^ y ^ z }

  function I(x: bv32, y: bv32, z: bv32): bv32 { y ^ (x | !z) }

  function RfcMix(round: nat, x: bv32, y: bv32, z: bv32): bv32 {
    if round == 0 then F(x, y, z) else if round == 1 then G(x, y, z) else if round == 2 then H(x, y, z) else I(x, y, z)
  }

  // ---------- the macros of the code ----------

  function F1(x: bv32, y: bv32, z: bv32): bv32 { z ^ (x & (y ^ z)) }

  function F2(x: bv32, y: bv32, z: bv32): bv32 { F1(z, x, y) }

  function F3(x: bv32, y: bv32, z: bv32): bv32 { x ^ y ^ z }

  function F4(x: bv32, y: bv32, z: bv32): bv32 { y ^ (x | !z) }

  function CodeMix(round: nat, x: bv32, y: bv32, z: bv32): bv32 {
    if round == 0 then F1(x, y, z) else if round == 1 then F2(x, y, z)
    else if round == 2 then F3(x, y, z) else F4(x, y, z)
  }

  function Add(x: bv32, y: bv32): bv32 { x + y }

  function Sub(x: bv32, y: bv32): bv32 { x - y }

  function RotL(w: bv32, s: bv6): bv32 {
    if s <= 32 then (w << s) | (w >> (32 - s)) else w
  }

  function RotR(w: bv32, s: bv6): bv32 {
    if s <= 32 then (w >> s) | (w << (32 - s)) else w
  }

  function Load(x: U32): bv32 { x as bv32 }

  function Store(w: bv32): U32 { w as int }

  const RFC := Ops((r: nat, x, y, z) => RfcMix(r, x, y, z), (x, y) => Add(x, y), (w, s) => RotL(w, s),
    (x: U32) => Load(x), w => Store(w))

  const CODE := Ops((r: nat, x, y, z) => CodeMix(r, x, y, z), (x, y) => Add(x, y), (w, s) => RotL(w, s),
    (x: U32) => Load(x), w => Store(w))

  const BACK := Inverses((x, y) => Sub(x, y), (w, s) => RotR(w, s))

  // ---------- what the operations do to the bits ----------

  /** A rotation takes the low bits up by `s` places, and the high `s` bits to the bottom. */
  lemma RotatesLeft(w: bv32, s: bv6)
    requires 0 < s < 32
    ensures RotL(w, s) >> s == w & (0xffff_ffff >> s)
    ensures RotL(w, s) & (0xffff_ffff >> (32 - s)) == w >> (32 - s)
  {
  }

  lemma Selects(x: bv32, y: bv32, z: bv32)
    ensures F(x, y, z) & x == y & x && F(x, y, z) & !x == z & !x
  {
  }

  lemma F1IsF(x: bv32, y: bv32, z: bv32)
    ensures F1(x, y, z) == F(x, y, z)
  {
    assert z ^ (x & (y ^ z)) == (x & y) | (!x & z);
  }

  /** Where `x` has a bit, that of `y`; elsewhere that of `z`. */
  lemma FirstSelects(x: bv32, y: bv32, z: bv32)
    ensures F1(x, y, z) & x == y & x && F1(x, y, z) & !x == z & !x
  {
    F1IsF(x, y, z);
    Selects(x, y, z);
  }

  /** Where `z` has a bit, that of `x`; elsewhere that of `y`. */
  lemma SecondSelects(x: bv32, y: bv32, z: bv32)
    ensures F2(x, y, z) & z == x & z && F2(x, y, z) & !z == y & !z
  {
    FirstSelects(z, x, y);
  }

  /** A bit where one of the three words or all of them have it. */
  lemma ThirdIsParity(x: bv32, y: bv32, z: bv32)
    ensures F3(x, y, z) == (x & y & z) | (x & !y & !z) | (!x & y & !z) | (!x & !y & z)
  {
  }

  /** A bit where `y` has none and `x` has one or `z` none, and where `y` has one and `x` none and `z` one. */
  lemma FourthByCases(x: bv32, y: bv32, z: bv32)
    ensures F4(x, y, z) == (x & !y) | (!y & !z) | (!x & y & z)
  {
  }

  // ---------- words as numbers ----------

  lemma StoreThenLoad(w: bv32)
    ensures Load(Store(w)) == w
  {
    assert (w as int) as bv32 == w;
  }

  lemma NibbleAsBits(n: nat)
    requires n < 0x10
    ensures (n as bv4) as int == n
  {
  }

  lemma JoinNibbles(high: bv4, low: bv4)
    ensures (((high as bv8) << 4) | (low as bv8)) as int == 0x10 * (high as int) + (low as int)
  {
  }

  lemma BitsOf(b: Byte) returns (v: bv8)
    ensures v as int == b
  {
    NibbleAsBits(b / 0x10);
    NibbleAsBits(b % 0x10);
    JoinNibbles((b / 0x10) as bv4, (b % 0x10) as bv4);
    v := (((b / 0x10) as bv4 as bv8) << 4) | ((b % 0x10) as bv4 as bv8);
  }

  lemma JoinBytes(high: bv8, low: bv8)
    ensures (((high as bv16) << 8) | (low as bv16)) as int == 0x100 * (high as int) + (low as int)
  {
  }

  lemma JoinHalves(high: bv16, low: bv16)
    ensures (((high as bv32) << 16) | (low as bv32)) as int == 0x1_0000 * (high as int) + (low as int)
  {
  }

  lemma HalfOf(high: Byte, low: Byte) returns (h: bv16)
    ensures h as int == 0x100 * high + low
  {
    var v := BitsOf(high);
    var w := BitsOf(low);
    JoinBytes(v, w);
    h := ((v as bv16) << 8) | (w as bv16);
  }

  lemma WordOf(b3: Byte, b2: Byte, b1: Byte, b0: Byte) returns (w: bv32)
    ensures w as int == 0x100_0000 * b3 + 0x1_0000 * b2 + 0x100 * b1 + b0
  {
    var high := HalfOf(b3, b2);
    var low := HalfOf(b1, b0);
    JoinHalves(high, low);
    w := ((high as bv32) << 16) | (low as bv32);
  }

  lemma BytesOf(x: U32) returns (b3: Byte, b2: Byte, b1: Byte, b0: Byte)
    ensures x == 0x100_0000 * b3 + 0x1_0000 * b2 + 0x100 * b1 + b0
  {
    var h := x / 0x100;
    var g := h / 0x100;
    b3, b2, b1, b0 := g / 0x100, g % 0x100, h % 0x100, x % 0x100;
  }

  /** The bits of a number are those of that number. */
  lemma LoadIs(x: U32)
    ensures Load(x) as int == x && Store(Load(x)) == x
  {
    var b3, b2, b1, b0 := BytesOf(x);
    var w := WordOf(b3, b2, b1, b0);
    StoreThenLoad(w);
  }

  // ---------- the code against the RFC ----------

  lemma F2IsG(x: bv32, y: bv32, z: bv32)
    ensures F2(x, y, z) == G(x, y, z)
  {
    assert y ^ (z & (x ^ y)) == (x & z) | (y & !z);
  }

  lemma F3IsH(x: bv32, y: bv32, z: bv32)
    ensures F3(x, y, z) == H(x, y, z)
  {
  }

  lemma F4IsI(x: bv32, y: bv32, z: bv32)
    ensures F4(x, y, z) == I(x, y, z)
  {
  }

  lemma MixesAgree(r: nat, x: bv32, y: bv32, z: bv32)
    ensures CodeMix(r, x, y, z) == RfcMix(r, x, y, z)
  {
    if r == 0 { F1IsF(x, y, z); } else if r == 1 { F2IsG(x, y, z); } else if r == 2 { F3IsH(x, y, z); } else { F4IsI(x, y, z); }
  }

  /** The optimized macros compute the functions of the RFC. */
  lemma CodeAgreesWithRfc()
    ensures Agree(CODE, RFC)
  {
    forall r, x, y, z ensures CODE.mix(r, x, y, z) == RFC.mix(r, x, y, z) {
      MixesAgree(r, x, y, z);
    }
  }

  lemma AddIs(x: bv32, y: bv32)
    ensures Add(x, y) == x + y
  {
  }

  lemma Sum(a: bv32, f: bv32, x: bv32, t: bv32)
    ensures Add(a, Add(f, Add(x, t))) == a + f + x + t
  {
    AddIs(x, t);
    AddIs(f, x + t);
    AddIs(a, f + (x + t));
  }

  /** A step in the notation of section 3.4: a = b + ((a + f + X[k] + T[i]) <<< s). */
  lemma StepAsInTheRfc(a: bv32, f: bv32, b: bv32, x: bv32, t: bv32, s: bv6)
    ensures Advance(RFC, a, f, b, Add(x, t), s) == b + RotL(a + f + x + t, s)
  {
    Sum(a, f, x, t);
    AddIs(RotL(a + f + x + t, s), b);
  }

  lemma AddThenSub(x: bv32, y: bv32)
    ensures Sub(Add(x, y), y) == x
  {
    assert Sub(x + y, y) == x;
  }

  lemma SubThenAdd(x: bv32, y: bv32)
    ensures Add(Sub(x, y), y) == x
  {
    assert Add(x - y, y) == x;
  }

  lemma RotBack4(w: bv32)
    ensures RotR(RotL(w, 4), 4) == w && RotL(RotR(w, 4), 4) == w
  {
  }

  lemma RotBack5(w: bv32)
    ensures RotR(RotL(w, 5), 5) == w && RotL(RotR(w, 5), 5) == w
  {
  }

  lemma RotBack6(w: bv32)
    ensures RotR(RotL(w, 6), 6) == w && RotL(RotR(w, 6), 6) == w
  {
  }

  lemma RotBack7(w: bv32)
    ensures RotR(RotL(w, 7), 7) == w && RotL(RotR(w, 7), 7) == w
  {
  }

  lemma RotBack9(w: bv32)
    ensures RotR(RotL(w, 9), 9) == w && RotL(RotR(w, 9), 9) == w
  {
  }

  lemma RotBack10(w: bv32)
    ensures RotR(RotL(w, 10), 10) == w && RotL(RotR(w, 10), 10) == w
  {
  }

  lemma RotBack11(w: bv32)
    ensures RotR(RotL(w, 11), 11) == w && RotL(RotR(w, 11), 11) == w
  {
  }

  lemma RotBack12(w: bv32)
    ensures RotR(RotL(w, 12), 12) == w && RotL(RotR(w, 12), 12) == w
  {
  }

  lemma RotBack14(w: bv32)
    ensures RotR(RotL(w, 14), 14) == w && RotL(RotR(w, 14), 14) == w
  {
  }

  lemma RotBack15(w: bv32)
    ensures RotR(RotL(w, 15), 15) == w && RotL(RotR(w, 15), 15) == w
  {
  }

  lemma RotBack16(w: bv32)
    ensures RotR(RotL(w, 16), 16) == w && RotL(RotR(w, 16), 16) == w
  {
  }

  lemma RotBack17(w: bv32)
    ensures RotR(RotL(w, 17), 17) == w && RotL(RotR(w, 17), 17) == w
  {
  }

  lemma RotBack20(w: bv32)
    ensures RotR(RotL(w, 20), 20) == w && RotL(RotR(w, 20), 20) == w
  {
  }

  lemma RotBack21(w: bv32)
    ensures RotR(RotL(w, 21), 21) == w && RotL(RotR(w, 21), 21) == w
  {
  }

  lemma RotBack22(w: bv32)
    ensures RotR(RotL(w, 22), 22) == w && RotL(RotR(w, 22), 22) == w
  {
  }

  lemma RotBack23(w: bv32)
    ensures RotR(RotL(w, 23), 23) == w && RotL(RotR(w, 23), 23) == w
  {
  }

  /** Every rotation that the steps use can be undone. */
  lemma RotBack(w: bv32, s: bv6)
    requires IsShift(s)
    ensures RotR(RotL(w, s), s) == w && RotL(RotR(w, s), s) == w
  {
    if s == 4 { RotBack4(w); }
    else if s == 5 { RotBack5(w); }
    else if s == 6 { RotBack6(w); }
    else if s == 7 { RotBack7(w); }
    else if s == 9 { RotBack9(w); }
    else if s == 10 { RotBack10(w); }
    else if s == 11 { RotBack11(w); }
    else if s == 12 { RotBack12(w); }
    else if s == 14 { RotBack14(w); }
    else if s == 15 { RotBack15(w); }
    else if s == 16 { RotBack16(w); }
    else if s == 17 { RotBack17(w); }
    else if s == 20 { RotBack20(w); }
    else if s == 21 { RotBack21(w); }
    else if s == 22 { RotBack22(w); }
    else if s == 23 { RotBack23(w); }
  }

  lemma CodeCanBeUndone()
    ensures Undoes(CODE, BACK)
  {
    forall x, y ensures BACK.sub(CODE.add(x, y), y) == x && CODE.add(BACK.sub(x, y), y) == x {
      AddThenSub(x, y);
      SubThenAdd(x, y);
    }
    forall x, s | IsShift(s) ensures BACK.unrot(CODE.rot(x, s), s) == x && CODE.rot(BACK.unrot(x, s), s) == x {
      RotBack(x, s);
    }
  }
}
