/**
 * The MD5 block function, sections 3.3 and 3.4 of RFC 1321, over three operations on words: a mix of three words,
 * addition and rotation.  What the block function does with them does not depend on what they compute.
 */
module Md5Block {
  import opened Machine

  /**
   * `mix` is given the number of the round, 0 to 3; `load` and `store` are a word's two readings, as bits and as
   * a number.
   */
  datatype Ops = Ops(
    mix: (nat, bv32, bv32, bv32) -> bv32,
    add: (bv32, bv32) -> bv32,
    rot: (bv32, bv6) -> bv32,
    load: U32 -> bv32,
    store: bv32 -> U32)

  function T1(j: nat): bv32 {
    match j
    case 0 => 0xd76aa478
    case 1 => 0xe8c7b756
    case 2 => 0x242070db
    case 3 => 0xc1bdceee
    case 4 => 0xf57c0faf
    case 5 => 0x4787c62a
    case 6 => 0xa8304613
    case 7 => 0xfd469501
    case 8 => 0x698098d8
    case 9 => 0x8b44f7af
    case 10 => 0xffff5bb1
    case 11 => 0x895cd7be
    case 12 => 0x6b901122
    case 13 => 0xfd987193
    case 14 => 0xa679438e
    case _ => 0x49b40821
  }

  function T2(j: nat): bv32 {
    match j
    case 0 => 0xf61e2562
    case 1 => 0xc040b340
    case 2 => 0x265e5a51
    case 3 => 0xe9b6c7aa
    case 4 => 0xd62f105d
    case 5 => 0x02441453
    case 6 => 0xd8a1e681
    case 7 => 0xe7d3fbc8
    case 8 => 0x21e1cde6
    case 9 => 0xc33707d6
    case 10 => 0xf4d50d87
    case 11 => 0x455a14ed
    case 12 => 0xa9e3e905
    case 13 => 0xfcefa3f8
    case 14 => 0x676f02d9
    case _ => 0x8d2a4c8a
  }

  function T3(j: nat): bv32 {
    match j
    case 0 => 0xfffa3942
    case 1 => 0x8771f681
    case 2 => 0x6d9d6122
    case 3 => 0xfde5380c
    case 4 => 0xa4beea44
    case 5 => 0x4bdecfa9
    case 6 => 0xf6bb4b60
    case 7 => 0xbebfbc70
    case 8 => 0x289b7ec6
    case 9 => 0xeaa127fa
    case 10 => 0xd4ef3085
    case 11 => 0x04881d05
    case 12 => 0xd9d4d039
    case 13 => 0xe6db99e5
    case 14 => 0x1fa27cf8
    case _ => 0xc4ac5665
  }

  function T4(j: nat): bv32 {
    match j
    case 0 => 0xf4292244
    case 1 => 0x432aff97
    case 2 => 0xab9423a7
    case 3 => 0xfc93a039
    case 4 => 0x655b59c3
    case 5 => 0x8f0ccc92
    case 6 => 0xffeff47d
    case 7 => 0x85845dd1
    case 8 => 0x6fa87e4f
    case 9 => 0xfe2ce6e0
    case 10 => 0xa3014314
    case 11 => 0x4e0811a1
    case 12 => 0xf7537e82
    case 13 => 0xbd3af235
    case 14 => 0x2ad7d2bb
    case _ => 0xeb86d391
  }

  /** The constant added in step `i`. */
  function T(i: nat): bv32 {
    if i < 16 then T1(i) else if i < 32 then T2(i - 16) else if i < 48 then T3(i - 32) else T4(i - 48)
  }

  /** The word of the block used in step `i`. */
  function K(i: nat): (k: nat)
    ensures k < 16
  {
    if i < 16 then i else if i < 32 then (5 * i + 1) % 16 else if i < 48 then (3 * i + 5) % 16 else 7 * i % 16
  }

  /** The number of bits by which step `i` rotates. */
  function S(i: nat): bv6 {
    var j := i % 4;
    if i < 16 then (if j == 0 then 7 else if j == 1 then 12 else if j == 2 then 17 else 22)
    else if i < 32 then (if j == 0 then 5 else if j == 1 then 9 else if j == 2 then 14 else 20)
    else if i < 48 then (if j == 0 then 4 else if j == 1 then 11 else if j == 2 then 16 else 23)
    else (if j == 0 then 6 else if j == 1 then 10 else if j == 2 then 15 else 21)
  }

  datatype Quad = Quad(a: bv32, b: bv32, c: bv32, d: bv32)

  type Words = x: seq<bv32> | |x| == 16 witness seq(16, i => 0)

  /** The one word that a step changes: from `w`, with `f` mixed from the others and `x` next in the circle. */
  function Advance(m: Ops, w: bv32, f: bv32, x: bv32, data: bv32, s: bv6): bv32 {
    m.add(m.rot(m.add(w, m.add(f, data)), s), x)
  }

  /** Step `i`, with word `x` of the block; the four words then change roles. */
  function Step(m: Ops, q: Quad, i: nat, x: bv32): Quad {
    Quad(q.d, Advance(m, q.a, m.mix(i / 16, q.b, q.c, q.d), q.b, m.add(x, T(i)), S(i)), q.b, q.c)
  }

  /** The first `n` steps for block `x`. */
  function Steps(m: Ops, q: Quad, x: Words, n: nat): Quad {
    if n == 0 then q else Step(m, Steps(m, q, x, n - 1), n - 1, x[K(n - 1)])
  }

  function Compress(m: Ops, q: Quad, x: Words): Quad {
    var r := Steps(m, q, x, 64);
    Quad(m.add(q.a, r.a), m.add(q.b, r.b), m.add(q.c, r.c), m.add(q.d, r.d))
  }

  /** Section 3.4: after all steps, each word is increased by the value that it had before. */
  lemma BlockAdds(m: Ops, q: Quad, x: Words, n: nat, r: Quad)
    requires n == 64 && r == Steps(m, q, x, n)
    ensures Compress(m, q, x) == Quad(m.add(q.a, r.a), m.add(q.b, r.b), m.add(q.c, r.c), m.add(q.d, r.d))
  {
  }

  // ---------- the unrolled code ----------

  method Md5Step(m: Ops, round: nat, w: bv32, x: bv32, y: bv32, z: bv32, data: bv32, s: bv6,
                 ghost q: Quad, ghost v: Words, ghost n: nat)
    returns (r: bv32)
    requires Steps(m, q, v, n) == Quad(w, x, y, z)
    requires round == n / 16 && data == m.add(v[K(n)], T(n)) && s == S(n)
    ensures Steps(m, q, v, n + 1) == Quad(z, r, x, y)
  {
    r := m.add(w, m.add(m.mix(round, x, y, z), data));
    r := m.rot(r, s);
    r := m.add(r, x);
    assert Steps(m, q, v, n + 1) == Step(m, Steps(m, q, v, n), n, v[K(n)]);
  }

  lemma Table1()
    ensures K(0) == 0 && T(0) == 0xd76aa478 && S(0) == 7
    ensures K(1) == 1 && T(1) == 0xe8c7b756 && S(1) == 12
    ensures K(2) == 2 && T(2) == 0x242070db && S(2) == 17
    ensures K(3) == 3 && T(3) == 0xc1bdceee && S(3) == 22
    ensures K(4) == 4 && T(4) == 0xf57c0faf && S(4) == 7
    ensures K(5) == 5 && T(5) == 0x4787c62a && S(5) == 12
    ensures K(6) == 6 && T(6) == 0xa8304613 && S(6) == 17
    ensures K(7) == 7 && T(7) == 0xfd469501 && S(7) == 22
    ensures K(8) == 8 && T(8) == 0x698098d8 && S(8) == 7
    ensures K(9) == 9 && T(9) == 0x8b44f7af && S(9) == 12
    ensures K(10) == 10 && T(10) == 0xffff5bb1 && S(10) == 17
    ensures K(11) == 11 && T(11) == 0x895cd7be && S(11) == 22
    ensures K(12) == 12 && T(12) == 0x6b901122 && S(12) == 7
    ensures K(13) == 13 && T(13) == 0xfd987193 && S(13) == 12
    ensures K(14) == 14 && T(14) == 0xa679438e && S(14) == 17
    ensures K(15) == 15 && T(15) == 0x49b40821 && S(15) == 22
  {
  }

  method Steps0(m: Ops, a0: bv32, b0: bv32, c0: bv32, d0: bv32, v: Words, ghost q: Quad, ghost n: nat)
    returns (a: bv32, b: bv32, c: bv32, d: bv32)
    requires n == 0 && Steps(m, q, v, n) == Quad(a0, b0, c0, d0)
    ensures Steps(m, q, v, n + 8) == Quad(a, b, c, d)
  {
    Table1();
    a, b, c, d := a0, b0, c0, d0;
    a := Md5Step(m, 0, a, b, c, d, m.add(v[0], 0xd76aa478), 7, q, v, n);
    d := Md5Step(m, 0, d, a, b, c, m.add(v[1], 0xe8c7b756), 12, q, v, n + 1);
    c := Md5Step(m, 0, c, d, a, b, m.add(v[2], 0x242070db), 17, q, v, n + 2);
    b := Md5Step(m, 0, b, c, d, a, m.add(v[3], 0xc1bdceee), 22, q, v, n + 3);
    a := Md5Step(m, 0, a, b, c, d, m.add(v[4], 0xf57c0faf), 7, q, v, n + 4);
    d := Md5Step(m, 0, d, a, b, c, m.add(v[5], 0x4787c62a), 12, q, v, n + 5);
    c := Md5Step(m, 0, c, d, a, b, m.add(v[6], 0xa8304613), 17, q, v, n + 6);
    b := Md5Step(m, 0, b, c, d, a, m.add(v[7], 0xfd469501), 22, q, v, n + 7);
  }

  method Steps8(m: Ops, a0: bv32, b0: bv32, c0: bv32, d0: bv32, v: Words, ghost q: Quad, ghost n: nat)
    returns (a: bv32, b: bv32, c: bv32, d: bv32)
    requires n == 8 && Steps(m, q, v, n) == Quad(a0, b0, c0, d0)
    ensures Steps(m, q, v, n + 8) == Quad(a, b, c, d)
  {
    Table1();
    a, b, c, d := a0, b0, c0, d0;
    a := Md5Step(m, 0, a, b, c, d, m.add(v[8], 0x698098d8), 7, q, v, n);
    d := Md5Step(m, 0, d, a, b, c, m.add(v[9], 0x8b44f7af), 12, q, v, n + 1);
    c := Md5Step(m, 0, c, d, a, b, m.add(v[10], 0xffff5bb1), 17, q, v, n + 2);
    b := Md5Step(m, 0, b, c, d, a, m.add(v[11], 0x895cd7be), 22, q, v, n + 3);
    a := Md5Step(m, 0, a, b, c, d, m.add(v[12], 0x6b901122), 7, q, v, n + 4);
    d := Md5Step(m, 0, d, a, b, c, m.add(v[13], 0xfd987193), 12, q, v, n + 5);
    c := Md5Step(m, 0, c, d, a, b, m.add(v[14], 0xa679438e), 17, q, v, n + 6);
    b := Md5Step(m, 0, b, c, d, a, m.add(v[15], 0x49b40821), 22, q, v, n + 7);
  }

  lemma Table2()
    ensures K(16) == 1 && T(16) == 0xf61e2562 && S(16) == 5
    ensures K(17) == 6 && T(17) == 0xc040b340 && S(17) == 9
    ensures K(18) == 11 && T(18) == 0x265e5a51 && S(18) == 14
    ensures K(19) == 0 && T(19) == 0xe9b6c7aa && S(19) == 20
    ensures K(20) == 5 && T(20) == 0xd62f105d && S(20) == 5
    ensures K(21) == 10 && T(21) == 0x02441453 && S(21) == 9
    ensures K(22) == 15 && T(22) == 0xd8a1e681 && S(22) == 14
    ensures K(23) == 4 && T(23) == 0xe7d3fbc8 && S(23) == 20
    ensures K(24) == 9 && T(24) == 0x21e1cde6 && S(24) == 5
    ensures K(25) == 14 && T(25) == 0xc33707d6 && S(25) == 9
    ensures K(26) == 3 && T(26) == 0xf4d50d87 && S(26) == 14
    ensures K(27) == 8 && T(27) == 0x455a14ed && S(27) == 20
    ensures K(28) == 13 && T(28) == 0xa9e3e905 && S(28) == 5
    ensures K(29) == 2 && T(29) == 0xfcefa3f8 && S(29) == 9
    ensures K(30) == 7 && T(30) == 0x676f02d9 && S(30) == 14
    ensures K(31) == 12 && T(31) == 0x8d2a4c8a && S(31) == 20
  {
  }

  method Steps16(m: Ops, a0: bv32, b0: bv32, c0: bv32, d0: bv32, v: Words, ghost q: Quad, ghost n: nat)
    returns (a: bv32, b: bv32, c: bv32, d: bv32)
    requires n == 16 && Steps(m, q, v, n) == Quad(a0, b0, c0, d0)
    ensures Steps(m, q, v, n + 8) == Quad(a, b, c, d)
  {
    Table2();
    a, b, c, d := a0, b0, c0, d0;
    a := Md5Step(m, 1, a, b, c, d, m.add(v[1], 0xf61e2562), 5, q, v, n);
    d := Md5Step(m, 1, d, a, b, c, m.add(v[6], 0xc040b340), 9, q, v, n + 1);
    c := Md5Step(m, 1, c, d, a, b, m.add(v[11], 0x265e5a51), 14, q, v, n + 2);
    b := Md5Step(m, 1, b, c, d, a, m.add(v[0], 0xe9b6c7aa), 20, q, v, n + 3);
    a := Md5Step(m, 1, a, b, c, d, m.add(v[5], 0xd62f105d), 5, q, v, n + 4);
    d := Md5Step(m, 1, d, a, b, c, m.add(v[10], 0x02441453), 9, q, v, n + 5);
    c := Md5Step(m, 1, c, d, a, b, m.add(v[15], 0xd8a1e681), 14, q, v, n + 6);
    b := Md5Step(m, 1, b, c, d, a, m.add(v[4], 0xe7d3fbc8), 20, q, v, n + 7);
  }

  method Steps24(m: Ops, a0: bv32, b0: bv32, c0: bv32, d0: bv32, v: Words, ghost q: Quad, ghost n: nat)
    returns (a: bv32, b: bv32, c: bv32, d: bv32)
    requires n == 24 && Steps(m, q, v, n) == Quad(a0, b0, c0, d0)
    ensures Steps(m, q, v, n + 8) == Quad(a, b, c, d)
  {
    Table2();
    a, b, c, d := a0, b0, c0, d0;
    a := Md5Step(m, 1, a, b, c, d, m.add(v[9], 0x21e1cde6), 5, q, v, n);
    d := Md5Step(m, 1, d, a, b, c, m.add(v[14], 0xc33707d6), 9, q, v, n + 1);
    c := Md5Step(m, 1, c, d, a, b, m.add(v[3], 0xf4d50d87), 14, q, v, n + 2);
    b := Md5Step(m, 1, b, c, d, a, m.add(v[8], 0x455a14ed), 20, q, v, n + 3);
    a := Md5Step(m, 1, a, b, c, d, m.add(v[13], 0xa9e3e905), 5, q, v, n + 4);
    d := Md5Step(m, 1, d, a, b, c, m.add(v[2], 0xfcefa3f8), 9, q, v, n + 5);
    c := Md5Step(m, 1, c, d, a, b, m.add(v[7], 0x676f02d9), 14, q, v, n + 6);
    b := Md5Step(m, 1, b, c, d, a, m.add(v[12], 0x8d2a4c8a), 20, q, v, n + 7);
  }

  lemma Table3()
    ensures K(32) == 5 && T(32) == 0xfffa3942 && S(32) == 4
    ensures K(33) == 8 && T(33) == 0x8771f681 && S(33) == 11
    ensures K(34) == 11 && T(34) == 0x6d9d6122 && S(34) == 16
    ensures K(35) == 14 && T(35) == 0xfde5380c && S(35) == 23
    ensures K(36) == 1 && T(36) == 0xa4beea44 && S(36) == 4
    ensures K(37) == 4 && T(37) == 0x4bdecfa9 && S(37) == 11
    ensures K(38) == 7 && T(38) == 0xf6bb4b60 && S(38) == 16
    ensures K(39) == 10 && T(39) == 0xbebfbc70 && S(39) == 23
    ensures K(40) == 13 && T(40) == 0x289b7ec6 && S(40) == 4
    ensures K(41) == 0 && T(41) == 0xeaa127fa && S(41) == 11
    ensures K(42) == 3 && T(42) == 0xd4ef3085 && S(42) == 16
    ensures K(43) == 6 && T(43) == 0x04881d05 && S(43) == 23
    ensures K(44) == 9 && T(44) == 0xd9d4d039 && S(44) == 4
    ensures K(45) == 12 && T(45) == 0xe6db99e5 && S(45) == 11
    ensures K(46) == 15 && T(46) == 0x1fa27cf8 && S(46) == 16
    ensures K(47) == 2 && T(47) == 0xc4ac5665 && S(47) == 23
  {
  }

  method Steps32(m: Ops, a0: bv32, b0: bv32, c0: bv32, d0: bv32, v: Words, ghost q: Quad, ghost n: nat)
    returns (a: bv32, b: bv32, c: bv32, d: bv32)
    requires n == 32 && Steps(m, q, v, n) == Quad(a0, b0, c0, d0)
    ensures Steps(m, q, v, n + 8) == Quad(a, b, c, d)
  {
    Table3();
    a, b, c, d := a0, b0, c0, d0;
    a := Md5Step(m, 2, a, b, c, d, m.add(v[5], 0xfffa3942), 4, q, v, n);
    d := Md5Step(m, 2, d, a, b, c, m.add(v[8], 0x8771f681), 11, q, v, n + 1);
    c := Md5Step(m, 2, c, d, a, b, m.add(v[11], 0x6d9d6122), 16, q, v, n + 2);
    b := Md5Step(m, 2, b, c, d, a, m.add(v[14], 0xfde5380c), 23, q, v, n + 3);
    a := Md5Step(m, 2, a, b, c, d, m.add(v[1], 0xa4beea44), 4, q, v, n + 4);
    d := Md5Step(m, 2, d, a, b, c, m.add(v[4], 0x4bdecfa9), 11, q, v, n + 5);
    c := Md5Step(m, 2, c, d, a, b, m.add(v[7], 0xf6bb4b60), 16, q, v, n + 6);
    b := Md5Step(m, 2, b, c, d, a, m.add(v[10], 0xbebfbc70), 23, q, v, n + 7);
  }

  method Steps40(m: Ops, a0: bv32, b0: bv32, c0: bv32, d0: bv32, v: Words, ghost q: Quad, ghost n: nat)
    returns (a: bv32, b: bv32, c: bv32, d: bv32)
    requires n == 40 && Steps(m, q, v, n) == Quad(a0, b0, c0, d0)
    ensures Steps(m, q, v, n + 8) == Quad(a, b, c, d)
  {
    Table3();
    a, b, c, d := a0, b0, c0, d0;
    a := Md5Step(m, 2, a, b, c, d, m.add(v[13], 0x289b7ec6), 4, q, v, n);
    d := Md5Step(m, 2, d, a, b, c, m.add(v[0], 0xeaa127fa), 11, q, v, n + 1);
    c := Md5Step(m, 2, c, d, a, b, m.add(v[3], 0xd4ef3085), 16, q, v, n + 2);
    b := Md5Step(m, 2, b, c, d, a, m.add(v[6], 0x04881d05), 23, q, v, n + 3);
    a := Md5Step(m, 2, a, b, c, d, m.add(v[9], 0xd9d4d039), 4, q, v, n + 4);
    d := Md5Step(m, 2, d, a, b, c, m.add(v[12], 0xe6db99e5), 11, q, v, n + 5);
    c := Md5Step(m, 2, c, d, a, b, m.add(v[15], 0x1fa27cf8), 16, q, v, n + 6);
    b := Md5Step(m, 2, b, c, d, a, m.add(v[2], 0xc4ac5665), 23, q, v, n + 7);
  }

  lemma Table4()
    ensures K(48) == 0 && T(48) == 0xf4292244 && S(48) == 6
    ensures K(49) == 7 && T(49) == 0x432aff97 && S(49) == 10
    ensures K(50) == 14 && T(50) == 0xab9423a7 && S(50) == 15
    ensures K(51) == 5 && T(51) == 0xfc93a039 && S(51) == 21
    ensures K(52) == 12 && T(52) == 0x655b59c3 && S(52) == 6
    ensures K(53) == 3 && T(53) == 0x8f0ccc92 && S(53) == 10
    ensures K(54) == 10 && T(54) == 0xffeff47d && S(54) == 15
    ensures K(55) == 1 && T(55) == 0x85845dd1 && S(55) == 21
    ensures K(56) == 8 && T(56) == 0x6fa87e4f && S(56) == 6
    ensures K(57) == 15 && T(57) == 0xfe2ce6e0 && S(57) == 10
    ensures K(58) == 6 && T(58) == 0xa3014314 && S(58) == 15
    ensures K(59) == 13 && T(59) == 0x4e0811a1 && S(59) == 21
    ensures K(60) == 4 && T(60) == 0xf7537e82 && S(60) == 6
    ensures K(61) == 11 && T(61) == 0xbd3af235 && S(61) == 10
    ensures K(62) == 2 && T(62) == 0x2ad7d2bb && S(62) == 15
    ensures K(63) == 9 && T(63) == 0xeb86d391 && S(63) == 21
  {
  }

  method Steps48(m: Ops, a0: bv32, b0: bv32, c0: bv32, d0: bv32, v: Words, ghost q: Quad, ghost n: nat)
    returns (a: bv32, b: bv32, c: bv32, d: bv32)
    requires n == 48 && Steps(m, q, v, n) == Quad(a0, b0, c0, d0)
    ensures Steps(m, q, v, n + 8) == Quad(a, b, c, d)
  {
    Table4();
    a, b, c, d := a0, b0, c0, d0;
    a := Md5Step(m, 3, a, b, c, d, m.add(v[0], 0xf4292244), 6, q, v, n);
    d := Md5Step(m, 3, d, a, b, c, m.add(v[7], 0x432aff97), 10, q, v, n + 1);
    c := Md5Step(m, 3, c, d, a, b, m.add(v[14], 0xab9423a7), 15, q, v, n + 2);
    b := Md5Step(m, 3, b, c, d, a, m.add(v[5], 0xfc93a039), 21, q, v, n + 3);
    a := Md5Step(m, 3, a, b, c, d, m.add(v[12], 0x655b59c3), 6, q, v, n + 4);
    d := Md5Step(m, 3, d, a, b, c, m.add(v[3], 0x8f0ccc92), 10, q, v, n + 5);
    c := Md5Step(m, 3, c, d, a, b, m.add(v[10], 0xffeff47d), 15, q, v, n + 6);
    b := Md5Step(m, 3, b, c, d, a, m.add(v[1], 0x85845dd1), 21, q, v, n + 7);
  }

  method Steps56(m: Ops, a0: bv32, b0: bv32, c0: bv32, d0: bv32, v: Words, ghost q: Quad, ghost n: nat)
    returns (a: bv32, b: bv32, c: bv32, d: bv32)
    requires n == 56 && Steps(m, q, v, n) == Quad(a0, b0, c0, d0)
    ensures Steps(m, q, v, n + 8) == Quad(a, b, c, d)
  {
    Table4();
    a, b, c, d := a0, b0, c0, d0;
    a := Md5Step(m, 3, a, b, c, d, m.add(v[8], 0x6fa87e4f), 6, q, v, n);
    d := Md5Step(m, 3, d, a, b, c, m.add(v[15], 0xfe2ce6e0), 10, q, v, n + 1);
    c := Md5Step(m, 3, c, d, a, b, m.add(v[6], 0xa3014314), 15, q, v, n + 2);
    b := Md5Step(m, 3, b, c, d, a, m.add(v[13], 0x4e0811a1), 21, q, v, n + 3);
    a := Md5Step(m, 3, a, b, c, d, m.add(v[4], 0xf7537e82), 6, q, v, n + 4);
    d := Md5Step(m, 3, d, a, b, c, m.add(v[11], 0xbd3af235), 10, q, v, n + 5);
    c := Md5Step(m, 3, c, d, a, b, m.add(v[2], 0x2ad7d2bb), 15, q, v, n + 6);
    b := Md5Step(m, 3, b, c, d, a, m.add(v[9], 0xeb86d391), 21, q, v, n + 7);
  }

  function QuadOf(buf: array<bv32>): Quad
    requires buf.Length == 4
    reads buf
  {
    Quad(buf[0], buf[1], buf[2], buf[3])
  }

  method AllSteps(m: Ops, a0: bv32, b0: bv32, c0: bv32, d0: bv32, v: Words, ghost q: Quad, ghost n: nat)
    returns (a: bv32, b: bv32, c: bv32, d: bv32)
    requires n == 0 && q == Quad(a0, b0, c0, d0)
    ensures Steps(m, q, v, n + 64) == Quad(a, b, c, d)
  {
    a, b, c, d := Steps0(m, a0, b0, c0, d0, v, q, n);
    a, b, c, d := Steps8(m, a, b, c, d, v, q, n + 8);
    a, b, c, d := Steps16(m, a, b, c, d, v, q, n + 16);
    a, b, c, d := Steps24(m, a, b, c, d, v, q, n + 24);
    a, b, c, d := Steps32(m, a, b, c, d, v, q, n + 32);
    a, b, c, d := Steps40(m, a, b, c, d, v, q, n + 40);
    a, b, c, d := Steps48(m, a, b, c, d, v, q, n + 48);
    a, b, c, d := Steps56(m, a, b, c, d, v, q, n + 56);
  }

  method Transform(m: Ops, buf: array<bv32>, v: Words)
    requires buf.Length == 4
    modifies buf
    ensures QuadOf(buf) == Compress(m, old(QuadOf(buf)), v)
  {
    ghost var q := QuadOf(buf);
    var a, b, c, d := AllSteps(m, buf[0], buf[1], buf[2], buf[3], v, q, 0);
    buf[0] := m.add(buf[0], a);
    buf[1] := m.add(buf[1], b);
    buf[2] := m.add(buf[2], c);
    buf[3] := m.add(buf[3], d);
  }

  // ---------- the steps can be undone ----------

  datatype Inverses = Inverses(sub: (bv32, bv32) -> bv32, unrot: (bv32, bv6) -> bv32)

  predicate IsShift(s: bv6) {
    s in {4, 5, 6, 7, 9, 10, 11, 12, 14, 15, 16, 17, 20, 21, 22, 23}
  }

  ghost predicate Undoes(m: Ops, inv: Inverses) {
    && (forall a, b :: inv.sub(m.add(a, b), b) == a && m.add(inv.sub(a, b), b) == a)
    && (forall a, s | IsShift(s) :: inv.unrot(m.rot(a, s), s) == a && m.rot(inv.unrot(a, s), s) == a)
  }

  /** The inverse of Advance in its first word; `g` is what Advance adds to it. */
  function Retreat(m: Ops, inv: Inverses, r: bv32, g: bv32, x: bv32, s: bv6): bv32 {
    inv.sub(inv.unrot(inv.sub(r, x), s), g)
  }

  function UnStep(m: Ops, inv: Inverses, q: Quad, i: nat, x: bv32): Quad {
    var f := m.mix(i / 16, q.c, q.d, q.a);
    Quad(Retreat(m, inv, q.b, m.add(f, m.add(x, T(i))), q.c, S(i)), q.c, q.d, q.a)
  }

  function UnSteps(m: Ops, inv: Inverses, q: Quad, x: Words, n: nat): Quad
    decreases n
  {
    if n == 0 then q else UnSteps(m, inv, UnStep(m, inv, q, n - 1, x[K(n - 1)]), x, n - 1)
  }

  lemma ShiftsAreShifts(i: nat)
    ensures IsShift(S(i))
  {
  }

  lemma AdvanceBijective(m: Ops, inv: Inverses, w: bv32, g: bv32, x: bv32, s: bv6)
    requires Undoes(m, inv) && IsShift(s)
    ensures Retreat(m, inv, m.add(m.rot(m.add(w, g), s), x), g, x, s) == w
    ensures m.add(m.rot(m.add(Retreat(m, inv, w, g, x, s), g), s), x) == w
  {
    var v := m.add(w, g);
    assert inv.sub(m.add(m.rot(v, s), x), x) == m.rot(v, s);
    var u := inv.sub(w, x);
    assert m.add(inv.sub(inv.unrot(u, s), g), g) == inv.unrot(u, s);
  }

  lemma StepBijective(m: Ops, inv: Inverses, q: Quad, i: nat, x: bv32)
    requires Undoes(m, inv)
    ensures UnStep(m, inv, Step(m, q, i, x), i, x) == q && Step(m, UnStep(m, inv, q, i, x), i, x) == q
  {
    ShiftsAreShifts(i);
    AdvanceBijective(m, inv, q.a, m.add(m.mix(i / 16, q.b, q.c, q.d), m.add(x, T(i))), q.b, S(i));
    AdvanceBijective(m, inv, q.b, m.add(m.mix(i / 16, q.c, q.d, q.a), m.add(x, T(i))), q.c, S(i));
  }

  lemma {:induction false} StepsUndone(m: Ops, inv: Inverses, q: Quad, x: Words, n: nat)
    requires Undoes(m, inv)
    ensures UnSteps(m, inv, Steps(m, q, x, n), x, n) == q
    decreases n
  {
    if n == 0 {
    } else {
      StepBijective(m, inv, Steps(m, q, x, n - 1), n - 1, x[K(n - 1)]);
      StepsUndone(m, inv, q, x, n - 1);
    }
  }

  lemma {:induction false} StepsRedone(m: Ops, inv: Inverses, q: Quad, x: Words, n: nat)
    requires Undoes(m, inv)
    ensures Steps(m, UnSteps(m, inv, q, x, n), x, n) == q
    decreases n
  {
    if n == 0 {
    } else {
      StepBijective(m, inv, q, n - 1, x[K(n - 1)]);
      StepsRedone(m, inv, UnStep(m, inv, q, n - 1, x[K(n - 1)]), x, n - 1);
    }
  }

  /** For a fixed block, the steps are a bijection on the four-word state. */
  lemma StepsBijective(m: Ops, inv: Inverses, q: Quad, x: Words, n: nat)
    requires Undoes(m, inv)
    ensures UnSteps(m, inv, Steps(m, q, x, n), x, n) == q && Steps(m, UnSteps(m, inv, q, x, n), x, n) == q
  {
    StepsUndone(m, inv, q, x, n);
    StepsRedone(m, inv, q, x, n);
  }

  // ---------- different ways to compute the same operations ----------

  ghost predicate Agree(m: Ops, m': Ops) {
    && (forall i, x, y, z :: m.mix(i, x, y, z) == m'.mix(i, x, y, z))
    && (forall x, y :: m.add(x, y) == m'.add(x, y))
    && (forall x, s | IsShift(s) :: m.rot(x, s) == m'.rot(x, s))
    && (forall x :: m.load(x) == m'.load(x)) && (forall w :: m.store(w) == m'.store(w))
  }

  lemma {:induction false} SameSteps(m: Ops, m': Ops, q: Quad, x: Words, n: nat)
    requires Agree(m, m')
    ensures Steps(m, q, x, n) == Steps(m', q, x, n)
    decreases n
  {
    if n == 0 {
    } else {
      SameSteps(m, m', q, x, n - 1);
      ShiftsAreShifts(n - 1);
    }
  }

  lemma SameCompress(m: Ops, m': Ops, q: Quad, x: Words)
    requires Agree(m, m')
    ensures Compress(m, q, x) == Compress(m', q, x)
  {
    SameSteps(m, m', q, x, 64);
  }
}
