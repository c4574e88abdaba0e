/** Padding and chaining: sections 3.1 to 3.3 of RFC 1321, and the variant used in DXBC containers. */
module Md5Padding {
  import opened Machine
  import opened Md5Block

  type Bytes = seq<Byte>

  datatype Variant = Standard | Dxbc

  // ---------- words and bytes, low byte first ----------

  function Le(x: U32): (b: Bytes)
    ensures |b| == 4
  {
    [x % 0x100, x / 0x100 % 0x100, x / 0x1_0000 % 0x100, x / 0x100_0000]
  }

  function FromLe(b: Bytes): U32
    requires |b| == 4
  {
    var b0: int, b1: int, b2: int, b3: int := b[0], b[1], b[2], b[3];
    b0 + 0x100 * b1 + 0x1_0000 * b2 + 0x100_0000 * b3
  }

  lemma FromLeLe(x: U32)
    ensures FromLe(Le(x)) == x
  {
    var h, g := x / 0x100, x / 0x1_0000;
    assert x == 0x100 * h + x % 0x100;
    assert h == 0x100 * g + h % 0x100;
    assert g == 0x100 * (x / 0x100_0000) + g % 0x100;
  }

  lemma LowByte(b: nat, rest: nat)
    requires b < 0x100
    ensures (b + 0x100 * rest) % 0x100 == b && (b + 0x100 * rest) / 0x100 == rest
  {
  }

  lemma LeFromLe(b: Bytes)
    requires |b| == 4
    ensures Le(FromLe(b)) == b
  {
    var y, b0: int, b1: int, b2: int, b3: int := FromLe(b), b[0], b[1], b[2], b[3];
    LowByte(b0, b1 + 0x100 * b2 + 0x1_0000 * b3);
    LowByte(b1, b2 + 0x100 * b3);
    LowByte(b2, b3);
    assert y / 0x1_0000 == (y / 0x100) / 0x100 && y / 0x100_0000 == (y / 0x1_0000) / 0x100;
  }

  function WordsOf(m: Ops, block: Bytes): Words
    requires |block| == 64
  {
    seq(16, k requires 0 <= k < 16 => m.load(FromLe(block[4 * k..4 * k + 4])))
  }

  const INIT := Quad(0x67452301, 0xefcdab89, 0x98badcfe, 0x10325476)

  /** All blocks of `data`, one after the other. */
  function Fold(m: Ops, data: Bytes): Quad
    requires |data| % 64 == 0
    decreases |data|
  {
    if data == [] then INIT
    else
      var k := |data| - 64;
      Compress(m, Fold(m, data[..k]), WordsOf(m, data[k..]))
  }

  function DigestBytes(m: Ops, q: Quad): Bytes {
    Le(m.store(q.a)) + Le(m.store(q.b)) + Le(m.store(q.c)) + Le(m.store(q.d))
  }

  // ---------- the bit count ----------

  /** The low and the high word of the length of `n` bytes in bits, modulo 2^64. */
  function Lo(n: nat): U32 {
    8 * n % TWO32
  }

  function Hi(n: nat): U32 {
    8 * n / TWO32 % TWO32
  }

  // ---------- padding ----------

  function Zeros(n: nat): (z: Bytes)
    ensures |z| == n
  {
    seq(n, _ => 0)
  }

  lemma WholeBlocks(a: nat, b: nat)
    requires a % 64 == 0 && b % 64 == 0
    ensures (a + b) % 64 == 0
  {
  }

  /** The number of zeros after the 0x80 byte, so that 8 bytes short of a block remain. */
  function ZeroCount(n: nat): nat {
    (119 - n % 64) % 64
  }

  lemma WithoutBlocks(q: nat, x: nat)
    ensures (64 * q + x) % 64 == x % 64
  {
  }

  lemma LeastZeros(r: nat, k: nat)
    requires r < 64
    ensures (r + 1 + (119 - r) % 64) % 64 == 56
    ensures (r + 1 + k) % 64 == 56 ==> (119 - r) % 64 <= k
  {
  }

  /** Section 3.1: as few zeros as possible, and at least the one bit. */
  lemma ZeroCountIsLeast(n: nat, k: nat)
    ensures (n + 1 + ZeroCount(n)) % 64 == 56
    ensures (n + 1 + k) % 64 == 56 ==> ZeroCount(n) <= k
  {
    var q, r := n / 64, n % 64;
    WithoutBlocks(q, r + 1 + k);
    WithoutBlocks(q, r + 1 + ZeroCount(n));
    LeastZeros(r, k);
  }

  lemma PadFits(n: nat)
    ensures (n + 1 + ZeroCount(n) + 8) % 64 == 0 && ZeroCount(n) < 64
  {
    ZeroCountIsLeast(n, 0);
    WholeBlocks(n + 1 + ZeroCount(n) - 56, 64);
  }

  /** Sections 3.1 and 3.2. */
  function Pad(data: Bytes): (p: Bytes)
    ensures |p| % 64 == 0 && |data| + 9 <= |p| < |data| + 73
  {
    PadFits(|data|);
    data + [0x80] + Zeros(ZeroCount(|data|)) + Le(Lo(|data|)) + Le(Hi(|data|))
  }

  /** The bytes after the last full block, and the full blocks. */
  function Tail(data: Bytes): (t: Bytes)
    ensures |t| == |data| % 64
  {
    data[|data| - |data| % 64..]
  }

  function Full(data: Bytes): (t: Bytes)
    ensures |t| % 64 == 0 && t + Tail(data) == data
  {
    data[..|data| - |data| % 64]
  }

  /** The last word of the DXBC variant. */
  function Mark(n: nat): U32 {
    Lo(n) / 4 + 1
  }

  /** The last block or two of the DXBC variant: the length comes before the tail when both fit, else after it. */
  function DxbcLast(t: Bytes, n: nat): (p: Bytes)
    requires |t| < 64
    ensures |p| == if |t| < 56 then 64 else 128
  {
    if |t| < 56 then Le(Lo(n)) + t + [0x80] + Zeros(55 - |t|) + Le(Mark(n))
    else t + [0x80] + Zeros(63 - |t|) + Le(Lo(n)) + Zeros(56) + Le(Mark(n))
  }

  function DxbcPad(data: Bytes): (p: Bytes)
    ensures |p| % 64 == 0
  {
    var last := DxbcLast(Tail(data), |data|);
    WholeBlocks(|Full(data)|, |last|);
    Full(data) + last
  }

  function PadAs(variant: Variant, data: Bytes): (p: Bytes)
    ensures |p| % 64 == 0
  {
    if variant.Dxbc? then DxbcPad(data) else Pad(data)
  }

  /** The digest: the padded message, block by block. */
  function Digest(m: Ops, variant: Variant, data: Bytes): Bytes {
    DigestBytes(m, Fold(m, PadAs(variant, data)))
  }

  // ---------- the padded messages by value ----------

  /** The value of bytes, low byte first. */
  function Value(b: Bytes): nat {
    if b == [] then 0 else b[0] as int + 0x100 * Value(b[1..])
  }

  lemma FourBytes(b: Bytes)
    requires |b| == 4
    ensures Value(b) == FromLe(b)
  {
    assert b[1..][1..] == b[2..] && b[2..][1..] == b[3..] && b[3..][1..] == [];
    assert Value(b[3..]) == b[3] as int;
    assert Value(b[2..]) == b[2] as int + 0x100 * Value(b[3..]);
    assert Value(b[1..]) == b[1] as int + 0x100 * Value(b[2..]);
  }

  /** A word is stored low byte first. */
  lemma LeIs(x: U32)
    ensures Value(Le(x)) == x
  {
    FromLeLe(x);
    FourBytes(Le(x));
  }

  /** The last word holds the length with its low bit set: twice the number of bytes, and one. */
  lemma MarkIs(n: nat)
    ensures Mark(n) == 2 * (n % 0x2000_0000) + 1
  {
    var q := n / 0x2000_0000;
    assert 8 * n == TWO32 * q + 8 * (n % 0x2000_0000);
  }

  lemma RemainderIs(q: nat, x: nat)
    requires x < TWO32 * TWO32
    ensures (TWO32 * TWO32 * q + x) % (TWO32 * TWO32) == x
  {
  }

  /** Both words of the length together count bits modulo 2^64. */
  lemma LengthIs(n: nat)
    ensures Lo(n) + TWO32 * Hi(n) == 8 * n % (TWO32 * TWO32)
  {
    var q, r := 8 * n / TWO32, 8 * n % TWO32;
    var x := TWO32 * (q % TWO32) + r;
    assert 8 * n == TWO32 * TWO32 * (q / TWO32) + x;
    RemainderIs(q / TWO32, x);
  }

  /** The standard padding, byte by byte: the message, one set bit, zeros, and the length in bits. */
  lemma PadIs(data: Bytes)
    ensures var p, n := Pad(data), |data|; var e := |p| - 8;
      && p[..n] == data && p[n] == 0x80 && (forall k | n < k < e :: p[k] == 0)
      && Value(p[e..e + 4]) + TWO32 * Value(p[e + 4..]) == 8 * n % (TWO32 * TWO32)
  {
    var p, n := Pad(data), |data|;
    var e := |p| - 8;
    LeIs(Lo(n));
    LeIs(Hi(n));
    LengthIs(n);
    assert p[e..e + 4] == Le(Lo(n)) && p[e + 4..] == Le(Hi(n));
  }

  /** One block: the length in bits, the tail, one set bit, zeros, and the mark. */
  ghost predicate IsShortLast(last: Bytes, t: Bytes, n: nat) {
    && |t| < 56 && |last| == 64
    && Value(last[..4]) == 8 * n % TWO32 && last[4..|t| + 4] == t && last[|t| + 4] == 0x80
    && (forall k | |t| + 4 < k < 60 :: last[k] == 0) && Value(last[60..]) == 2 * (n % 0x2000_0000) + 1
  }

  /** Two blocks: the tail, one set bit and zeros; then the length in bits, zeros, and the mark. */
  ghost predicate IsLongLast(last: Bytes, t: Bytes, n: nat) {
    && 56 <= |t| < 64 && |last| == 128
    && last[..|t|] == t && last[|t|] == 0x80 && (forall k | |t| < k < 64 || 68 <= k < 124 :: last[k] == 0)
    && Value(last[64..68]) == 8 * n % TWO32 && Value(last[124..]) == 2 * (n % 0x2000_0000) + 1
  }

  lemma ShortLast(t: Bytes, n: nat)
    requires |t| < 56
    ensures IsShortLast(DxbcLast(t, n), t, n)
  {
    var last := DxbcLast(t, n);
    LeIs(Lo(n));
    LeIs(Mark(n));
    MarkIs(n);
    assert last[..4] == Le(Lo(n)) && last[60..] == Le(Mark(n)) && last[4..|t| + 4] == t;
  }

  lemma LongLast(t: Bytes, n: nat)
    requires 56 <= |t| < 64
    ensures IsLongLast(DxbcLast(t, n), t, n)
  {
    var last := DxbcLast(t, n);
    LeIs(Lo(n));
    LeIs(Mark(n));
    MarkIs(n);
    assert last[64..68] == Le(Lo(n)) && last[124..] == Le(Mark(n)) && last[..|t|] == t;
  }

  /** The DXBC padding, byte by byte: the whole blocks of the message, and then one block or two. */
  lemma DxbcPadIs(data: Bytes)
    ensures var p, n := DxbcPad(data), |data|; var m := n - n % 64;
      && p[..m] == data[..m]
      && if n % 64 < 56 then IsShortLast(p[m..], data[m..], n) else IsLongLast(p[m..], data[m..], n)
  {
    var n := |data|;
    var m := n - n % 64;
    assert DxbcPad(data)[m..] == DxbcLast(Tail(data), n);
    if n % 64 < 56 { ShortLast(Tail(data), n); } else { LongLast(Tail(data), n); }
  }

  // ---------- different messages ----------

  lemma LeInjective(x: U32, y: U32)
    requires Le(x) == Le(y)
    ensures x == y
  {
    FromLeLe(x);
    FromLeLe(y);
  }

  // ---------- what the padding promises ----------

  lemma PaddedLength(n: nat)
    ensures n + 9 + ZeroCount(n) == n - n % 64 + if n % 64 < 56 then 64 else 128
  {
  }

  /** Both variants hash the same number of blocks. */
  lemma SameBlockCount(data: Bytes)
    ensures |DxbcPad(data)| == |Pad(data)|
  {
    PaddedLength(|data|);
    assert |Pad(data)| == |data| + 9 + ZeroCount(|data|);
    assert |DxbcPad(data)| == |Full(data)| + |DxbcLast(Tail(data), |data|)|;
  }

  /** Lengths that agree in the low word and are close to each other are equal. */
  lemma CloseLengths(a: nat, b: nat)
    requires Lo(a) == Lo(b) && -128 < a - b < 128
    ensures a == b
  {
  }

  lemma PadParts(data: Bytes)
    ensures var p, n := Pad(data), |data|;
      p[..n] == data && p[|p| - 8..|p| - 4] == Le(Lo(n))
  {
  }

  /** No two messages are padded alike. */
  lemma PadInjective(x: Bytes, y: Bytes)
    requires Pad(x) == Pad(y)
    ensures x == y
  {
    PadParts(x);
    PadParts(y);
    LeInjective(Lo(|x|), Lo(|y|));
    CloseLengths(|x|, |y|);
  }

  /** In either form of the DXBC padding the length is the first word of the last block. */
  lemma DxbcPadParts(data: Bytes)
    ensures var p, n := DxbcPad(data), |data|;
      && |p| >= 64 && p[|p| - 64..|p| - 60] == Le(Lo(n)) && -8 <= n - (|p| - 64) < 56
      && data == if n % 64 < 56 then p[..n - n % 64] + p[n - n % 64 + 4..n + 4] else p[..n]
  {
    var t, n, p := Tail(data), |data|, DxbcPad(data);
    var f := Full(data);
    if |t| < 56 {
      assert p[|f|..|f| + 4] == Le(Lo(n));
      assert p[..|f|] == f;
      assert p[|f| + 4..n + 4] == t;
    } else {
      assert p[..n] == f + t;
      assert p[|f| + 64..|f| + 68] == Le(Lo(n));
    }
  }

  lemma DxbcPadInjective(x: Bytes, y: Bytes)
    requires DxbcPad(x) == DxbcPad(y)
    ensures x == y
  {
    DxbcPadParts(x);
    DxbcPadParts(y);
    LeInjective(Lo(|x|), Lo(|y|));
    CloseLengths(|x|, |y|);
  }

  // ---------- what is hashed of a buffer of any size ----------

  /** The size is cut to 32 bits on its way into the update. */
  function Hashed(data: Bytes): Bytes {
    data[..|data| % TWO32]
  }

  lemma PadAsInjective(variant: Variant, x: Bytes, y: Bytes)
    requires PadAs(variant, x) == PadAs(variant, y)
    ensures x == y
  {
    if variant.Dxbc? { DxbcPadInjective(x, y); } else { PadInjective(x, y); }
  }

  lemma HashedAll(data: Bytes)
    ensures Hashed(data) == data <==> |data| < TWO32
  {
    if |data| < TWO32 { assert |data| % TWO32 == |data|; }
    if Hashed(data) == data { assert |data| % TWO32 == |data|; }
  }

  /** The blocks hashed are those of the whole buffer exactly when the buffer is below 2^32 bytes. */
  lemma TruncationExact(data: Bytes, variant: Variant)
    ensures PadAs(variant, Hashed(data)) == PadAs(variant, data) <==> |data| < TWO32
  {
    HashedAll(data);
    if PadAs(variant, Hashed(data)) == PadAs(variant, data) { PadAsInjective(variant, Hashed(data), data); }
  }

  // ---------- different ways to compute the block function ----------

  ghost predicate SameBlocks(m: Ops, m': Ops) {
    forall q, block | |block| == 64 :: Compress(m, q, WordsOf(m, block)) == Compress(m', q, WordsOf(m', block))
  }

  lemma SameBlock(m: Ops, m': Ops, q: Quad, block: Bytes)
    requires SameBlocks(m, m') && |block| == 64
    ensures Compress(m, q, WordsOf(m, block)) == Compress(m', q, WordsOf(m', block))
  {
  }

  lemma LastFold(m: Ops, data: Bytes, k: nat)
    requires |data| % 64 == 0 && data != [] && k == |data| - 64
    ensures Fold(m, data) == Compress(m, Fold(m, data[..k]), WordsOf(m, data[k..]))
  {
  }

  lemma {:induction false} SameFold(m: Ops, m': Ops, data: Bytes)
    requires SameBlocks(m, m') && |data| % 64 == 0
    ensures Fold(m, data) == Fold(m', data)
    decreases |data|
  {
    if data == [] {
    } else {
      var k := |data| - 64;
      SameFold(m, m', data[..k]);
      SameBlock(m, m', Fold(m, data[..k]), data[k..]);
      LastFold(m, data, k);
      LastFold(m', data, k);
    }
  }
}
