/** The buffered checksum context, updated in place. */
module Md5Context {
  import opened Machine
  import opened Md5Block
  import opened Md5Padding

  // ---------- memory operations ----------

  /** `s` with `t` written over it from index `at` on. */
  function Written(s: Bytes, at: nat, t: Bytes): (r: Bytes)
    requires at + |t| <= |s|
    ensures |r| == |s|
  {
    s[..at] + t + s[at + |t|..]
  }

  method Copy(a: array<Byte>, at: nat, src: Bytes)
    requires at + |src| <= a.Length
    modifies a
    ensures a[..] == Written(old(a[..]), at, src) && a[at..at + |src|] == src
  {
    forall i | 0 <= i < |src| {
      a[at + i] := src[i];
    }
  }

  method Clear(a: array<Byte>, at: nat, n: nat)
    requires at + n <= a.Length
    modifies a
    ensures a[..] == Written(old(a[..]), at, Zeros(n))
  {
    forall i | at <= i < at + n {
      a[i] := 0;
    }
  }

  /** Moves the first `n` bytes to `at`; the two places may overlap. */
  method Move(a: array<Byte>, at: nat, n: nat)
    requires at + n <= a.Length
    modifies a
    ensures a[..] == Written(old(a[..]), at, old(a[..n]))
  {
    forall i | 0 <= i < n {
      a[at + i] := a[i];
    }
  }

  /** Stores every word of four bytes as a little-endian machine does. */
  method ByteReverse(a: array<Byte>, at: nat, longs: nat)
    requires at + 4 * longs <= a.Length && longs > 0
    modifies a
    ensures a[..] == old(a[..])
  {
    var p, k := at, longs;
    while k > 0
      invariant p == at + 4 * (longs - k) && 0 <= k <= longs
      invariant a[..] == old(a[..])
    {
      var b := a[p..p + 4];
      var t := FromLe(b);
      LeFromLe(b);
      Copy(a, p, Le(t));
      p, k := p + 4, k - 1;
    }
  }

  // ---------- the bit count ----------

  lemma Split(x: nat, q: nat, r: nat)
    requires x == q * TWO32 + r && r < TWO32
    ensures x / TWO32 == q && x % TWO32 == r
  {
  }

  lemma ModAdd(x: nat, y: nat)
    ensures (x % TWO32 + y) % TWO32 == (x + y) % TWO32
  {
    var q, r := (x % TWO32 + y) / TWO32, (x % TWO32 + y) % TWO32;
    Split(x + y, q + x / TWO32, r);
  }

  /** The low word of the sum, and whether it shows a carry. */
  lemma LowSum(n: nat, len: nat) returns (carry: nat)
    requires len < TWO32
    ensures var t := Lo(n); var s := (t + 8 * len % TWO32) % TWO32;
      s == Lo(n + len) && carry == (if s < t then 1 else 0)
    ensures 8 * (n + len) / TWO32 == 8 * n / TWO32 + len / 0x2000_0000 + carry
  {
    var t, l0 := Lo(n), 8 * len % TWO32;
    carry := if t + l0 < TWO32 then 0 else 1;
    assert 8 * len / TWO32 == len / 0x2000_0000;
    Split(t + l0, carry, t + l0 - carry * TWO32);
    Split(8 * (n + len), 8 * n / TWO32 + 8 * len / TWO32 + carry, t + l0 - carry * TWO32);
  }

  /** The two-word bit count, with its carry, counts modulo 2^64. */
  lemma Counts(n: nat, len: nat)
    requires len < TWO32
    ensures var s := (Lo(n) + 8 * len % TWO32) % TWO32;
      && s == Lo(n + len)
      && ((if s < Lo(n) then (Hi(n) + 1) % TWO32 else Hi(n)) + len / 0x2000_0000) % TWO32 == Hi(n + len)
  {
    var carry := LowSum(n, len);
    var a, l := 8 * n / TWO32, len / 0x2000_0000;
    ModAdd(a, 1);
    ModAdd(a, l);
    ModAdd(a + 1, l);
  }

  lemma DropBlocks(n: nat, k: nat)
    requires 64 * k <= n
    ensures (n - 64 * k) % 64 == n % 64
  {
  }

  lemma TailLength(n: nat)
    ensures Lo(n) / 8 % 64 == n % 64
  {
    var k := 8 * n / TWO32 * 0x80_0000;
    assert Lo(n) == 8 * (n - 64 * k);
    DropBlocks(n, k);
  }

  lemma Glue(all: Bytes, k: nat, t: nat)
    requires t < 64 && k + 64 <= |all|
    ensures all[k..k + t] + all[k + t..][..64 - t] == all[k..k + 64]
  {
  }

  lemma GlueRest(all: Bytes, k: nat, t: nat)
    requires k + t <= |all|
    ensures all[k..k + t] + all[k + t..] == all[k..]
  {
  }

  // ---------- whole blocks, and the rest ----------

  lemma FoldStep(m: Ops, data: Bytes, k: nat)
    requires k % 64 == 0 && k + 64 <= |data|
    ensures (k + 64) % 64 == 0
    ensures Fold(m, data[..k + 64]) == Compress(m, Fold(m, data[..k]), WordsOf(m, data[k..k + 64]))
  {
    var d := data[..k + 64];
    assert |d| - 64 == k && d[..k] == data[..k] && d[k..] == data[k..k + 64];
  }

  /** Where the last, incomplete block of `n` bytes starts. */
  function BlockStart(n: nat): (k: nat)
    ensures k % 64 == 0 && k <= n < k + 64
  {
    n - n % 64
  }

  lemma BlockStartIs(n: nat, k: nat)
    requires k % 64 == 0 && k <= n < k + 64
    ensures k == n - n % 64 && n - k == n % 64
  {
  }

  lemma AppendKeeps(seen: Bytes, data: Bytes)
    ensures var all, k := seen + data, BlockStart(|seen|);
      all[..k] == Full(seen) && all[k..|seen|] == Tail(seen) && all[|seen|..] == data
  {
  }

  // ---------- the padded message, block by block ----------

  /** `x | 1` */
  function Odd(x: U32): U32 {
    if x % 2 == 0 then x + 1 else x
  }

  /** The low bit is set, and no other changes. */
  lemma OddIs(x: U32)
    ensures Odd(x) % 2 == 1 && Odd(x) / 2 == x / 2
  {
  }

  lemma MarkIsOdd(n: nat)
    ensures Odd(Lo(n) / 4) == Mark(n)
  {
  }

  function FirstBlock(t: Bytes): (b: Bytes)
    requires 56 <= |t| < 64
    ensures |b| == 64
  {
    t + [0x80] + Zeros(63 - |t|)
  }

  /** The last block but for its length words. */
  function Middle(t: Bytes): (b: Bytes)
    requires |t| < 64
    ensures |b| == 56
  {
    if |t| < 56 then t + [0x80] + Zeros(55 - |t|) else Zeros(56)
  }

  lemma ZerosPart()
    ensures Zeros(64)[4..60] == Zeros(56) && Zeros(64)[..56] == Zeros(56)
  {
  }

  function LastBlock(variant: Variant, t: Bytes, n: nat): (b: Bytes)
    requires |t| < 64
    ensures |b| == 64
  {
    if variant.Dxbc? then Le(Lo(n)) + Middle(t) + Le(Mark(n)) else Middle(t) + Le(Lo(n)) + Le(Hi(n))
  }

  lemma FoldAppend(m: Ops, data: Bytes, block: Bytes)
    requires |data| % 64 == 0 && |block| == 64
    ensures |data + block| % 64 == 0
    ensures Fold(m, data + block) == Compress(m, Fold(m, data), WordsOf(m, block))
  {
    WholeBlocks(|data|, 64);
    assert (data + block)[..|data|] == data && (data + block)[|data|..] == block;
  }

  lemma StandardParts(f: Bytes, t: Bytes, z: Bytes, z': Bytes, a: Bytes, b: Bytes)
    ensures f + t + [0x80] + z + a + b == f + (t + [0x80] + z + a + b)
    ensures f + t + [0x80] + (z + z') + a + b == f + (t + [0x80] + z) + (z' + a + b)
  {
  }

  /** The zeros after the mark, with a tail of `n % 64` bytes. */
  lemma StandardZeros(n: nat)
    ensures var t := n % 64;
      Zeros(ZeroCount(n)) == if t < 56 then Zeros(55 - t) else Zeros(63 - t) + Zeros(56)
  {
  }

  lemma StandardPadBlocks(data: Bytes)
    ensures var t, n := Tail(data), |data|;
      Pad(data) == Full(data) + (if |t| < 56 then [] else FirstBlock(t)) + LastBlock(Standard, t, n)
  {
    var f, t, n := Full(data), Tail(data), |data|;
    StandardZeros(n);
    assert data == f + t && |t| == n % 64;
    if |t| < 56 {
      assert f + [] == f;
      StandardParts(f, t, Zeros(55 - |t|), [], Le(Lo(n)), Le(Hi(n)));
    } else {
      StandardParts(f, t, Zeros(63 - |t|), Zeros(56), Le(Lo(n)), Le(Hi(n)));
    }
  }

  lemma DxbcParts(f: Bytes, t: Bytes, z: Bytes, z': Bytes, a: Bytes, b: Bytes)
    ensures a + t + [0x80] + z + b == a + (t + [0x80] + z) + b
    ensures f + (t + [0x80] + z + a + z' + b) == f + (t + [0x80] + z) + (a + z' + b)
  {
  }

  lemma DxbcPadBlocks(data: Bytes)
    ensures var t, n := Tail(data), |data|;
      DxbcPad(data) == Full(data) + (if |t| < 56 then [] else FirstBlock(t)) + LastBlock(Dxbc, t, n)
  {
    var f, t, n := Full(data), Tail(data), |data|;
    if |t| < 56 {
      assert f + [] == f;
      DxbcParts(f, t, Zeros(55 - |t|), [], Le(Lo(n)), Le(Mark(n)));
    } else {
      DxbcParts(f, t, Zeros(63 - |t|), Zeros(56), Le(Lo(n)), Le(Mark(n)));
    }
  }

  /** The padded message is the full blocks and then one block, or two when the tail leaves less than eight bytes. */
  lemma PadSplit(m: Ops, variant: Variant, data: Bytes)
    ensures var t, n, q := Tail(data), |data|, Fold(m, Full(data));
      var q' := if |t| < 56 then q else Compress(m, q, WordsOf(m, FirstBlock(t)));
      Fold(m, PadAs(variant, data)) == Compress(m, q', WordsOf(m, LastBlock(variant, t, n)))
  {
    var t, n := Tail(data), |data|;
    if variant.Dxbc? { DxbcPadBlocks(data); } else { StandardPadBlocks(data); }
    if |t| < 56 {
      assert Full(data) + [] == Full(data);
      FoldAppend(m, Full(data), LastBlock(variant, t, n));
    } else {
      FoldAppend(m, Full(data), FirstBlock(t));
      FoldAppend(m, Full(data) + FirstBlock(t), LastBlock(variant, t, n));
    }
  }

  // ---------- the context ----------

  class Context {
    const m: Ops
    var i0: U32
    var i1: U32
    const buf: array<bv32>
    const input: array<Byte>
    const digest: array<Byte>
    /** The bytes seen so far. */
    ghost var seen: Bytes

    /** The count is in bits. */
    ghost predicate Counted(n: nat)
      reads `i0, `i1
    {
      i0 == Lo(n) && i1 == Hi(n)
    }

    ghost predicate Shaped() {
      && buf.Length == 4 && input.Length == 64 && digest.Length == 16
      && input != digest
    }

    /** The chaining state covers all full blocks, and the buffer holds the rest. */
    ghost predicate Absorbed(data: Bytes)
      requires Shaped()
      reads buf, input
    {
      QuadOf(buf) == Fold(m, Full(data)) && input[..|data| % 64] == Tail(data)
    }

    ghost predicate Represents(data: Bytes)
      requires Shaped()
      reads `i0, `i1, buf, input
    {
      Counted(|data|) && Absorbed(data)
    }

    ghost predicate Valid()
      reads this, buf, input
    {
      Shaped() && Represents(seen)
    }

    /** `input` starts out with arbitrary bytes. */
    constructor (m: Ops)
      ensures Valid() && seen == [] && this.m == m
      ensures fresh(buf) && fresh(input) && fresh(digest)
    {
      this.m := m;
      buf := new bv32[4];
      input := new Byte[64];
      digest := new Byte[16];
      seen := [];
      i0, i1 := 0, 0;
      new;
      buf[0], buf[1], buf[2], buf[3] := 0x67452301, 0xefcdab89, 0x98badcfe, 0x10325476;
    }

    /** Hashes the block in `input`. */
    method Block()
      requires Shaped()
      modifies buf, input
      ensures QuadOf(buf) == Compress(m, old(QuadOf(buf)), WordsOf(m, input[..]))
      ensures input[..] == old(input[..])
    {
      ByteReverse(input, 0, 16);
      Transform(m, buf, WordsOf(m, input[..]));
    }

    /** Adds to the bit count; `t` is the number of bytes in the buffer. */
    method Count(len: U32) returns (t: nat)
      requires Counted(|seen|)
      modifies `i0, `i1
      ensures Counted(|seen| + len) && t == |seen| % 64
    {
      Counts(|seen|, len);
      TailLength(|seen|);
      t := i0;
      i0 := (t + 8 * len % TWO32) % TWO32;
      if i0 < t {
        i1 := (i1 + 1) % TWO32;
      }
      i1 := (i1 + len / 0x2000_0000) % TWO32;
      t := t / 8 % 64;
    }

    /** The chaining state covers the first `k` bytes of `all`, whole blocks. */
    ghost predicate Chained(all: Bytes, k: nat)
      reads buf
      requires Shaped()
    {
      k % 64 == 0 && k <= |all| && QuadOf(buf) == Fold(m, all[..k])
    }

    method NextBlock(ghost all: Bytes, ghost k: nat)
      requires Shaped() && Chained(all, k) && k + 64 <= |all| && input[..] == all[k..k + 64]
      modifies buf, input
      ensures Chained(all, k + 64)
    {
      Block();
      FoldStep(m, all, k);
    }

    /** The buffer is full after the first bytes of `data`. */
    method FillUp(data: Bytes, t: nat, ghost all: Bytes, ghost k: nat)
      requires Shaped() && Chained(all, k) && t < 64 <= t + |data| && k + t <= |all|
      requires data == all[k + t..] && input[..t] == all[k..k + t]
      modifies buf, input
      ensures Chained(all, k + 64)
    {
      Glue(all, k, t);
      Copy(input, t, data[..64 - t]);
      assert input[..] == input[..t] + input[t..t + (64 - t)];
      NextBlock(all, k);
    }

    /** Fills up the buffer, which holds the `t` bytes of `all` from `k` on. */
    method Leading(data: Bytes, t: nat, ghost all: Bytes, ghost k: nat) returns (done: bool, rest: Bytes)
      requires Shaped() && Chained(all, k) && t < 64 && k + t <= |all|
      requires data == all[k + t..] && input[..t] == all[k..k + t]
      modifies buf, input
      ensures done ==> |all| < k + 64 && Chained(all, k) && input[..|all| - k] == all[k..]
      ensures !done ==> |rest| <= |all| && rest == all[|all| - |rest|..] && Chained(all, |all| - |rest|)
    {
      done, rest := false, data;
      if t != 0 {
        var room := 64 - t;
        if |data| < room {
          GlueRest(all, k, t);
          Copy(input, t, data);
          assert input[..t + |data|] == input[..t] + input[t..t + |data|];
          return true, rest;
        }
        FillUp(data, t, all, k);
        rest := data[room..];
        assert |all| - |rest| == k + 64;
      }
    }

    /** `data` is what is left of `all` from `o` on. */
    ghost predicate Rest(all: Bytes, data: Bytes, o: nat) {
      o + |data| == |all| && data == all[o..]
    }

    method NextChunk(data: Bytes, p: nat, ghost all: Bytes, ghost o: nat, ghost k: nat)
      requires Shaped() && Rest(all, data, o) && p + 64 <= |data| && k == o + p && Chained(all, k)
      modifies buf, input
      ensures Chained(all, k + 64)
    {
      Copy(input, 0, data[p..p + 64]);
      assert input[..] == input[0..64];
      assert data[p..p + 64] == all[k..k + 64];
      NextBlock(all, k);
    }

    method Keep(data: Bytes, p: nat, ghost all: Bytes, ghost o: nat, ghost k: nat)
      requires Shaped() && Rest(all, data, o) && p <= |data| < p + 64 && k == o + p
      modifies input
      ensures k <= |all| < k + 64 && input[..|all| - k] == all[k..]
    {
      Copy(input, 0, data[p..]);
      assert input[..|data| - p] == input[0..|data| - p];
    }

    /** Hashes the whole blocks of `data`. */
    method WholeChunks(data: Bytes, ghost all: Bytes, ghost o: nat) returns (p: nat, ghost k: nat)
      requires Shaped() && Rest(all, data, o) && Chained(all, o)
      modifies buf, input
      ensures p <= |data| < p + 64 && k == o + p && Chained(all, k)
    {
      p, k := 0, o;
      while |data| - p >= 64
        invariant p <= |data| && k == o + p && Chained(all, k)
      {
        NextChunk(data, p, all, o, k);
        p, k := p + 64, k + 64;
      }
    }

    /** Hashes the whole blocks of `data` and keeps the remainder. */
    method Chunks(data: Bytes, ghost all: Bytes, ghost o: nat) returns (ghost k: nat)
      requires Shaped() && Rest(all, data, o) && Chained(all, o)
      modifies buf, input
      ensures k <= |all| < k + 64 && Chained(all, k) && input[..|all| - k] == all[k..]
    {
      var p;
      p, k := WholeChunks(data, all, o);
      Keep(data, p, all, o, k);
    }

    method Absorb(data: Bytes, t: nat, ghost all: Bytes, ghost k0: nat) returns (ghost k: nat)
      requires Shaped() && Chained(all, k0) && t < 64 && k0 + t <= |all|
      requires data == all[k0 + t..] && input[..t] == all[k0..k0 + t]
      modifies buf, input
      ensures k <= |all| < k + 64 && Chained(all, k) && input[..|all| - k] == all[k..]
    {
      k := k0;
      var done, rest := Leading(data, t, all, k0);
      if !done {
        k := Chunks(rest, all, |all| - |rest|);
      }
    }

    /** Update without the count: `t` bytes are in the buffer. */
    method UpdateBlocks(data: Bytes, t: nat)
      requires Shaped() && t == |seen| % 64 && Absorbed(seen)
      modifies buf, input
      ensures Absorbed(seen + data)
    {
      ghost var all := seen + data;
      ghost var k := BlockStart(|seen|);
      AppendKeeps(seen, data);
      k := Absorb(data, t, all, k);
      BlockStartIs(|all|, k);
    }

    /** From here on the context stands for `data`. */
    ghost method Recall(data: Bytes)
      requires Shaped() && Counted(|data|) && Absorbed(data)
      modifies `seen
      ensures Valid() && seen == data
    {
      assert Represents(data);
      seen := data;
    }

    method Update(data: Bytes)
      requires Valid() && |data| < TWO32
      modifies this, buf, input
      ensures Valid() && seen == old(seen) + data
    {
      ghost var all := seen + data;
      var t := Count(|data|);
      assert Counted(|all|);
      UpdateBlocks(data, t);
      Recall(all);
    }

    /** Less than eight bytes would remain: the padded tail is a block of its own. */
    method PadAlone(count: nat, ghost t: Bytes)
      requires Shaped() && 56 <= |t| == count - 1 && count <= 64 && input[..count] == t + [0x80]
      modifies buf, input
      ensures QuadOf(buf) == Compress(m, old(QuadOf(buf)), WordsOf(m, FirstBlock(t))) && input[..] == Zeros(64)
    {
      Clear(input, count, 64 - count);
      assert input[..] == FirstBlock(t);
      Block();
      Clear(input, 0, 64);
    }

    method PadDxbc(count: nat, ghost t: Bytes)
      requires Shaped() && |t| == count - 1 && count <= 56 && input[..count] == t + [0x80]
      modifies input
      ensures input[4..60] == t + [0x80] + Zeros(56 - count)
    {
      var padding := 64 - count;
      Move(input, 4, count);
      Clear(input, count + 4, padding - 4);
    }

    method PadStandard(count: nat, ghost t: Bytes)
      requires Shaped() && |t| == count - 1 && count <= 56 && input[..count] == t + [0x80]
      modifies input
      ensures input[..56] == t + [0x80] + Zeros(56 - count)
    {
      var padding := 64 - count;
      Clear(input, count, padding - 8);
    }

    /** The end of the message is padded; when it takes a block of its own, that block is hashed. */
    method PadTail(variant: Variant)
      requires Valid()
      modifies buf, input
      ensures var t := Tail(seen); var q := Fold(m, Full(seen));
        && (|t| >= 56 ==> QuadOf(buf) == Compress(m, q, WordsOf(m, FirstBlock(t))) && input[..] == Zeros(64))
        && (|t| < 56 ==> QuadOf(buf) == q)
        && (if variant.Dxbc? then input[4..60] == Middle(t) else input[..56] == Middle(t))
    {
      ghost var t := Tail(seen);
      TailLength(|seen|);
      var count := i0 / 8 % 64;
      input[count] := 0x80;
      count := count + 1;
      assert input[..count] == t + [0x80];
      var padding := 64 - count;
      if padding < 8 {
        PadAlone(count, t);
        ZerosPart();
      } else if variant.Dxbc? {
        PadDxbc(count, t);
      } else {
        PadStandard(count, t);
      }
    }

    /** The length goes into the last block. */
    method PutLength(variant: Variant)
      requires Shaped()
      modifies input
      ensures variant.Dxbc? ==> input[..] == Le(i0) + old(input[4..60]) + Le(Odd(i0 / 4))
      ensures variant.Standard? ==> input[..] == old(input[..56]) + Le(i0) + Le(i1)
    {
      if variant.Dxbc? {
        Copy(input, 0, Le(i0));
        ByteReverse(input, 4, 14);
        Copy(input, 60, Le(Odd(i0 / 4)));
      } else {
        ByteReverse(input, 0, 14);
        Copy(input, 56, Le(i0));
        Copy(input, 60, Le(i1));
      }
    }

    /** With the length in it, the buffer is the last block of the padded message. */
    method FinishLast(variant: Variant)
      requires Shaped() && Counted(|seen|)
      requires if variant.Dxbc? then input[4..60] == Middle(Tail(seen)) else input[..56] == Middle(Tail(seen))
      modifies input
      ensures input[..] == LastBlock(variant, Tail(seen), |seen|)
    {
      PutLength(variant);
      MarkIsOdd(|seen|);
    }

    method LastBlocks(variant: Variant)
      requires Valid()
      modifies buf, input
      ensures QuadOf(buf) == Fold(m, PadAs(variant, seen))
    {
      PadTail(variant);
      FinishLast(variant);
      Block();
      PadSplit(m, variant, seen);
    }

    method WriteDigest()
      requires Shaped()
      modifies digest
      ensures digest[..] == DigestBytes(m, QuadOf(buf))
    {
      Copy(digest, 0, DigestBytes(m, QuadOf(buf)));
    }

    method Final(variant: Variant)
      requires Valid()
      modifies buf, input, digest
      ensures digest[..] == Digest(m, variant, seen)
    {
      LastBlocks(variant);
      WriteDigest();
    }
  }
}
