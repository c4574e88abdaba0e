/** The checksum of a buffer, and of a message that comes in pieces. */
module Md5 {
  import opened Machine
  import opened Md5Block
  import opened Md5Words
  import opened Md5Padding
  import opened Md5Context

  lemma SameWords(m: Ops, m': Ops, block: Bytes)
    requires Agree(m, m') && |block| == 64
    ensures WordsOf(m, block) == WordsOf(m', block)
  {
    var v, v' := WordsOf(m, block), WordsOf(m', block);
    forall k | 0 <= k < 16 ensures v[k] == v'[k] {
      assert v[k] == m.load(FromLe(block[4 * k..4 * k + 4]));
    }
  }

  lemma AgreeOnBlocks(m: Ops, m': Ops)
    requires Agree(m, m')
    ensures SameBlocks(m, m')
  {
    forall q, block: Bytes | |block| == 64
      ensures Compress(m, q, WordsOf(m, block)) == Compress(m', q, WordsOf(m', block))
    {
      SameWords(m, m', block);
      SameCompress(m, m', q, WordsOf(m, block));
    }
  }

  // ---------- the parts by value ----------

  /** Section 3.3: the bytes of the four words at the start, as the RFC lists them. */
  lemma StartState()
    ensures DigestBytes(CODE, INIT)
      == [0x01, 0x23, 0x45, 0x67, 0x89, 0xab, 0xcd, 0xef, 0xfe, 0xdc, 0xba, 0x98, 0x76, 0x54, 0x32, 0x10]
  {
  }

  /** Word `k` of a block is its bytes from `4 * k` on, low byte first. */
  lemma WordIs(block: Bytes, k: nat)
    requires |block| == 64 && k < 16
    ensures WordsOf(CODE, block)[k] as int == Value(block[4 * k..4 * k + 4])
  {
    LoadIs(FromLe(block[4 * k..4 * k + 4]));
    FourBytes(block[4 * k..4 * k + 4]);
  }

  lemma StoreIs(w: bv32)
    ensures Value(Le(CODE.store(w))) == w as int
  {
    LeIs(Store(w));
  }

  lemma FourParts(a: Bytes, b: Bytes, c: Bytes, e: Bytes, d: Bytes)
    requires |a| == 4 && |b| == 4 && |c| == 4 && |e| == 4 && d == a + b + c + e
    ensures d[..4] == a && d[4..8] == b && d[8..12] == c && d[12..] == e
  {
  }

  /** The digest is the four words in order, low byte first. */
  lemma DigestIs(q: Quad)
    ensures var d := DigestBytes(CODE, q);
      |d| == 16 && Value(d[..4]) == q.a as int && Value(d[4..8]) == q.b as int && Value(d[8..12]) == q.c as int
      && Value(d[12..]) == q.d as int
  {
    var d := DigestBytes(CODE, q);
    StoreIs(q.a);
    StoreIs(q.b);
    StoreIs(q.c);
    StoreIs(q.d);
    FourParts(Le(CODE.store(q.a)), Le(CODE.store(q.b)), Le(CODE.store(q.c)), Le(CODE.store(q.d)), d);
  }

  // ---------- the checksum ----------

  /** With the macros of the code, a message has the digest that the functions of the RFC give it. */
  lemma CodeDigestIsRfcDigest(variant: Variant, data: Bytes)
    ensures Digest(CODE, variant, data) == Digest(RFC, variant, data)
  {
    CodeAgreesWithRfc();
    AgreeOnBlocks(CODE, RFC);
    SameFold(CODE, RFC, PadAs(variant, data));
  }

  /** `size` is the caller's, 64 bits wide; the update takes 32. */
  method ComputeMd5(data: Bytes, variant: Variant) returns (checksum: Bytes)
    ensures checksum == Digest(RFC, variant, Hashed(data))
  {
    var size := |data| % TWO32;
    var ctx := new Context(CODE);
    ctx.Update(data[..size]);
    assert ctx.seen == Hashed(data);
    ctx.Final(variant);
    checksum := ctx.digest[..];
    CodeDigestIsRfcDigest(variant, Hashed(data));
  }

  function Flatten(chunks: seq<Bytes>): Bytes {
    if chunks == [] then [] else Flatten(chunks[..|chunks| - 1]) + chunks[|chunks| - 1]
  }

  /** Any way of cutting a message into updates gives the digest of the whole message. */
  method ComputeInPieces(chunks: seq<Bytes>, variant: Variant) returns (checksum: Bytes)
    requires forall i | 0 <= i < |chunks| :: |chunks[i]| < TWO32
    ensures checksum == Digest(RFC, variant, Flatten(chunks))
  {
    var ctx := new Context(CODE);
    for i := 0 to |chunks|
      invariant ctx.Valid() && ctx.m == CODE && ctx.seen == Flatten(chunks[..i])
      invariant fresh(ctx) && fresh(ctx.buf) && fresh(ctx.input) && fresh(ctx.digest)
    {
      ctx.Update(chunks[i]);
      assert chunks[..i + 1][..i] == chunks[..i];
    }
    assert chunks[..|chunks|] == chunks;
    ctx.Final(variant);
    CodeDigestIsRfcDigest(variant, Flatten(chunks));
    checksum := ctx.digest[..];
  }

  /** For a fixed block, the 64 steps of the code are a bijection on the four-word state. */
  lemma BlockStepsBijective(q: Quad, x: Words)
    ensures UnSteps(CODE, BACK, Steps(CODE, q, x, 64), x, 64) == q
    ensures Steps(CODE, UnSteps(CODE, BACK, q, x, 64), x, 64) == q
  {
    CodeCanBeUndone();
    StepsBijective(CODE, BACK, q, x, 64);
  }
}
