/** UTF-8 as RFC 3629 defines it, and UTF-16 as RFC 2781 does, on values. */
module Unicode {
  import opened Machine

  type Unit = U16

  /** Section 3 of RFC 3629: no surrogates, and nothing above 0x10ffff. */
  predicate IsScalar(c: nat) {
    c < 0x11_0000 && !(0xd800 <= c <= 0xdfff)
  }

  predicate AllScalars(cs: seq<nat>) {
    forall i | 0 <= i < |cs| :: IsScalar(cs[i])
  }

  // ---------- UTF-8, section 4 of RFC 3629 ----------

  predicate InRange(b: seq<Byte>, i: nat, lo: int, hi: int) {
    i < |b| && lo <= b[i] <= hi
  }

  predicate IsTail(b: seq<Byte>, i: nat) {
    InRange(b, i, 0x80, 0xbf)
  }

  /** The number of bytes of the well-formed sequence that `b` starts with, or 0. */
  function FirstLength(b: seq<Byte>): (n: nat)
    ensures n <= |b|
  {
    if InRange(b, 0, 0x00, 0x7f) then 1
    else if InRange(b, 0, 0xc2, 0xdf) && IsTail(b, 1) then 2
    else if InRange(b, 0, 0xe0, 0xe0) && InRange(b, 1, 0xa0, 0xbf) && IsTail(b, 2) then 3
    else if InRange(b, 0, 0xe1, 0xec) && IsTail(b, 1) && IsTail(b, 2) then 3
    else if InRange(b, 0, 0xed, 0xed) && InRange(b, 1, 0x80, 0x9f) && IsTail(b, 2) then 3
    else if InRange(b, 0, 0xee, 0xef) && IsTail(b, 1) && IsTail(b, 2) then 3
    else if InRange(b, 0, 0xf0, 0xf0) && InRange(b, 1, 0x90, 0xbf) && IsTail(b, 2) && IsTail(b, 3) then 4
    else if InRange(b, 0, 0xf1, 0xf3) && IsTail(b, 1) && IsTail(b, 2) && IsTail(b, 3) then 4
    else if InRange(b, 0, 0xf4, 0xf4) && InRange(b, 1, 0x80, 0x8f) && IsTail(b, 2) && IsTail(b, 3) then 4
    else 0
  }

  /** The scalar value of that sequence. */
  function FirstScalar(b: seq<Byte>): (c: nat)
    requires FirstLength(b) > 0
  {
    var b0: int := b[0];
    if FirstLength(b) == 1 then b0
    else
      var b1: int := b[1];
      if FirstLength(b) == 2 then (b0 - 0xc0) * 0x40 + (b1 - 0x80)
      else
        var b2: int := b[2];
        if FirstLength(b) == 3 then (b0 - 0xe0) * 0x1000 + (b1 - 0x80) * 0x40 + (b2 - 0x80)
        else
          var b3: int := b[3];
          (b0 - 0xf0) * 0x4_0000 + (b1 - 0x80) * 0x1000 + (b2 - 0x80) * 0x40 + (b3 - 0x80)
  }

  /** A decoder that accepts well-formed UTF-8 only. */
  function Decode(b: seq<Byte>): Option<seq<nat>>
    decreases |b|
  {
    if b == [] then Some([])
    else if FirstLength(b) == 0 then None
    else match Decode(b[FirstLength(b)..])
         case None => None
         case Some(cs) => Some([FirstScalar(b)] + cs)
  }

  // ---------- UTF-16, section 2.1 of RFC 2781 ----------

  predicate IsHigh(u: Unit) {
    0xd800 <= u <= 0xdbff
  }

  predicate IsLow(u: Unit) {
    0xdc00 <= u <= 0xdfff
  }

  function ToUnits(c: nat): seq<Unit>
    requires IsScalar(c)
  {
    if c < 0x1_0000 then [c]
    else [0xd800 + (c - 0x1_0000) / 0x400, 0xdc00 + (c - 0x1_0000) % 0x400]
  }

  function AllUnits(cs: seq<nat>): seq<Unit>
    requires AllScalars(cs)
  {
    if cs == [] then [] else ToUnits(cs[0]) + AllUnits(cs[1..])
  }

  /** A unit that is no surrogate, or the half of a pair. */
  predicate IsPaired(s: seq<Unit>, i: nat)
    requires i < |s|
  {
    && (IsHigh(s[i]) ==> i + 1 < |s| && IsLow(s[i + 1]))
    && (IsLow(s[i]) ==> i > 0 && IsHigh(s[i - 1]))
  }

  /** `s` from `i` on without its unpaired surrogates. */
  function Paired(s: seq<Unit>, i: nat): seq<Unit>
    requires i <= |s|
    decreases |s| - i
  {
    if i == |s| then [] else (if IsPaired(s, i) then [s[i]] else []) + Paired(s, i + 1)
  }

  predicate WellFormed(s: seq<Unit>) {
    forall i | 0 <= i < |s| :: IsPaired(s, i)
  }
}

/** The conversions to UTF-8. */
module Utf8 {
  import opened Machine
  import opened Unicode

  function Len(c: U32): (n: nat)
    ensures 1 <= n <= 4
  {
    if c < 0x80 then 1 else if c < 0x800 then 2 else if c < 0x1_0000 then 3 else 4
  }

  /** The bytes of one value; the last form cuts its first byte to eight bits. */
  function Encoded(c: U32): (b: seq<Byte>)
    ensures |b| == Len(c)
  {
    if c < 0x80 then [c]
    else if c < 0x800 then [0xc0 + c / 0x40, 0x80 + c % 0x40]
    else if c < 0x1_0000 then [0xe0 + c / 0x1000, 0x80 + c / 0x40 % 0x40, 0x80 + c % 0x40]
    else [0xf0 + c / 0x4_0000 % 0x10, 0x80 + c / 0x1000 % 0x40, 0x80 + c / 0x40 % 0x40, 0x80 + c % 0x40]
  }

  function AllEncoded(cs: seq<U32>): seq<Byte> {
    if cs == [] then [] else Encoded(cs[0]) + AllEncoded(cs[1..])
  }

  // ---------- one value ----------

  /** The digits of `c` to the base 64. */
  lemma Digits(c: nat)
    ensures c == c / 0x40 * 0x40 + c % 0x40
    ensures c / 0x40 == c / 0x1000 * 0x40 + c / 0x40 % 0x40
    ensures c / 0x1000 == c / 0x4_0000 * 0x40 + c / 0x1000 % 0x40
  {
    assert c / 0x1000 == c / 0x40 / 0x40;
    assert c / 0x4_0000 == c / 0x1000 / 0x40;
  }

  lemma DecodeShort(c: U32, b: seq<Byte>)
    requires c < 0x800 && Encoded(c) <= b
    ensures FirstLength(b) == Len(c) && FirstScalar(b) == c
  {
    assert forall i | 0 <= i < Len(c) :: b[i] == Encoded(c)[i];
  }

  lemma DecodeThree(c: U32, b: seq<Byte>)
    requires 0x800 <= c < 0x1_0000 && IsScalar(c) && Encoded(c) <= b
    ensures FirstLength(b) == 3 && FirstScalar(b) == c
  {
    Digits(c);
    assert b[0] == Encoded(c)[0] && b[1] == Encoded(c)[1] && b[2] == Encoded(c)[2];
  }

  lemma DecodeFour(c: U32, b: seq<Byte>)
    requires 0x1_0000 <= c < 0x11_0000 && Encoded(c) <= b
    ensures FirstLength(b) == 4 && FirstScalar(b) == c
  {
    Digits(c);
    assert b[0] == Encoded(c)[0] && b[1] == Encoded(c)[1] && b[2] == Encoded(c)[2] && b[3] == Encoded(c)[3];
  }

  /** Decoding a value's bytes gives the value back. */
  lemma DecodeFirst(c: U32, b: seq<Byte>)
    requires IsScalar(c) && Encoded(c) <= b
    ensures FirstLength(b) == Len(c) && FirstScalar(b) == c
  {
    if c < 0x800 { DecodeShort(c, b); } else if c < 0x1_0000 { DecodeThree(c, b); } else { DecodeFour(c, b); }
  }

  /** The digits of a number put together from digits. */
  lemma Compose(a: nat, b: nat, c: nat, d: nat)
    requires b < 0x40 && c < 0x40 && d < 0x40
    ensures var x := a * 0x4_0000 + b * 0x1000 + c * 0x40 + d;
      x % 0x40 == d && x / 0x40 % 0x40 == c && x / 0x1000 % 0x40 == b && x / 0x4_0000 == a
  {
    var x := a * 0x4_0000 + b * 0x1000 + c * 0x40 + d;
    assert x / 0x40 == a * 0x1000 + b * 0x40 + c;
    assert x / 0x1000 == a * 0x40 + b;
  }

  lemma EncodeTwo(b: seq<Byte>)
    requires FirstLength(b) == 2
    ensures IsScalar(FirstScalar(b)) && Encoded(FirstScalar(b)) == [b[0], b[1]]
  {
    Compose(0, 0, b[0] as int - 0xc0, b[1] as int - 0x80);
  }

  lemma EncodeThree(b: seq<Byte>)
    requires FirstLength(b) == 3
    ensures IsScalar(FirstScalar(b)) && Encoded(FirstScalar(b)) == [b[0], b[1], b[2]]
  {
    Compose(0, b[0] as int - 0xe0, b[1] as int - 0x80, b[2] as int - 0x80);
  }

  lemma EncodeFour(b: seq<Byte>)
    requires FirstLength(b) == 4
    ensures IsScalar(FirstScalar(b)) && Encoded(FirstScalar(b)) == [b[0], b[1], b[2], b[3]]
  {
    Compose(b[0] as int - 0xf0, b[1] as int - 0x80, b[2] as int - 0x80, b[3] as int - 0x80);
  }

  /** Well-formed sequences are the encodings of scalar values: only the shortest form is accepted. */
  lemma EncodeFirst(b: seq<Byte>)
    requires FirstLength(b) > 0
    ensures IsScalar(FirstScalar(b)) && Encoded(FirstScalar(b)) == b[..FirstLength(b)]
  {
    var n := FirstLength(b);
    if n == 2 { EncodeTwo(b); }
    if n == 3 { EncodeThree(b); }
    if n == 4 { EncodeFour(b); }
  }

  // ---------- whole strings ----------

  /** Scalar values survive the round trip. */
  lemma {:induction false} DecodeAll(cs: seq<U32>)
    requires AllScalars(cs)
    ensures Decode(AllEncoded(cs)) == Some(cs)
  {
    if cs == [] {
    } else {
      var b := AllEncoded(cs);
      DecodeFirst(cs[0], b);
      DecodeAll(cs[1..]);
      assert b[Len(cs[0])..] == AllEncoded(cs[1..]);
      assert [cs[0]] + cs[1..] == cs;
    }
  }

  lemma AllEncodedCons(c: U32, cs: seq<U32>)
    ensures AllEncoded([c] + cs) == Encoded(c) + AllEncoded(cs)
  {
    assert ([c] + cs)[1..] == cs;
  }

  lemma EncodeCons(b: seq<Byte>, cs: seq<nat>)
    requires FirstLength(b) > 0 && AllScalars(cs) && AllEncoded(cs) == b[FirstLength(b)..]
    ensures AllScalars([FirstScalar(b)] + cs) && AllEncoded([FirstScalar(b)] + cs) == b
  {
    EncodeFirst(b);
    AllEncodedCons(FirstScalar(b), cs);
    assert b == b[..FirstLength(b)] + b[FirstLength(b)..];
  }

  /** What the decoder accepts is a list of scalar values, in the one encoding that it has. */
  lemma {:induction false} EncodeAll(b: seq<Byte>)
    ensures match Decode(b)
      case None => true
      case Some(cs) => AllScalars(cs) && AllEncoded(cs) == b
    decreases |b|
  {
    if b == [] || FirstLength(b) == 0 {
    } else {
      var n := FirstLength(b);
      EncodeAll(b[n..]);
      if Decode(b[n..]).Some? { EncodeCons(b, Decode(b[n..]).value); }
    }
  }

  /** The conversion of 32-bit values, which are not checked, is faithful exactly for scalar values. */
  lemma FaithfulExactly(cs: seq<U32>)
    ensures Decode(AllEncoded(cs)) == Some(cs) <==> AllScalars(cs)
  {
    EncodeAll(AllEncoded(cs));
    if AllScalars(cs) { DecodeAll(cs); }
  }

  lemma {:induction false} NoNul(cs: seq<U32>)
    requires forall i | 0 <= i < |cs| :: cs[i] != 0
    ensures forall i | 0 <= i < |AllEncoded(cs)| :: AllEncoded(cs)[i] != 0
  {
    if cs == [] {
    } else {
      NoNul(cs[1..]);
      assert forall i | 0 <= i < Len(cs[0]) :: Encoded(cs[0])[i] != 0;
    }
  }

  // ---------- the code ----------

  method Append(dst: array<Byte>, at: nat, c0: U32) returns (at': nat)
    requires at + Len(c0) <= dst.Length
    modifies dst
    ensures at' == at + Len(c0) && dst[..at'] == old(dst[..at]) + Encoded(c0)
  {
    var c: int := c0;
    Digits(c0);
    if c < 0x80 {
      dst[at] := c;
      return at + 1;
    }
    if c < 0x800 {
      dst[at + 1] := 0x80 + c % 0x40;
      c := c / 0x40;
      dst[at] := 0xc0 + c;
      return at + 2;
    }
    if c < 0x1_0000 {
      dst[at + 2] := 0x80 + c % 0x40;
      c := c / 0x40;
      dst[at + 1] := 0x80 + c % 0x40;
      c := c / 0x40;
      dst[at] := 0xe0 + c;
      return at + 3;
    }
    dst[at + 3] := 0x80 + c % 0x40;
    c := c / 0x40;
    dst[at + 2] := 0x80 + c % 0x40;
    c := c / 0x40;
    dst[at + 1] := 0x80 + c % 0x40;
    c := c / 0x40;
    dst[at] := 0xf0 + c % 0x10;
    at' := at + 4;
  }

  /** A string ends at its first NUL, and so does what may be read. */
  ghost predicate Terminated(src: seq<int>) {
    |src| > 0 && src[|src| - 1] == 0 && forall i | 0 <= i < |src| - 1 :: src[i] != 0
  }

  /** The value read at `i`, 0 for an unpaired surrogate, and the number of units it takes. */
  function ReadAt(src: seq<Unit>, i: nat): (r: (U32, nat))
    requires i < |src| - 1
    ensures 1 <= r.1 <= 2
  {
    if src[i] < 0xd800 || src[i] > 0xdfff then (src[i], 1)
    else if src[i] > 0xdbff || src[i + 1] < 0xdc00 || src[i + 1] > 0xdfff then (0, 1)
    else
      var high: int, low: int := src[i], src[i + 1];
      (0x1_0000 + high % 0x400 * 0x400 + low % 0x400, 2)
  }

  /** The value 0 stands for nothing. */
  function One(c: U32): seq<U32> {
    if c == 0 then [] else [c]
  }

  function OneEncoded(c: U32): (b: seq<Byte>)
    ensures |b| == if c == 0 then 0 else Len(c)
  {
    if c == 0 then [] else Encoded(c)
  }

  /** The values that a terminated string gives from `i` on, unpaired surrogates left out. */
  function Scalars(src: seq<Unit>, i: nat): seq<U32>
    requires i < |src|
    decreases |src| - i
  {
    if i == |src| - 1 then []
    else
      var (c, n) := ReadAt(src, i);
      One(c) + if i + n < |src| then Scalars(src, i + n) else []
  }

  lemma ReadStaysInside(src: seq<Unit>, i: nat)
    requires Terminated(src) && i < |src| - 1
    ensures i + ReadAt(src, i).1 < |src|
  {
  }

  lemma ScalarsStep(src: seq<Unit>, i: nat)
    requires Terminated(src) && i < |src| - 1
    ensures var (c, n) := ReadAt(src, i);
      i + n < |src| && Scalars(src, i) == One(c) + Scalars(src, i + n)
  {
    ReadStaysInside(src, i);
  }

  lemma AllEncodedMaybeCons(c: U32, cs: seq<U32>)
    ensures AllEncoded(One(c) + cs) == OneEncoded(c) + AllEncoded(cs)
  {
    if c == 0 {
      assert [] + cs == cs;
      assert [] + AllEncoded(cs) == AllEncoded(cs);
    } else {
      AllEncodedCons(c, cs);
    }
  }

  lemma SizeStep(src: seq<Unit>, i: nat)
    requires Terminated(src) && i < |src| - 1
    ensures var (c, n) := ReadAt(src, i);
      && i + n < |src|
      && AllEncoded(Scalars(src, i)) == OneEncoded(c) + AllEncoded(Scalars(src, i + n))
  {
    ScalarsStep(src, i);
    var (c, n) := ReadAt(src, i);
    AllEncodedMaybeCons(c, Scalars(src, i + n));
  }

  method Utf16Read(src: seq<Unit>, pos: nat) returns (c: U32, pos': nat)
    requires Terminated(src) && pos < |src| - 1
    ensures c == ReadAt(src, pos).0 && pos' == pos + ReadAt(src, pos).1 && pos < pos' < |src|
    ensures AllEncoded(Scalars(src, pos)) == OneEncoded(c) + AllEncoded(Scalars(src, pos'))
  {
    SizeStep(src, pos);
    if src[pos] < 0xd800 || src[pos] > 0xdfff {
      return src[pos], pos + 1;
    }
    if src[pos] > 0xdbff || src[pos + 1] < 0xdc00 || src[pos + 1] > 0xdfff {
      return 0, pos + 1;
    }
    var high: int, low: int := src[pos], src[pos + 1];
    c := 0x1_0000 + high % 0x400 * 0x400 + low % 0x400;
    pos' := pos + 2;
  }

  /** The first pass: how many bytes the second will write. */
  method Utf16Size(src: seq<Unit>) returns (size: nat)
    requires Terminated(src)
    ensures size == |AllEncoded(Scalars(src, 0))| + 1
  {
    var pos := 0;
    size := 0;
    while src[pos] != 0
      invariant pos < |src| && size + |AllEncoded(Scalars(src, pos))| == |AllEncoded(Scalars(src, 0))|
      decreases |src| - pos
    {
      var c;
      c, pos := Utf16Read(src, pos);
      if c == 0 {
        continue;
      }
      size := size + Len(c);
    }
    assert Scalars(src, pos) == [];
    size := size + 1;
  }

  lemma Regroup(a: seq<Byte>, b: seq<Byte>, c: seq<Byte>)
    ensures a + (b + c) == a + b + c && |a + (b + c)| == |a| + |b| + |c|
  {
  }

  /** The second pass. */
  method Utf16Write(src: seq<Unit>, dst: array<Byte>)
    requires Terminated(src) && dst.Length == |AllEncoded(Scalars(src, 0))| + 1
    modifies dst
    ensures dst[..] == AllEncoded(Scalars(src, 0)) + [0]
  {
    var pos: nat, at: nat := 0, 0;
    ghost var all := AllEncoded(Scalars(src, 0));
    while src[pos] != 0
      invariant pos < |src| && at <= dst.Length && dst[..at] + AllEncoded(Scalars(src, pos)) == all
      decreases |src| - pos
    {
      ghost var before := dst[..at];
      var c;
      c, pos := Utf16Read(src, pos);
      ghost var rest := AllEncoded(Scalars(src, pos));
      if c == 0 {
        assert [] + rest == rest;
        continue;
      }
      Regroup(before, Encoded(c), rest);
      at := Append(dst, at, c);
    }
    assert Scalars(src, pos) == [] && dst[..at] == all;
    dst[at] := 0;
  }

  /** The result is null when the allocation fails; otherwise its bytes fill the buffer exactly. */
  method StrdupW16(src: seq<Unit>, allocates: bool) returns (dst: array?<Byte>)
    requires Terminated(src)
    ensures dst != null <==> allocates
    ensures dst != null ==> fresh(dst) && dst[..] == AllEncoded(Scalars(src, 0)) + [0]
  {
    var size := Utf16Size(src);
    if !allocates {
      return null;
    }
    var utf8 := new Byte[size];
    Utf16Write(src, utf8);
    dst := utf8;
  }

  lemma {:induction false} AllEncodedAppend(cs: seq<U32>, c: U32)
    ensures AllEncoded(cs + [c]) == AllEncoded(cs) + Encoded(c)
  {
    if cs == [] {
      assert [] + [c] == [c];
      AllEncodedCons(c, []);
      assert [c] + [] == [c];
    } else {
      AllEncodedAppend(cs[1..], c);
      assert cs + [c] == [cs[0]] + (cs[1..] + [c]) && cs == [cs[0]] + cs[1..];
      AllEncodedCons(cs[0], cs[1..] + [c]);
      AllEncodedCons(cs[0], cs[1..]);
      Regroup(Encoded(cs[0]), AllEncoded(cs[1..]), Encoded(c));
    }
  }

  method Utf32Size(src: seq<U32>) returns (size: nat)
    requires Terminated(src)
    ensures size == |AllEncoded(src[..|src| - 1])| + 1
  {
    var pos := 0;
    size := 0;
    while src[pos] != 0
      invariant pos < |src| && size == |AllEncoded(src[..pos])|
      decreases |src| - pos
    {
      AllEncodedAppend(src[..pos], src[pos]);
      assert src[..pos + 1] == src[..pos] + [src[pos]];
      size := size + Len(src[pos]);
      pos := pos + 1;
    }
    size := size + 1;
  }

  lemma {:induction false} AllEncodedPrefix(cs: seq<U32>, n: nat)
    requires n <= |cs|
    ensures |AllEncoded(cs[..n])| <= |AllEncoded(cs)|
    decreases |cs| - n
  {
    if n == |cs| {
      assert cs[..n] == cs;
    } else {
      AllEncodedAppend(cs[..n], cs[n]);
      assert cs[..n + 1] == cs[..n] + [cs[n]];
      AllEncodedPrefix(cs, n + 1);
    }
  }

  method Utf32Write(src: seq<U32>, dst: array<Byte>)
    requires Terminated(src) && dst.Length == |AllEncoded(src[..|src| - 1])| + 1
    modifies dst
    ensures dst[..] == AllEncoded(src[..|src| - 1]) + [0]
  {
    var pos: nat, at: nat := 0, 0;
    while src[pos] != 0
      invariant pos < |src| && at < dst.Length && dst[..at] == AllEncoded(src[..pos])
      decreases |src| - pos
    {
      AllEncodedAppend(src[..pos], src[pos]);
      assert src[..pos + 1] == src[..pos] + [src[pos]];
      AllEncodedPrefix(src[..|src| - 1], pos + 1);
      assert src[..|src| - 1][..pos + 1] == src[..pos + 1];
      at := Append(dst, at, src[pos]);
      pos := pos + 1;
    }
    dst[at] := 0;
  }

  /** 32-bit units are taken as they are. */
  method StrdupW32(src: seq<U32>, allocates: bool) returns (dst: array?<Byte>)
    requires Terminated(src)
    ensures dst != null <==> allocates
    ensures dst != null ==> fresh(dst) && dst[..] == AllEncoded(src[..|src| - 1]) + [0]
  {
    var size := Utf32Size(src);
    if !allocates {
      return null;
    }
    var utf8 := new Byte[size];
    Utf32Write(src, utf8);
    dst := utf8;
  }

  // ---------- what the conversion of 16-bit units promises ----------

  function Units(src: seq<Unit>): seq<Unit>
    requires |src| > 0
  {
    src[..|src| - 1]
  }

  ghost predicate NonZero(cs: seq<nat>) {
    forall j | 0 <= j < |cs| :: cs[j] != 0
  }

  lemma JoinNonZero(c: U32, rest: seq<U32>, all: seq<U32>)
    requires NonZero(rest) && all == One(c) + rest
    ensures NonZero(all)
  {
  }

  lemma FirstScalars(src: seq<Unit>, i: nat, all: seq<U32>) returns (c: U32, rest: seq<U32>, j: nat)
    requires Terminated(src) && i < |src| - 1 && all == Scalars(src, i)
    ensures i < j < |src| && rest == Scalars(src, j) && all == One(c) + rest
  {
    ScalarsStep(src, i);
    c, j := ReadAt(src, i).0, i + ReadAt(src, i).1;
    rest := Scalars(src, j);
  }

  /** The values of a string, `all` of them from `i` on, are not NUL, which stands for an unpaired surrogate. */
  lemma {:induction false} NeverNul(src: seq<Unit>, i: nat, all: seq<U32>)
    requires Terminated(src) && i < |src| && all == Scalars(src, i)
    ensures NonZero(all)
    decreases |src| - i
  {
    if i == |src| - 1 {
    } else {
      var c, rest, j := FirstScalars(src, i, all);
      NeverNul(src, j, rest);
      JoinNonZero(c, rest, all);
    }
  }

  lemma PairValue(high: Unit, low: Unit)
    requires IsHigh(high) && IsLow(low)
    ensures var c := 0x1_0000 + high as int % 0x400 * 0x400 + low as int % 0x400;
      c < 0x11_0000 && ToUnits(c) == [high, low]
  {
  }

  function OneInUnits(c: U32): seq<Unit>
    requires IsScalar(c)
  {
    if c == 0 then [] else ToUnits(c)
  }

  /** Reading at `i` takes exactly the units there that are paired. */
  lemma ReadTakesPaired(src: seq<Unit>, i: nat)
    requires Terminated(src) && i < |src| - 1
    requires IsLow(src[i]) ==> i == 0 || !IsHigh(src[i - 1])
    ensures var (c, n) := ReadAt(src, i);
      && i + n <= |src| - 1 && IsScalar(c)
      && OneInUnits(c) + Paired(Units(src), i + n) == Paired(Units(src), i)
  {
    var s := Units(src);
    var (c, n) := ReadAt(src, i);
    if n == 2 {
      PairValue(src[i], src[i + 1]);
      assert IsPaired(s, i) && IsPaired(s, i + 1);
      assert Paired(s, i) == [s[i]] + ([s[i + 1]] + Paired(s, i + 2));
    } else {
      assert Paired(s, i) == (if IsPaired(s, i) then [s[i]] else []) + Paired(s, i + 1);
    }
  }

  lemma AllUnitsCons(c: U32, cs: seq<U32>)
    requires IsScalar(c) && AllScalars(cs)
    ensures AllScalars(One(c) + cs) && AllUnits(One(c) + cs) == OneInUnits(c) + AllUnits(cs)
  {
    if c == 0 {
      assert One(c) + cs == cs;
      assert OneInUnits(c) + AllUnits(cs) == AllUnits(cs);
    } else {
      assert ([c] + cs)[1..] == cs;
    }
  }

  /** After reading, the next unit is not the second half of a pair. */
  lemma AfterRead(src: seq<Unit>, i: nat)
    requires Terminated(src) && i < |src| - 1
    requires IsLow(src[i]) ==> i == 0 || !IsHigh(src[i - 1])
    ensures var j := i + ReadAt(src, i).1; j < |src| && (IsLow(src[j]) ==> !IsHigh(src[j - 1]))
  {
  }

  /** One more value in front: what it is written as comes in front of what the others are written as. */
  lemma JoinUnits(c: U32, rest: seq<U32>, all: seq<U32>, later: seq<Unit>, units: seq<Unit>)
    requires IsScalar(c) && all == One(c) + rest && units == OneInUnits(c) + later
    requires AllScalars(rest) && AllUnits(rest) == later
    ensures AllScalars(all) && AllUnits(all) == units
  {
    AllUnitsCons(c, rest);
  }

  /** Written back in UTF-16, the values give the units that are not unpaired surrogates, in order. */
  lemma {:induction false} ScalarsArePaired(src: seq<Unit>, i: nat)
    requires Terminated(src) && i < |src|
    requires IsLow(src[i]) ==> i == 0 || !IsHigh(src[i - 1])
    ensures AllScalars(Scalars(src, i)) && AllUnits(Scalars(src, i)) == Paired(Units(src), i)
    decreases |src| - i
  {
    if i == |src| - 1 {
    } else {
      var (c, n) := ReadAt(src, i);
      var j := i + n;
      ReadTakesPaired(src, i);
      ScalarsStep(src, i);
      AfterRead(src, i);
      ScalarsArePaired(src, j);
      JoinUnits(c, Scalars(src, j), Scalars(src, i), Paired(Units(src), j), Paired(Units(src), i));
    }
  }

  lemma {:induction false} WellFormedIsPaired(s: seq<Unit>, i: nat)
    requires WellFormed(s) && i <= |s|
    ensures Paired(s, i) == s[i..]
    decreases |s| - i
  {
    if i == |s| {
    } else {
      WellFormedIsPaired(s, i + 1);
    }
  }

  /** The output of a terminated string of 16-bit units, without its own terminator. */
  function Output16(src: seq<Unit>): seq<Byte>
    requires |src| > 0
  {
    AllEncoded(Scalars(src, 0))
  }

  /**
   * The output is well-formed UTF-8 without an inner NUL, and what it encodes is, in UTF-16, the input
   * without its unpaired surrogates.
   */
  lemma Faithful16(src: seq<Unit>)
    requires Terminated(src)
    ensures forall i | 0 <= i < |Output16(src)| :: Output16(src)[i] != 0
    ensures match Decode(Output16(src))
      case None => false
      case Some(cs) => AllScalars(cs) && AllUnits(cs) == Paired(Units(src), 0)
  {
    NeverNul(src, 0, Scalars(src, 0));
    ScalarsArePaired(src, 0);
    NoNul(Scalars(src, 0));
    DecodeAll(Scalars(src, 0));
  }

  lemma FirstUnits(c: nat, s: seq<Unit>, d: nat, t: seq<Unit>)
    requires IsScalar(c) && IsScalar(d) && ToUnits(c) + s == ToUnits(d) + t
    ensures c == d && s == t
  {
    var u, v := ToUnits(c) + s, ToUnits(d) + t;
    assert u[0] == ToUnits(c)[0] && v[0] == ToUnits(d)[0];
    assert (c < 0x1_0000) == (d < 0x1_0000);
    if c >= 0x1_0000 { assert u[1] == ToUnits(c)[1] && v[1] == ToUnits(d)[1]; }
    assert s == u[|ToUnits(c)|..] && t == v[|ToUnits(d)|..];
  }

  lemma {:induction false} AllUnitsInjective(cs: seq<nat>, ds: seq<nat>)
    requires AllScalars(cs) && AllScalars(ds) && AllUnits(cs) == AllUnits(ds)
    ensures cs == ds
  {
    if cs == [] || ds == [] {
    } else {
      var u := AllUnits(cs);
      FirstUnits(cs[0], AllUnits(cs[1..]), ds[0], AllUnits(ds[1..]));
      AllUnitsInjective(cs[1..], ds[1..]);
      assert cs == [cs[0]] + cs[1..] && ds == [ds[0]] + ds[1..];
    }
  }

  /** Two inputs have the same output exactly when they differ in unpaired surrogates only. */
  lemma SameOutput16(src: seq<Unit>, src': seq<Unit>)
    requires Terminated(src) && Terminated(src')
    ensures Output16(src) == Output16(src') <==> Paired(Units(src), 0) == Paired(Units(src'), 0)
  {
    Faithful16(src);
    Faithful16(src');
    NeverNul(src, 0, Scalars(src, 0));
    NeverNul(src', 0, Scalars(src', 0));
    ScalarsArePaired(src, 0);
    ScalarsArePaired(src', 0);
    if Paired(Units(src), 0) == Paired(Units(src'), 0) {
      AllUnitsInjective(Scalars(src, 0), Scalars(src', 0));
    }
  }

  /** The conversion is injective on well-formed UTF-16. */
  lemma Injective16(src: seq<Unit>, src': seq<Unit>)
    requires Terminated(src) && Terminated(src') && WellFormed(Units(src)) && WellFormed(Units(src'))
    requires Output16(src) == Output16(src')
    ensures src == src'
  {
    SameOutput16(src, src');
    WellFormedIsPaired(Units(src), 0);
    WellFormedIsPaired(Units(src'), 0);
    assert src == Units(src) + [0] && src' == Units(src') + [0];
  }

  // ---------- examples of the standards ----------

  lemma Example2(a: U32, b: U32)
    ensures AllEncoded([a, b]) == Encoded(a) + Encoded(b)
  {
    assert [a, b][1..] == [b] && [b][1..] == [];
    assert AllEncoded([b]) == Encoded(b) + AllEncoded([]);
  }

  lemma Example3(a: U32, b: U32, c: U32)
    ensures AllEncoded([a, b, c]) == Encoded(a) + Encoded(b) + Encoded(c)
  {
    Example2(b, c);
    AllEncodedCons(a, [b, c]);
    assert [a] + [b, c] == [a, b, c];
  }

  lemma Reassociate4(a: seq<Byte>, b: seq<Byte>, c: seq<Byte>, d: seq<Byte>)
    ensures a + (b + c + d) == a + b + c + d
  {
  }

  lemma Example4(a: U32, b: U32, c: U32, d: U32)
    ensures AllEncoded([a, b, c, d]) == Encoded(a) + Encoded(b) + Encoded(c) + Encoded(d)
  {
    Example3(b, c, d);
    AllEncodedCons(a, [b, c, d]);
    assert [a] + [b, c, d] == [a, b, c, d];
    Reassociate4(Encoded(a), Encoded(b), Encoded(c), Encoded(d));
  }

  lemma EncodedExamples()
    ensures Encoded(0x41) == [0x41] && Encoded(0x391) == [0xce, 0x91] && Encoded(0x2e) == [0x2e]
    ensures Encoded(0x2262) == [0xe2, 0x89, 0xa2] && Encoded(0xd55c) == [0xed, 0x95, 0x9c]
    ensures Encoded(0xad6d) == [0xea, 0xb5, 0xad] && Encoded(0xc5b4) == [0xec, 0x96, 0xb4]
    ensures Encoded(0xfeff) == [0xef, 0xbb, 0xbf] && Encoded(0x2_33b4) == [0xf0, 0xa3, 0x8e, 0xb4]
  {
  }

  /** Examples of section 7 of RFC 3629. */
  lemma ExamplesOfRfc3629()
    ensures AllEncoded([0x41, 0x2262, 0x391, 0x2e]) == [0x41, 0xe2, 0x89, 0xa2, 0xce, 0x91, 0x2e]
    ensures AllEncoded([0xd55c, 0xad6d, 0xc5b4]) == [0xed, 0x95, 0x9c, 0xea, 0xb5, 0xad, 0xec, 0x96, 0xb4]
    ensures AllEncoded([0xfeff, 0x2_33b4]) == [0xef, 0xbb, 0xbf, 0xf0, 0xa3, 0x8e, 0xb4]
  {
    EncodedExamples();
    Example4(0x41, 0x2262, 0x391, 0x2e);
    Example3(0xd55c, 0xad6d, 0xc5b4);
    Example2(0xfeff, 0x2_33b4);
  }

  /** The example of section 5 of RFC 2781. */
  lemma ExampleOfRfc2781()
    ensures ToUnits(0x1_2345) == [0xd808, 0xdf45] && ReadAt([0xd808, 0xdf45, 0], 0) == (0x1_2345, 2)
  {
  }
}
