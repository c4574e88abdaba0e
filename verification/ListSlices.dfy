/** Moving a slice of a list, within the list or to another one. */
module ListSlices {
  import opened ListRings
  import opened Lists

  lemma CutApart(a: seq<Node>, m: seq<Node>, b: seq<Node>)
    requires Distinct(a + m + b)
    ensures Apart(a + b, m)
  {
    DistinctJoin(a + m, b);
    DistinctJoin(a, m);
  }

  /** Closes a ring behind the slice from `begin` to `end`. */
  method Cut(begin: Node, end: Node, ghost a: seq<Node>, ghost m: seq<Node>, ghost b: seq<Node>)
    requires a != [] && m != [] && Ring(a + m + b) && begin == m[0] && end == m[|m| - 1]
    modifies begin.prev, end.next
    ensures Ring(a + b) && Strand(m) && Apart(a + b, m)
  {
    PieceLinks(a, m, b);
    RingStrand(a, m, b);
    CutApart(a, m, b);
    begin.prev.next := end.next;
    end.next.prev := begin.prev;
    TakenOut(Splice(a, m, b));
  }

  lemma EndsApart(s: seq<Node>, g: nat, m: seq<Node>)
    requires s != [] && IsGap(s, g) && m != [] && Apart(s, m)
    ensures forall x | x in {m[0], m[|m| - 1]} :: x in m && x !in s
    ensures forall x | x in {s[g - 1], AfterGap(s, g)} :: x in s && x !in m
  {
  }

  /** Links the slice in between `dst` and `dstNext`. */
  method Join(dst: Node, dstNext: Node, begin: Node, end: Node, ghost s: seq<Node>, ghost g: nat, ghost m: seq<Node>)
    requires Ring(s) && IsGap(s, g) && Strand(m) && Apart(s, m) && begin == m[0] && end == m[|m| - 1]
    requires dst == s[g - 1] && dstNext in {AfterGap(s, g), begin}
    modifies dst, dstNext, begin, end
    ensures if dstNext == begin then end.next == begin else Ring(Filled(s, g, m))
  {
    GapLinks(s, g);
    FilledDistinct(s, g, m);
    EndsApart(s, g, m);
    dst.next := begin;
    dstNext.prev := end;
    begin.prev := dst;
    end.next := dstNext;
    if dstNext != begin { LinkedIn(Splice(s[..g], m, s[g..])); }
  }

  method JoinBefore(dst: Node, dstPrev: Node, begin: Node, end: Node, ghost s: seq<Node>, ghost g: nat, ghost m: seq<Node>)
    requires Ring(s) && IsGap(s, g) && Strand(m) && Apart(s, m) && begin == m[0] && end == m[|m| - 1]
    requires dst == AfterGap(s, g) && dstPrev in {s[g - 1], end}
    modifies dst, dstPrev, begin, end
    ensures if dstPrev == end then begin.prev == end else Ring(Filled(s, g, m))
  {
    GapLinks(s, g);
    FilledDistinct(s, g, m);
    EndsApart(s, g, m);
    dstPrev.next := begin;
    dst.prev := end;
    begin.prev := dstPrev;
    end.next := dst;
    if dstPrev != end { LinkedIn(Splice(s[..g], m, s[g..])); }
  }

  /** Across a gap of the other elements there is another of them, or the slice itself. */
  lemma Across(a: seq<Node>, m: seq<Node>, b: seq<Node>, g: nat)
    requires a != [] && m != [] && Ring(a + m + b) && IsGap(a + b, g)
    ensures (a + b)[g - 1].next == if g == |a| then m[0] else AfterGap(a + b, g)
    ensures AfterGap(a + b, g).prev == if g == |a| then m[|m| - 1] else (a + b)[g - 1]
  {
    var x := (a + b)[g - 1];
    CutSucc(a, m, b, x);
    SuccAt(a + b, g - 1);
    PieceLinks(a, m, b);
    if g != |a| {
      assert (a + b)[|a| - 1] == a[|a| - 1];
      assert x.next == AfterGap(a + b, g);
    }
  }

  lemma Torn(a: seq<Node>, m: seq<Node>, b: seq<Node>)
    requires a != [] && m != [] && Distinct(a + m + b)
    requires m[|m| - 1].next == m[0] || m[0].prev == m[|m| - 1]
    ensures !Ring(a + m + b)
  {
    CutApart(a, m, b);
    assert (b + a)[0] in a + b && a[|a| - 1] in a + b;
    assert m[|m| - 1] in m && m[0] in m;
    if Ring(a + m + b) { PieceLinks(a, m, b); }
  }

  /** Where a slice can go: to another list, or to another place of its own list. */
  ghost predicate IsTarget(s: seq<Node>, a: seq<Node>, m: seq<Node>, b: seq<Node>)
    reads s
  {
    s == a + b || (Ring(s) && Apart(s, a + m + b))
  }

  /** The gap that the slice already fills. */
  ghost predicate InPlace(s: seq<Node>, g: nat, a: seq<Node>, b: seq<Node>) {
    s == a + b && g == |a|
  }

  lemma TargetLinks(a: seq<Node>, m: seq<Node>, b: seq<Node>, s: seq<Node>, g: nat)
    requires a != [] && m != [] && Ring(a + m + b) && IsTarget(s, a, m, b) && IsGap(s, g)
    ensures s[g - 1].next == if InPlace(s, g, a, b) then m[0] else AfterGap(s, g)
    ensures AfterGap(s, g).prev == if InPlace(s, g, a, b) then m[|m| - 1] else s[g - 1]
    ensures s != a + b ==> m[0] !in s && m[|m| - 1] !in s && a[|a| - 1] !in s && (b + a)[0] !in s
  {
    if s == a + b {
      Across(a, m, b, g);
    } else {
      GapLinks(s, g);
      assert forall x | x in a + m + b :: x !in s;
      assert m[0] in a + m + b && m[|m| - 1] in a + m + b && a[|a| - 1] in a + m + b && (b + a)[0] in a + m + b;
    }
  }

  lemma TargetApart(a: seq<Node>, m: seq<Node>, b: seq<Node>, s: seq<Node>, g: nat)
    requires a != [] && m != [] && Ring(a + m + b) && IsTarget(s, a, m, b) && IsGap(s, g)
    ensures Apart(s, m) && m[0] !in a + b && m[|m| - 1] !in a + b
    ensures s != a + b ==> s[g - 1] !in a + b && AfterGap(s, g) !in a + b
  {
    CutApart(a, m, b);
    assert m[0] in m && m[|m| - 1] in m && s[g - 1] in s && AfterGap(s, g) in s;
    forall x | x in s ensures x !in m && (s != a + b ==> x !in a + b) {
      assert s != a + b ==> x !in a + m + b;
    }
  }

  lemma InPlaceExactly(a: seq<Node>, m: seq<Node>, b: seq<Node>, s: seq<Node>, g: nat)
    requires a != [] && m != [] && Ring(a + m + b) && IsTarget(s, a, m, b) && IsGap(s, g)
    ensures InPlace(s, g, a, b) <==> m[0].prev == s[g - 1]
    ensures InPlace(s, g, a, b) <==> m[|m| - 1].next == AfterGap(s, g)
  {
    PieceLinks(a, m, b);
    TargetLinks(a, m, b, s, g);
    DistinctJoin(a + m, b);
    DistinctJoin(a, m);
    DistinctJoin(a, b);
    if s == a + b {
      assert s[|a| - 1] == a[|a| - 1] && AfterGap(s, |a|) == (b + a)[0];
      SuccAt(s, g - 1);
      SuccAt(s, |a| - 1);
      if AfterGap(s, g) == AfterGap(s, |a|) { SuccInjective(s, s[g - 1], s[|a| - 1]); }
    }
  }

  lemma TornInPlace(a: seq<Node>, m: seq<Node>, b: seq<Node>)
    requires a != [] && m != [] && Distinct(a + m + b)
    requires m[|m| - 1].next == m[0] || m[0].prev == m[|m| - 1]
    ensures !Ring(Filled(a + b, |a|, m))
  {
    assert Filled(a + b, |a|, m) == a + m + b;
    Torn(a, m, b);
  }

  /** The slice goes to the gap after `dst`, exactly unless it is there already; then the list is torn. */
  method MoveSliceHead(dst: Node, begin: Node, end: Node, ghost a: seq<Node>, ghost m: seq<Node>, ghost b: seq<Node>,
                       ghost s: seq<Node>, ghost g: nat)
    requires a != [] && m != [] && Ring(a + m + b) && begin == m[0] && end == m[|m| - 1]
    requires IsTarget(s, a, m, b) && IsGap(s, g) && s[g - 1] == dst
    modifies dst, dst.next, begin, end, begin.prev, end.next
    ensures Ring(Filled(s, g, m)) <==> old(begin.prev) != dst
    ensures s != a + b ==> Ring(a + b)
  {
    PieceLinks(a, m, b);
    TargetLinks(a, m, b, s, g);
    InPlaceExactly(a, m, b, s, g);
    TargetApart(a, m, b, s, g);
    var dstNext := dst.next;
    Cut(begin, end, a, m, b);
    assert Ring(s) && (s != a + b ==> dst !in a + b && dstNext !in a + b);
    Join(dst, dstNext, begin, end, s, g, m);
    if InPlace(s, g, a, b) { TornInPlace(a, m, b); }
  }

  /** The same for the gap before `dst`. */
  method MoveSliceTail(dst: Node, begin: Node, end: Node, ghost a: seq<Node>, ghost m: seq<Node>, ghost b: seq<Node>,
                       ghost s: seq<Node>, ghost g: nat)
    requires a != [] && m != [] && Ring(a + m + b) && begin == m[0] && end == m[|m| - 1]
    requires IsTarget(s, a, m, b) && IsGap(s, g) && AfterGap(s, g) == dst
    modifies dst, dst.prev, begin, end, begin.prev, end.next
    ensures Ring(Filled(s, g, m)) <==> old(end.next) != dst
    ensures s != a + b ==> Ring(a + b)
  {
    PieceLinks(a, m, b);
    TargetLinks(a, m, b, s, g);
    InPlaceExactly(a, m, b, s, g);
    TargetApart(a, m, b, s, g);
    var dstPrev := dst.prev;
    Cut(begin, end, a, m, b);
    assert Ring(s) && (s != a + b ==> dst !in a + b && dstPrev !in a + b);
    JoinBefore(dst, dstPrev, begin, end, s, g, m);
    if InPlace(s, g, a, b) { TornInPlace(a, m, b); }
  }
}
