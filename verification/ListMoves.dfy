/** Moving many elements of lists at once. */
module ListMoves {
  import opened ListRings
  import opened Lists

  lemma WholeStrand(src: Node, m: seq<Node>)
    requires Ring([src] + m) && m != []
    ensures Strand(m) && src.next == m[0] && src.prev == m[|m| - 1] && src !in m
  {
    assert [src] + m + [] == [src] + m;
    RingStrand([src], m, []);
    PieceLinks([src], m, []);
    DistinctJoin([src], m);
  }

  method Init(src: Node)
    modifies src
    ensures Ring([src])
  {
    src.next, src.prev := src, src;
    SuccAt([src], 0);
  }

  lemma EmptyExactly(src: Node, m: seq<Node>)
    requires Ring([src] + m)
    ensures src.next == src <==> m == []
  {
    if m == [] {
      assert [src] + m == [src];
      Alone(src);
    } else {
      WholeStrand(src, m);
    }
  }

  lemma NotFilled(s: seq<Node>, g: nat, m: seq<Node>, x: Node)
    requires IsGap(s, g) && x !in s && x !in m
    ensures x !in Filled(s, g, m)
  {
  }

  method LinkBefore(dst: Node, src: Node, ghost s: seq<Node>, ghost g: nat, ghost m: seq<Node>)
    requires Ring(s) && IsGap(s, g) && AfterGap(s, g) == dst && src !in s
    requires Strand(m) && src.next == m[0] && src.prev == m[|m| - 1] && src !in m && Apart(s, m)
    modifies dst, dst.prev, src.next, src.prev
    ensures Ring(Filled(s, g, m))
  {
    GapLinks(s, g);
    FilledDistinct(s, g, m);
    dst.prev.next := src.next;
    src.next.prev := dst.prev;
    dst.prev := src.prev;
    src.prev.next := dst;
    LinkedIn(Splice(s[..g], m, s[g..]));
  }

  method LinkAfter(dst: Node, src: Node, ghost s: seq<Node>, ghost g: nat, ghost m: seq<Node>)
    requires Ring(s) && IsGap(s, g) && s[g - 1] == dst && src !in s
    requires Strand(m) && src.next == m[0] && src.prev == m[|m| - 1] && src !in m && Apart(s, m)
    modifies dst, dst.next, src.next, src.prev
    ensures Ring(Filled(s, g, m))
  {
    GapLinks(s, g);
    FilledDistinct(s, g, m);
    dst.next.prev := src.prev;
    src.prev.next := dst.next;
    dst.next := src.next;
    src.next.prev := dst;
    LinkedIn(Splice(s[..g], m, s[g..]));
  }

  /** Every element of `src` goes into the gap before `dst`; `src` is left empty. */
  method MoveBefore(dst: Node, src: Node, ghost s: seq<Node>, ghost g: nat, ghost m: seq<Node>)
    requires Ring(s) && IsGap(s, g) && AfterGap(s, g) == dst && Ring([src] + m) && Apart(s, [src] + m)
    modifies dst, dst.prev, src, src.next, src.prev
    ensures Ring(Filled(s, g, m)) && Ring([src])
  {
    EmptyExactly(src, m);
    if src.next == src {
      assert Filled(s, g, m) == s && [src] + m == [src];
      return;
    }
    WholeStrand(src, m);
    LinkBefore(dst, src, s, g, m);
    NotFilled(s, g, m, src);
    Init(src);
  }

  /** The same for the gap after `dst`. */
  method MoveAfter(dst: Node, src: Node, ghost s: seq<Node>, ghost g: nat, ghost m: seq<Node>)
    requires Ring(s) && IsGap(s, g) && s[g - 1] == dst && Ring([src] + m) && Apart(s, [src] + m)
    modifies dst, dst.next, src, src.next, src.prev
    ensures Ring(Filled(s, g, m)) && Ring([src])
  {
    EmptyExactly(src, m);
    if src.next == src {
      assert Filled(s, g, m) == s && [src] + m == [src];
      return;
    }
    WholeStrand(src, m);
    LinkAfter(dst, src, s, g, m);
    NotFilled(s, g, m, src);
    Init(src);
  }
}
