/** The circular doubly linked list, and what its operations do to the sequence of its elements. */
module Lists {
  import opened ListRings

  /** The nodes of `m` are linked to each other; where the ends of `m` lead does not matter. */
  ghost predicate Strand(m: seq<Node>)
    reads m
  {
    && m != [] && Distinct(m)
    && forall x {:trigger x.next} | x in m && x != m[|m| - 1] :: x.next == Succ(m, x) && Succ(m, x).prev == x
  }

  lemma RingStrand(a: seq<Node>, m: seq<Node>, b: seq<Node>)
    requires m != [] && Ring(a + m + b)
    ensures Strand(m) && Distinct(a + b)
  {
    DistinctJoin(a + m, b);
    DistinctJoin(a, m);
    DistinctJoin(a, b);
    forall x | x in m && x != m[|m| - 1] ensures x.next == Succ(m, x) && Succ(m, x).prev == x {
      var k :| 0 <= k < |m| && m[k] == x;
      SuccAt(m, k);
      SuccAt(a + m + b, |a| + k);
      assert (a + m + b)[|a| + k] == x;
    }
  }

  /** `m` is to go between `a` and `b`, or to go from there. */
  datatype Splice = Splice(a: seq<Node>, m: seq<Node>, b: seq<Node>)

  /** Among `s`, only `x` and `y` have a new `next`: `x'` and `y'`. */
  twostate predicate NextsSet(s: seq<Node>, x: Node, x': Node, y: Node, y': Node)
    reads s
  {
    forall z {:trigger z.next} | z in s :: z.next == if z == x then x' else if z == y then y' else old(z.next)
  }

  /** The same for `prev`. */
  twostate predicate PrevsSet(s: seq<Node>, x: Node, x': Node, y: Node, y': Node)
    reads s
  {
    forall z {:trigger z.prev} | z in s :: z.prev == if z == x then x' else if z == y then y' else old(z.prev)
  }

  /** Linking a free piece into a ring, with two new `next` and two new `prev`, makes one ring of both. */
  twostate lemma LinkedIn(p: Splice)
    requires p.a != [] && Distinct(p.a + p.m + p.b) && old(Ring(p.a + p.b)) && old(Strand(p.m))
    requires NextsSet(p.a + p.m + p.b, p.a[|p.a| - 1], p.m[0], p.m[|p.m| - 1], (p.b + p.a)[0])
    requires PrevsSet(p.a + p.m + p.b, p.m[0], p.a[|p.a| - 1], (p.b + p.a)[0], p.m[|p.m| - 1])
    ensures Ring(p.a + p.m + p.b)
  {
    var a, m, b := p.a, p.m, p.b;
    var s := a + m + b;
    forall x: Node | x in s ensures x.next == Succ(s, x) && Succ(s, x).prev == x {
      PutSucc(a, m, b, x);
      PutSuccApart(a, m, b, x);
    }
  }

  /** Closing a ring, with one new `next` and one new `prev`, over a piece of it leaves the rest a ring. */
  twostate lemma TakenOut(p: Splice)
    requires p.a != [] && old(Ring(p.a + p.m + p.b))
    requires NextsSet(p.a + p.b, p.a[|p.a| - 1], (p.b + p.a)[0], p.a[|p.a| - 1], (p.b + p.a)[0])
    requires PrevsSet(p.a + p.b, (p.b + p.a)[0], p.a[|p.a| - 1], (p.b + p.a)[0], p.a[|p.a| - 1])
    ensures Ring(p.a + p.b)
  {
    var a, m, b := p.a, p.m, p.b;
    var s, last := a + b, a[|a| - 1];
    CutSucc(a, m, b, last);
    forall x: Node | x in s ensures x.next == Succ(s, x) && Succ(s, x).prev == x {
      CutSucc(a, m, b, x);
      if x != last && Succ(s, x) == (b + a)[0] { SuccInjective(s, x, last); }
    }
  }

  // ---------- one element ----------

  /** `g` is a gap of the ring `s`, between `s[g - 1]` and the node after it; the last gap leads back to `s[0]`. */
  ghost predicate IsGap(s: seq<Node>, g: int) {
    1 <= g <= |s|
  }

  ghost function AfterGap(s: seq<Node>, g: nat): Node
    requires IsGap(s, g)
  {
    if g == |s| then s[0] else s[g]
  }

  ghost function Filled(s: seq<Node>, g: nat, m: seq<Node>): seq<Node>
    requires IsGap(s, g)
  {
    s[..g] + m + s[g..]
  }

  lemma GapLinks(s: seq<Node>, g: nat)
    requires Ring(s) && IsGap(s, g)
    ensures s == s[..g] + s[g..] && (s[g..] + s[..g])[0] == AfterGap(s, g)
    ensures s[g - 1].next == AfterGap(s, g) && AfterGap(s, g).prev == s[g - 1]
  {
    SuccAt(s, g - 1);
  }

  lemma FilledDistinct(s: seq<Node>, g: nat, m: seq<Node>)
    requires Distinct(s) && Distinct(m) && Apart(s, m) && IsGap(s, g)
    ensures Distinct(Filled(s, g, m))
  {
    var a, b := s[..g], s[g..];
    assert s == a + b;
    DistinctJoin(a, b);
    DistinctJoin(a, m);
    DistinctJoin(a + m, b);
  }

  method AddAfter(elem: Node, toAdd: Node, ghost s: seq<Node>, ghost g: nat)
    requires Ring(s) && IsGap(s, g) && s[g - 1] == elem && toAdd !in s
    modifies elem, elem.next, toAdd
    ensures Ring(Filled(s, g, [toAdd]))
  {
    GapLinks(s, g);
    FilledDistinct(s, g, [toAdd]);
    toAdd.next := elem.next;
    toAdd.prev := elem;
    elem.next.prev := toAdd;
    elem.next := toAdd;
    LinkedIn(Splice(s[..g], [toAdd], s[g..]));
  }

  method AddBefore(elem: Node, toAdd: Node, ghost s: seq<Node>, ghost g: nat)
    requires Ring(s) && IsGap(s, g) && AfterGap(s, g) == elem && toAdd !in s
    modifies elem, elem.prev, toAdd
    ensures Ring(Filled(s, g, [toAdd]))
  {
    GapLinks(s, g);
    FilledDistinct(s, g, [toAdd]);
    toAdd.next := elem;
    toAdd.prev := elem.prev;
    elem.prev.next := toAdd;
    elem.prev := toAdd;
    LinkedIn(Splice(s[..g], [toAdd], s[g..]));
  }

  /** What the ends of a piece of a ring are linked to. */
  lemma PieceLinks(a: seq<Node>, m: seq<Node>, b: seq<Node>)
    requires a != [] && m != [] && Ring(a + m + b)
    ensures a[|a| - 1].next == m[0] && m[0].prev == a[|a| - 1]
    ensures m[|m| - 1].next == (b + a)[0] && (b + a)[0].prev == m[|m| - 1]
  {
    var s, n := a + m + b, |a| + |m|;
    assert s[|a| - 1] == a[|a| - 1] && s[|a|] == m[0] && s[n - 1] == m[|m| - 1];
    assert b != [] ==> s[n] == b[0];
    SuccAt(s, |a| - 1);
    SuccAt(s, n - 1);
  }

  /** How a node can be cut from its ring: the ring is turned if it starts there. */
  ghost function Around(elem: Node, a: seq<Node>, b: seq<Node>): Splice {
    if a == [] then Splice(b, [elem], []) else Splice(a, [elem], b)
  }

  lemma TurnedTo(elem: Node, b: seq<Node>)
    requires Ring([elem] + b) && b != []
    ensures Ring(b + [elem] + [])
  {
    RingTurned([elem], b);
    assert b + [elem] + [] == b + [elem];
  }

  lemma Alone(elem: Node)
    requires Ring([elem])
    ensures elem.next == elem == elem.prev
  {
    SuccAt([elem], 0);
  }

  lemma AroundLinks(elem: Node, a: seq<Node>, b: seq<Node>)
    requires Ring(a + [elem] + b) && a + b != []
    ensures var p := Around(elem, a, b);
      Ring(p.a + [elem] + p.b) && elem !in p.a + p.b && elem.next == (p.b + p.a)[0] && elem.prev == p.a[|p.a| - 1]
  {
    var p := Around(elem, a, b);
    if a == [] {
      assert a + [elem] + b == [elem] + b;
      TurnedTo(elem, b);
    }
    PieceLinks(p.a, [elem], p.b);
    DistinctJoin(p.a + [elem], p.b);
    DistinctJoin(p.a, [elem]);
  }

  method Remove(elem: Node, ghost a: seq<Node>, ghost b: seq<Node>)
    requires Ring(a + [elem] + b)
    modifies elem.prev, elem.next
    ensures elem.next == old(elem.next) && elem.prev == old(elem.prev)
    ensures a + b != [] ==> Ring(a + b)
  {
    if a + b == [] {
      assert a + [elem] + b == [elem];
      Alone(elem);
    } else {
      AroundLinks(elem, a, b);
    }
    elem.next.prev := elem.prev;
    elem.prev.next := elem.next;
    ghost var p := Around(elem, a, b);
    if a + b != [] {
      TakenOut(p);
      assert p.a + p.b == a + b;
    }
  }
}
