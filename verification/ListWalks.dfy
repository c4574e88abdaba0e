/** Going through a list, and taking elements out on the way. */
module ListWalks {
  import opened Machine
  import opened ListRings
  import opened Lists

  /** The counter has 32 bits. */
  method Count(list: Node, ghost m: seq<Node>) returns (count: nat)
    requires Ring([list] + m)
    ensures count == |m| % TWO32
  {
    ghost var s, i := [list] + m, 1;
    assert s[0] == list && forall j | 0 < j < |s| :: s[0] != s[j];
    SuccAt(s, 0);
    count := 0;
    var ptr := list.next;
    while ptr != list
      invariant 1 <= i <= |s| && ptr == AfterGap(s, i) && count == (i - 1) % TWO32
      decreases |s| - i
    {
      SuccAt(s, i);
      count := (count + 1) % TWO32;
      ptr := ptr.next;
      i := i + 1;
    }
  }

  /** The elements of `m` that are not doomed, in order. */
  ghost function Kept(m: seq<Node>, doomed: set<Node>): seq<Node> {
    if m == [] then []
    else Kept(m[..|m| - 1], doomed) + (if m[|m| - 1] in doomed then [] else [m[|m| - 1]])
  }

  /** What the body of a walk may do with its element: take it out of the list and reuse its memory, or leave it. */
  method Visit(cursor: Node, gone: bool, ghost a: seq<Node>, ghost b: seq<Node>)
    requires Ring(a + [cursor] + b) && a != []
    modifies cursor.prev, cursor.next, cursor
    ensures if gone then Ring(a + b) else Ring(a + [cursor] + b)
  {
    if gone {
      PieceLinks(a, [cursor], b);
      RingStrand(a, [cursor], b);
      DistinctJoin(a + [cursor], b);
      DistinctJoin(a, [cursor]);
      Remove(cursor, a, b);
      modify cursor;
    }
  }

  lemma {:induction false} KeptMembers(m: seq<Node>, doomed: set<Node>)
    ensures forall x :: x in Kept(m, doomed) <==> x in m && x !in doomed
  {
    if m == [] {
    } else {
      KeptMembers(m[..|m| - 1], doomed);
      assert m == m[..|m| - 1] + [m[|m| - 1]];
    }
  }

  /** The list after `i` of the elements of `m` have been visited. */
  ghost function Now(list: Node, m: seq<Node>, i: nat, doomed: set<Node>): seq<Node>
    requires i <= |m|
  {
    [list] + Kept(m[..i], doomed) + m[i..]
  }

  ghost function CursorAt(list: Node, m: seq<Node>, i: nat): Node
    requires i <= |m|
  {
    if i == |m| then list else m[i]
  }

  lemma Opening(list: Node, m: seq<Node>, i: nat, doomed: set<Node>)
    requires i < |m| && Ring(Now(list, m, i, doomed))
    ensures var a := [list] + Kept(m[..i], doomed);
      Ring(a + [m[i]] + m[i + 1..]) && m[i].next == CursorAt(list, m, i + 1)
    ensures m[i].prev == list || m[i].prev in m
  {
    var a := [list] + Kept(m[..i], doomed);
    assert Now(list, m, i, doomed) == a + [m[i]] + m[i + 1..];
    PieceLinks(a, [m[i]], m[i + 1..]);
    KeptMembers(m[..i], doomed);
    assert a[|a| - 1] == list || a[|a| - 1] in Kept(m[..i], doomed);
  }

  lemma Closing(list: Node, m: seq<Node>, i: nat, doomed: set<Node>)
    requires i < |m|
    ensures var a := [list] + Kept(m[..i], doomed);
      Now(list, m, i + 1, doomed) == if m[i] in doomed then a + m[i + 1..] else a + [m[i]] + m[i + 1..]
  {
    assert m[..i + 1][..i] == m[..i];
  }

  method VisitNext(list: Node, cursor: Node, doomed: set<Node>, ghost m: seq<Node>, ghost i: nat)
    requires i < |m| && cursor == m[i] && Ring(Now(list, m, i, doomed))
    modifies list, m
    ensures Ring(Now(list, m, i + 1, doomed)) && old(cursor.next) == CursorAt(list, m, i + 1)
  {
    Opening(list, m, i, doomed);
    Closing(list, m, i, doomed);
    Visit(cursor, cursor in doomed, [list] + Kept(m[..i], doomed), m[i + 1..]);
  }

  lemma Start(list: Node, m: seq<Node>, doomed: set<Node>)
    requires Ring([list] + m)
    ensures Ring(Now(list, m, 0, doomed)) && list.next == CursorAt(list, m, 0) && list !in m
  {
    assert Now(list, m, 0, doomed) == [list] + m;
    SuccAt([list] + m, 0);
    DistinctJoin([list], m);
  }

  /**
   * LIST_FOR_EACH_SAFE: `doomed` says which elements the body removes. Every element that the list had is visited
   * once, in order, and the others are left.
   */
  method ForEachSafe(list: Node, doomed: set<Node>, ghost m: seq<Node>) returns (visited: seq<Node>)
    requires Ring([list] + m)
    modifies list, m
    ensures visited == m && Ring([list] + Kept(m, doomed))
  {
    Start(list, m, doomed);
    visited := [];
    var cursor := list.next;
    var cursor2 := cursor.next;
    ghost var i := 0;
    while cursor != list
      invariant 0 <= i <= |m| && visited == m[..i] && Ring(Now(list, m, i, doomed))
      invariant cursor == CursorAt(list, m, i) && cursor2 == cursor.next
      decreases |m| - i
    {
      visited := visited + [cursor];
      VisitNext(list, cursor, doomed, m, i);
      cursor := cursor2;
      cursor2 := cursor.next;
      i := i + 1;
    }
    assert m[..|m|] == m && Now(list, m, |m|, doomed) == [list] + Kept(m, doomed);
  }
}
