/** Counting the positions, the edges and the faces of a gear. */
module GearEuler {
  import opened Machine
  import opened Gears
  import opened GearTable
  import opened GearSolid

  // ---------- vertices ----------

  /** The first `m` positions of a tooth. */
  function Row(i: nat, m: nat): set<Position> {
    if m == 0 then {} else Row(i, m - 1) + {PositionOf(i, m - 1)}
  }

  function Positions(n: nat): set<Position> {
    if n == 0 then {} else Positions(n - 1) + Row(n - 1, 10)
  }

  lemma {:induction false} RowContains(i: nat, m: nat, l: nat)
    requires l < 10 && m <= 10
    ensures PositionOf(i, l) in Row(i, m) <==> l < m
  {
    if m == 0 {
    } else {
      RowContains(i, m - 1, l);
      WeldIsSamePosition(i, l, i, m - 1);
    }
  }

  lemma {:induction false} RowSize(i: nat, m: nat)
    requires m <= 10
    ensures |Row(i, m)| == m
  {
    if m == 0 {
    } else {
      RowSize(i, m - 1);
      RowContains(i, m - 1, m - 1);
    }
  }

  lemma {:induction false} RowMember(i: nat, m: nat, p: Position) returns (l: nat)
    requires p in Row(i, m)
    ensures l < m && p == PositionOf(i, l)
  {
    if p == PositionOf(i, m - 1) { l := m - 1; } else { l := RowMember(i, m - 1, p); }
  }

  lemma {:induction false} PositionsMember(n: nat, p: Position) returns (i: nat, l: nat)
    requires p in Positions(n)
    ensures i < n && l < 10 && p == PositionOf(i, l)
  {
    if p in Row(n - 1, 10) {
      i := n - 1;
      l := RowMember(i, 10, p);
    } else {
      i, l := PositionsMember(n - 1, p);
    }
  }

  lemma {:induction false} PositionsContain(n: nat, i: nat, l: nat)
    requires i < n && l < 10
    ensures PositionOf(i, l) in Positions(n)
  {
    if i == n - 1 { RowContains(i, 10, l); } else { PositionsContain(n - 1, i, l); }
  }

  lemma {:induction false} PositionsApart(n: nat)
    ensures Positions(n) * Row(n, 10) == {}
  {
    forall p | p in Positions(n) ensures p.tooth < n { var i, l := PositionsMember(n, p); }
    forall p | p in Row(n, 10) ensures p.tooth == n { var l := RowMember(n, 10, p); }
  }

  lemma UnionSize<T>(a: set<T>, b: set<T>)
    requires a * b == {}
    ensures |a + b| == |a| + |b|
  {
    assert |a + b| == |a| + |b| - |a * b|;
  }

  lemma {:induction false} PositionsSize(n: nat)
    ensures |Positions(n)| == 10 * n
  {
    if n == 0 {
    } else {
      PositionsSize(n - 1);
      RowSize(n - 1, 10);
      PositionsApart(n - 1);
      UnionSize(Positions(n - 1), Row(n - 1, 10));
    }
  }

  /** A side that starts at vertex `l` of its tooth. */
  function SideAt(l: nat): Side {
    match l
    case 0 => Side(0, 2) case 1 => Side(0, 0) case 2 => Side(0, 1) case 3 => Side(1, 1) case 4 => Side(1, 2)
    case 5 => Side(5, 1) case 6 => Side(5, 0) case 7 => Side(5, 2) case 8 => Side(6, 2) case _ => Side(6, 1)
  }

  lemma SideAtStarts(l: nat)
    requires l < 10
    ensures IsSide(SideAt(l)) && From(SideAt(l)) == l
  {
  }

  /** The positions of all corners of all faces. */
  function Vertices(faces: seq<Face>): set<Position> {
    set k, c | 0 <= k < |faces| && 0 <= c < 3 :: EdgeOf(faces[k], c).0
  }

  lemma LocalBound(corner: nat)
    requires corner < 24
    ensures Local(corner) < 10
  {
  }

  lemma VerticesAre(n: nat, faces: seq<Face>)
    requires IsMesh(n, faces) && 12 * n <= TWO16
    ensures Vertices(faces) == Positions(n)
  {
    forall p | p in Vertices(faces) ensures p in Positions(n) {
      var k, c :| 0 <= k < |faces| && 0 <= c < 3 && p == EdgeOf(faces[k], c).0;
      var i, j := SlotSurjective(n, k);
      EdgeIs(n, faces, i, Side(j, c));
      AllListed(Side(j, c));
      LocalBound(From(Side(j, c)));
      PositionsContain(n, Tooth(n, i, From(Side(j, c))), Local(From(Side(j, c))));
    }
    forall p | p in Positions(n) ensures p in Vertices(faces) {
      var i, l := PositionsMember(n, p);
      SideAtStarts(l);
      EdgeIs(n, faces, i, SideAt(l));
      assert p == EdgeOf(faces[Slot(n, i, SideAt(l).j)], SideAt(l).k).0;
    }
  }

  // ---------- edges ----------

  type Directed = (Position, Position)

  /** The first `m` directed edges, in the order of the index buffer. */
  function Edges(faces: seq<Face>, m: nat): set<Directed>
    requires m <= 3 * |faces|
  {
    if m == 0 then {} else Edges(faces, m - 1) + {EdgeOf(faces[(m - 1) / 3], (m - 1) % 3)}
  }

  lemma {:induction false} EdgesMember(faces: seq<Face>, m: nat, e: Directed) returns (k: nat, c: nat)
    requires m <= 3 * |faces| && e in Edges(faces, m)
    ensures 3 * k + c < m && IsEdge(faces, k, c) && e == EdgeOf(faces[k], c)
  {
    if e in Edges(faces, m - 1) { k, c := EdgesMember(faces, m - 1, e); } else { k, c := (m - 1) / 3, (m - 1) % 3; }
  }

  lemma {:induction false} EdgesContain(faces: seq<Face>, m: nat, k: nat, c: nat)
    requires m <= 3 * |faces| && IsEdge(faces, k, c) && 3 * k + c < m
    ensures EdgeOf(faces[k], c) in Edges(faces, m)
  {
    if 3 * k + c == m - 1 {
      assert (m - 1) / 3 == k && (m - 1) % 3 == c;
    } else {
      EdgesContain(faces, m - 1, k, c);
    }
  }

  lemma {:induction false} EdgesBelow(faces: seq<Face>, m: nat, k: nat, c: nat)
    requires m <= 3 * |faces| && EdgesDiffer(faces) && IsEdge(faces, k, c) && m <= 3 * k + c
    ensures EdgeOf(faces[k], c) !in Edges(faces, m)
  {
    if m == 0 {
    } else {
      EdgesBelow(faces, m - 1, k, c);
      assert IsEdge(faces, (m - 1) / 3, (m - 1) % 3);
    }
  }

  lemma {:induction false} EdgesSize(faces: seq<Face>, m: nat)
    requires m <= 3 * |faces| && EdgesDiffer(faces)
    ensures |Edges(faces, m)| == m
  {
    if m == 0 {
    } else {
      EdgesSize(faces, m - 1);
      assert IsEdge(faces, (m - 1) / 3, (m - 1) % 3);
      EdgesBelow(faces, m - 1, (m - 1) / 3, (m - 1) % 3);
    }
  }

  // ---------- the two directions of an edge ----------

  /** Edges without their direction. */
  function Undirected(es: set<Directed>): set<set<Position>> {
    set e | e in es :: {e.0, e.1}
  }

  ghost predicate Symmetric(es: set<Directed>) {
    forall e | e in es :: Swap(e) in es && e.0 != e.1
  }

  lemma SameEnds(x: Directed, e: Directed)
    requires {x.0, x.1} == {e.0, e.1}
    ensures x == e || x == Swap(e)
  {
    assert x.0 in {e.0, e.1} && x.1 in {e.0, e.1} && e.0 in {x.0, x.1} && e.1 in {x.0, x.1};
  }

  lemma {:induction false} TwoToOne(es: set<Directed>)
    requires Symmetric(es)
    ensures 2 * |Undirected(es)| == |es|
    decreases |es|
  {
    if es != {} {
      var e :| e in es;
      var rest := es - {e, Swap(e)};
      assert es == rest + {e, Swap(e)} && |es| == |rest| + 2;
      assert Symmetric(rest) by {
        forall x | x in rest ensures Swap(x) in rest && x.0 != x.1 {
          assert Swap(Swap(x)) == x;
        }
      }
      TwoToOne(rest);
      assert Undirected(es) == Undirected(rest) + {{e.0, e.1}} by {
        assert {e.0, e.1} == {Swap(e).0, Swap(e).1};
      }
      assert {e.0, e.1} !in Undirected(rest) by {
        forall x | x in rest ensures {x.0, x.1} != {e.0, e.1} {
          if {x.0, x.1} == {e.0, e.1} { SameEnds(x, e); }
        }
      }
    }
  }

  lemma EndsDiffer(n: nat, i: nat, e: Side)
    requires n >= 2 && i < n && IsSide(e)
    ensures Ends(n, i, e).0 != Ends(n, i, e).1
  {
    AllListed(e);
    if Ends(n, i, e).0 == Ends(n, i, e).1 {
      LocalsAgree(Tooth(n, i, From(e)), From(e), Tooth(n, i, To(e)), To(e));
      assert false;
    }
  }

  lemma EdgesSymmetric(n: nat, faces: seq<Face>)
    requires IsMesh(n, faces) && 12 * n <= TWO16 && n >= 3
    ensures Symmetric(Edges(faces, 3 * |faces|))
  {
    var es := Edges(faces, 3 * |faces|);
    forall e | e in es ensures Swap(e) in es && e.0 != e.1 {
      var k, c := EdgesMember(faces, 3 * |faces|, e);
      var i, j := SlotSurjective(n, k);
      EdgeIs(n, faces, i, Side(j, c));
      EndsDiffer(n, i, Side(j, c));
      var i' := TwinTooth(n, i, Side(j, c));
      var w := Twin(Side(j, c));
      EdgeIs(n, faces, i', w);
      EdgesContain(faces, 3 * |faces|, Slot(n, i', w.j), w.k);
    }
  }

  /** The surface has as many vertices and faces together as it has edges: it is a ring. */
  lemma Euler(n: nat, faces: seq<Face>)
    requires IsMesh(n, faces) && 12 * n <= TWO16 && n >= 3
    ensures var v, e, f := |Vertices(faces)|, |Undirected(Edges(faces, 3 * |faces|))|, |faces|;
      v == 10 * n && e == 30 * n && f == 20 * n && v - e + f == 0
  {
    VerticesAre(n, faces);
    PositionsSize(n);
    EdgesDifferFrom3(n, faces);
    EdgesSize(faces, 3 * |faces|);
    EdgesSymmetric(n, faces);
    TwoToOne(Edges(faces, 3 * |faces|));
  }
}
