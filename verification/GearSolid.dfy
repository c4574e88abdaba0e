/** A gear of three teeth or more, whose indices fit into 16 bits, is a closed solid. */
module GearSolid {
  import opened Machine
  import opened Gears
  import opened GearTable

  /** The tooth that a corner of tooth `i` belongs to. */
  function Tooth(n: nat, i: nat, corner: nat): nat {
    if corner < 12 then i else if i + 1 == n then 0 else i + 1
  }

  lemma Reduce(x: nat, m: nat)
    requires 0 < m && x < 2 * m
    ensures x % m == if x < m then x else x - m
  {
  }

  /** The modulo in the code takes the numbers past the last tooth back to the first one. */
  lemma IndexIs(n: nat, i: nat, corner: nat)
    requires i < n && 12 * n < TWO32 && corner < 24 && corner + 12 * i < TWO32
    ensures Index(n, i, corner) == 12 * Tooth(n, i, corner) + corner % 12 < 12 * n
  {
    var x, m := corner + i * 12, n * 12;
    Reduce(x, TWO32);
    Reduce(m, TWO32);
    Reduce(x, m);
  }

  /** What the vertex at an index looks like from outside: its position. */
  function At(index: nat): Position {
    PositionOf(index / 12, index % 12)
  }

  /** Side `k` of face `f` as it appears in space. */
  function EdgeOf(f: Face, k: nat): (Position, Position) {
    (At(Corner(f, k)), At(Corner(f, if k == 2 then 0 else k + 1)))
  }

  lemma AtIs(t: nat, l: nat)
    requires l < 12
    ensures At(12 * t + l) == PositionOf(t, Weld(l))
  {
    assert (12 * t + l) / 12 == t && (12 * t + l) % 12 == l;
  }

  lemma StoredAt(x: nat, t: nat, l: nat)
    requires x == 12 * t + l < TWO16 && l < 12
    ensures At(Cut(x)) == PositionOf(t, Weld(l))
  {
    Reduce(x, TWO16);
    AtIs(t, l);
  }

  lemma PositionIs(n: nat, i: nat, corner: nat)
    requires i < n && 12 * n <= TWO16 && corner < 24
    ensures At(Cut(Index(n, i, corner))) == PositionOf(Tooth(n, i, corner), Local(corner))
  {
    var l := if corner < 12 then corner else corner - 12;
    IndexIs(n, i, corner);
    StoredAt(Index(n, i, corner), Tooth(n, i, corner), l);
  }

  lemma TemplateSmall(j: nat)
    ensures Template(j).a < 24 && Template(j).b < 24 && Template(j).c < 24
  {
  }

  function Ends(n: nat, i: nat, e: Side): (Position, Position) {
    (PositionOf(Tooth(n, i, From(e)), Local(From(e))), PositionOf(Tooth(n, i, To(e)), Local(To(e))))
  }

  lemma CornerIs(n: nat, i: nat, f: Face, k: nat)
    requires i < n && 12 * n <= TWO16 && k < 3 && Corner(f, k) < 24
    ensures At(Corner(FaceAt(n, i, f), k)) == PositionOf(Tooth(n, i, Corner(f, k)), Local(Corner(f, k)))
  {
    PositionIs(n, i, Corner(f, k));
  }

  lemma CornersAre(n: nat, i: nat, f: Face, k: nat)
    requires i < n && 12 * n <= TWO16 && k < 3 && f.a < 24 && f.b < 24 && f.c < 24
    ensures var from, to := Corner(f, k), Corner(f, if k == 2 then 0 else k + 1);
      EdgeOf(FaceAt(n, i, f), k)
      == (PositionOf(Tooth(n, i, from), Local(from)), PositionOf(Tooth(n, i, to), Local(to)))
  {
    CornerIs(n, i, f, k);
    CornerIs(n, i, f, if k == 2 then 0 else k + 1);
  }

  lemma EdgeIs(n: nat, faces: seq<Face>, i: nat, e: Side)
    requires IsMesh(n, faces) && 12 * n <= TWO16 && i < n && IsSide(e)
    ensures Slot(n, i, e.j) < |faces| && EdgeOf(faces[Slot(n, i, e.j)], e.k) == Ends(n, i, e)
  {
    TemplateSmall(e.j);
    CornersAre(n, i, Template(e.j), e.k);
    assert faces[Slot(n, i, e.j)] == FaceAt(n, i, Template(e.j));
  }

  // ---------- closed ----------

  /** A face slot and one of its sides. */
  predicate IsEdge(faces: seq<Face>, k: int, c: int) {
    0 <= k < |faces| && 0 <= c < 3
  }

  /** No directed edge occurs twice. */
  ghost predicate EdgesDiffer(faces: seq<Face>) {
    forall k, c, k', c' | IsEdge(faces, k, c) && IsEdge(faces, k', c') && EdgeOf(faces[k], c) == EdgeOf(faces[k'], c') ::
      k == k' && c == c'
  }

  function Swap(e: (Position, Position)): (Position, Position) {
    (e.1, e.0)
  }

  /** Every directed edge occurs the other way round as well. */
  ghost predicate EdgesPair(faces: seq<Face>) {
    forall k, c | IsEdge(faces, k, c) ::
      exists k', c' :: IsEdge(faces, k', c') && EdgeOf(faces[k'], c') == Swap(EdgeOf(faces[k], c))
  }

  lemma SamePosition(i: nat, l: nat, i': nat, l': nat)
    requires PositionOf(i, Weld(l)) == PositionOf(i', Weld(l')) && l < 12 && l' < 12
    ensures i == i' && Weld(l) == Weld(l')
  {
    WeldIsSamePosition(i, Weld(l), i', Weld(l'));
  }

  /** On a circle of three teeth or more, going ahead, staying and going back are different. */
  lemma StepsDiffer(n: nat, i: nat, a: nat, b: nat, i': nat, a': nat, b': nat)
    requires n >= 3 && i < n && i' < n
    requires Tooth(n, i, a) == Tooth(n, i', a') && Tooth(n, i, b) == Tooth(n, i', b')
    ensures Ahead(b) - Ahead(a) == Ahead(b') - Ahead(a')
  {
  }

  lemma LocalsAgree(t: nat, corner: nat, t': nat, corner': nat)
    requires corner < 24 && corner' < 24 && PositionOf(t, Local(corner)) == PositionOf(t', Local(corner'))
    ensures t == t' && Local(corner) == Local(corner')
  {
    SamePosition(t, if corner < 12 then corner else corner - 12, t', if corner' < 12 then corner' else corner' - 12);
  }

  lemma LocalEnds(n: nat, i: nat, e: Side, i': nat, e': Side)
    requires From(e) < 24 && To(e) < 24 && From(e') < 24 && To(e') < 24 && Ends(n, i, e) == Ends(n, i', e')
    ensures Tooth(n, i, From(e)) == Tooth(n, i', From(e')) && Local(From(e)) == Local(From(e'))
    ensures Tooth(n, i, To(e)) == Tooth(n, i', To(e')) && Local(To(e)) == Local(To(e'))
  {
    LocalsAgree(Tooth(n, i, From(e)), From(e), Tooth(n, i', From(e')), From(e'));
    LocalsAgree(Tooth(n, i, To(e)), To(e), Tooth(n, i', To(e')), To(e'));
  }

  lemma SidesDiffer(n: nat, i: nat, e: Side, i': nat, e': Side)
    requires n >= 3 && i < n && i' < n && IsSide(e) && IsSide(e') && Ends(n, i, e) == Ends(n, i', e')
    ensures i == i' && e == e'
  {
    AllListed(e);
    AllListed(e');
    LocalEnds(n, i, e, i', e');
    StepsDiffer(n, i, From(e), To(e), i', From(e'), To(e'));
    assert RunOf(From(e), To(e)) == RunOf(From(e'), To(e'));
  }

  lemma EdgesDifferFrom3(n: nat, faces: seq<Face>)
    requires IsMesh(n, faces) && 12 * n <= TWO16 && n >= 3
    ensures EdgesDiffer(faces)
  {
    forall k, c, k', c' | IsEdge(faces, k, c) && IsEdge(faces, k', c') && EdgeOf(faces[k], c) == EdgeOf(faces[k'], c')
      ensures k == k' && c == c'
    {
      var i, j := SlotSurjective(n, k);
      var i', j' := SlotSurjective(n, k');
      EdgeIs(n, faces, i, Side(j, c));
      EdgeIs(n, faces, i', Side(j', c'));
      SidesDiffer(n, i, Side(j, c), i', Side(j', c'));
    }
  }

  lemma TwinEnds(n: nat, i: nat, e: Side, w: Side, i': nat)
    requires i < n && RunOf(From(w), To(w)) == RunOf(To(e), From(e))
    requires var d := Ahead(To(e)) - Ahead(From(w)); i' == if i + d < 0 then n - 1 else if i + d == n then 0 else i + d
    ensures i' < n && Ends(n, i', w) == Swap(Ends(n, i, e))
  {
    assert Ahead(To(w)) - Ahead(From(w)) == Ahead(From(e)) - Ahead(To(e));
    assert Tooth(n, i', From(w)) == Tooth(n, i, To(e));
    assert Tooth(n, i', To(w)) == Tooth(n, i, From(e));
  }

  /** The tooth whose twin side meets side `e` of tooth `i`. */
  lemma TwinTooth(n: nat, i: nat, e: Side) returns (i': nat)
    requires i < n && IsSide(e)
    ensures i' < n && IsSide(Twin(e)) && Ends(n, i', Twin(e)) == Swap(Ends(n, i, e))
  {
    AllListed(e);
    var w := Twin(e);
    var d := Ahead(To(e)) - Ahead(From(w));
    i' := if i + d < 0 then n - 1 else if i + d == n then 0 else i + d;
    TwinEnds(n, i, e, w, i');
  }

  lemma EdgesPairUncut(n: nat, faces: seq<Face>)
    requires IsMesh(n, faces) && 12 * n <= TWO16
    ensures EdgesPair(faces)
  {
    forall k, c | IsEdge(faces, k, c)
      ensures exists k', c' :: IsEdge(faces, k', c') && EdgeOf(faces[k'], c') == Swap(EdgeOf(faces[k], c))
    {
      var i, j := SlotSurjective(n, k);
      EdgeIs(n, faces, i, Side(j, c));
      var i' := TwinTooth(n, i, Side(j, c));
      var w := Twin(Side(j, c));
      EdgeIs(n, faces, i', w);
      assert IsEdge(faces, Slot(n, i', w.j), w.k);
    }
  }

  /** With one tooth or two, both ways along the back of the hole coincide. */
  lemma EdgesMeetBelow3(n: nat, faces: seq<Face>)
    requires IsMesh(n, faces) && 1 <= n <= 2
    ensures !EdgesDiffer(faces)
  {
    var e, e' := Side(8, 1), Side(18, 1);
    assert From(e) == 5 && To(e) == 17 && From(e') == 17 && To(e') == 5;
    var i' := n - 1;
    EdgeIs(n, faces, 0, e);
    EdgeIs(n, faces, i', e');
    assert Ends(n, 0, e) == Ends(n, i', e');
    var k, k' := Slot(n, 0, 8), Slot(n, i', 18);
    assert k != k' && IsEdge(faces, k, 1) && IsEdge(faces, k', 1) && EdgeOf(faces[k], 1) == EdgeOf(faces[k'], 1);
  }
}
