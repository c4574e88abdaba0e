/** The vertices and the index buffer of a gear, and the sides of a tooth's triangles. */
module Gears {
  import opened Machine

  // ---------- vertices ----------

  datatype Radius = Inner | Root | Tip

  /** A position as the code spells it: radius, angle in quarter teeth from the start of tooth `tooth`, side. */
  datatype Position = Position(radius: Radius, tooth: nat, quarter: nat, front: bool)

  /** The position of vertex `l` of a tooth. */
  function PositionOf(tooth: nat, l: nat): Position {
    match l
    case 0 => Position(Inner, tooth, 0, true)
    case 1 => Position(Root, tooth, 0, true)
    case 2 => Position(Root, tooth, 3, true)
    case 3 => Position(Tip, tooth, 1, true)
    case 4 => Position(Tip, tooth, 2, true)
    case 5 => Position(Inner, tooth, 0, false)
    case 6 => Position(Root, tooth, 0, false)
    case 7 => Position(Root, tooth, 3, false)
    case 8 => Position(Tip, tooth, 1, false)
    case 9 => Position(Tip, tooth, 2, false)
    case 10 => Position(Root, tooth, 0, true)
    case _ => Position(Root, tooth, 3, true)
  }

  /** Vertices 10 and 11 stand where 1 and 2 stand; only their normals differ. */
  function Weld(l: nat): nat {
    if l == 10 then 1 else if l == 11 then 2 else l
  }

  lemma WeldIsSamePosition(i: nat, l: nat, i': nat, l': nat)
    requires l < 12 && l' < 12
    ensures PositionOf(i, l) == PositionOf(i', l') <==> i == i' && Weld(l) == Weld(l')
  {
  }

  /** Where vertex `l` of tooth `i` goes: the code multiplies in 32 bits. */
  function VertexPlace(i: nat, l: nat): nat {
    i * 12 % TWO32 + l
  }

  lemma Fits(x: nat)
    ensures x < TWO32 ==> x % TWO32 == x
    ensures x % TWO32 <= x
  {
  }

  /** Every vertex has a place of its own exactly as long as the last tooth's number times 12 fits into 32 bits. */
  lemma VerticesApartExactly(n: nat)
    requires 0 < n < TWO32
    ensures (forall i, l, i', l' | 0 <= i < n && 0 <= l < 12 && 0 <= i' < n && 0 <= l' < 12
      && VertexPlace(i, l) == VertexPlace(i', l') :: i == i' && l == l')
      <==> 12 * (n - 1) < TWO32
  {
    if 12 * (n - 1) < TWO32 {
      forall i: nat, l: nat, i': nat, l': nat | i < n && l < 12 && i' < n && l' < 12
        && VertexPlace(i, l) == VertexPlace(i', l') ensures i == i' && l == l'
      {
        Fits(12 * i);
        Fits(12 * i');
      }
    } else {
      var i := 357913942;
      assert VertexPlace(i, 0) == 8 == VertexPlace(0, 8) by {
        Fits(0);
        assert 12 * i == TWO32 + 8;
      }
    }
  }

  method FillFront(vertices: array<Position>, i: nat, t: nat)
    requires t + 12 <= vertices.Length
    modifies vertices
    ensures forall k | 0 <= k < t :: vertices[k] == old(vertices[k])
    ensures forall l | 0 <= l < 5 :: vertices[t + l] == PositionOf(i, l)
  {
    vertices[t] := Position(Inner, i, 0, true);
    vertices[t + 1] := Position(Root, i, 0, true);
    vertices[t + 2] := Position(Root, i, 3, true);
    vertices[t + 3] := Position(Tip, i, 1, true);
    vertices[t + 4] := Position(Tip, i, 2, true);
  }

  method FillBack(vertices: array<Position>, i: nat, t: nat)
    requires t + 12 <= vertices.Length
    modifies vertices
    ensures forall k | 0 <= k < t + 5 :: vertices[k] == old(vertices[k])
    ensures forall l | 5 <= l < 12 :: vertices[t + l] == PositionOf(i, l)
  {
    vertices[t + 5] := Position(Inner, i, 0, false);
    vertices[t + 6] := Position(Root, i, 0, false);
    vertices[t + 7] := Position(Root, i, 3, false);
    vertices[t + 8] := Position(Tip, i, 1, false);
    vertices[t + 9] := Position(Tip, i, 2, false);
    vertices[t + 10] := Position(Root, i, 0, true);
    vertices[t + 11] := Position(Root, i, 3, true);
  }

  ghost predicate VerticesUpTo(vertices: seq<Position>, m: nat) {
    12 * m <= |vertices| && forall k | 0 <= k < 12 * m :: vertices[k] == PositionOf(k / 12, k % 12)
  }

  method FillTooth(vertices: array<Position>, i: nat, t: nat)
    requires t + 12 <= vertices.Length
    modifies vertices
    ensures t == 12 * i && old(VerticesUpTo(vertices[..], i)) ==> VerticesUpTo(vertices[..], i + 1)
  {
    FillFront(vertices, i, t);
    FillBack(vertices, i, t);
    if t == 12 * i && old(VerticesUpTo(vertices[..], i)) {
      forall k | 0 <= k < 12 * i + 12 ensures vertices[k] == PositionOf(k / 12, k % 12) {
        var l := k - 12 * i;
        if l < 0 {
          assert old(vertices[..])[k] == PositionOf(k / 12, k % 12);
        } else {
          assert vertices[t + l] == PositionOf(i, l) && k / 12 == i && k % 12 == l;
        }
      }
    }
  }

  method CreateVertices(n: nat) returns (vertices: array<Position>)
    requires n < TWO32
    ensures fresh(vertices) && vertices.Length == 12 * n
    ensures n > 0 && 12 * (n - 1) < TWO32 ==> VerticesUpTo(vertices[..], n)
  {
    vertices := new Position[12 * n];
    for i := 0 to n
      invariant 12 * (n - 1) < TWO32 ==> VerticesUpTo(vertices[..], i)
    {
      Fits(i * 12);
      FillTooth(vertices, i, i * 12 % TWO32);
    }
  }

  // ---------- faces ----------

  datatype Face = Face(a: U16, b: U16, c: U16)

  /** The faces of one tooth; numbers from 12 on are vertices of the next tooth. */
  function Flat(j: nat): Face {
    match j
    case 0 => Face(1, 2, 0)
    case 1 => Face(1, 3, 4)
    case 2 => Face(1, 4, 2)
    case 3 => Face(2, 12, 0)
    case 4 => Face(2, 13, 12)
    case 5 => Face(6, 5, 7)
    case 6 => Face(6, 9, 8)
    case 7 => Face(6, 7, 9)
    case 8 => Face(7, 5, 17)
    case 9 => Face(7, 17, 18)
    case 10 => Face(10, 6, 8)
    case 11 => Face(10, 8, 3)
    case 12 => Face(3, 8, 9)
    case 13 => Face(3, 9, 4)
    case 14 => Face(4, 9, 7)
    case 15 => Face(4, 7, 11)
    case 16 => Face(11, 7, 18)
    case _ => Face(11, 18, 22)
  }

  function Smooth(j: nat): Face {
    if j == 0 then Face(0, 17, 5) else Face(0, 12, 17)
  }

  /** Face `j` of a tooth, flat ones first. */
  function Template(j: nat): Face {
    if j < 18 then Flat(j) else Smooth(j - 18)
  }

  /** The code computes modulo the number of vertices; as an unsigned number that must not be zero. */
  predicate HasModulus(n: nat) {
    12 * n % TWO32 != 0
  }

  /** The index that the code computes, before it is stored in 16 bits. */
  function Index(n: nat, i: nat, base: nat): nat
    requires HasModulus(n)
  {
    (base + i * 12) % TWO32 % (12 * n % TWO32)
  }

  function Cut(x: nat): U16 {
    x % TWO16
  }

  function FaceAt(n: nat, i: nat, f: Face): Face
    requires HasModulus(n)
  {
    Face(Cut(Index(n, i, f.a)), Cut(Index(n, i, f.b)), Cut(Index(n, i, f.c)))
  }

  /** Where face `j` of tooth `i` is meant to go. */
  function Slot(n: nat, i: nat, j: nat): nat {
    if j < 18 then 18 * i + j else 18 * n + 2 * i + (j - 18)
  }

  /** Where it goes: the code multiplies and adds in 32 bits. */
  function Place(n: nat, i: nat, j: nat): nat {
    if j < 18 then i * 18 % TWO32 + j else (i * 2 + n * 18) % TWO32 + (j - 18)
  }

  /** The faces of the whole gear, for `n` teeth. */
  ghost predicate IsMesh(n: nat, faces: seq<Face>) {
    && |faces| == 20 * n
    && forall i, j | 0 <= i < n && 0 <= j < 20 ::
      12 * n < TWO32 && Slot(n, i, j) < |faces| && faces[Slot(n, i, j)] == FaceAt(n, i, Template(j))
  }

  /** What the code makes of any number of teeth; beyond 2^32 faces they overwrite one another. */
  ghost predicate IsMade(n: nat, faces: seq<Face>) {
    |faces| == 20 * n && (20 * n <= TWO32 ==> IsMesh(n, faces))
  }

  /** Every face has its own slot. */
  lemma SlotInjective(n: nat, i: nat, j: nat, i': nat, j': nat)
    requires i < n && i' < n && j < 20 && j' < 20 && Slot(n, i, j) == Slot(n, i', j')
    ensures i == i' && j == j'
  {
  }

  /** Every slot belongs to a face. */
  lemma SlotSurjective(n: nat, k: nat) returns (i: nat, j: nat)
    requires k < 20 * n
    ensures i < n && j < 20 && Slot(n, i, j) == k
  {
    if k < 18 * n {
      i, j := k / 18, k % 18;
    } else {
      i, j := (k - 18 * n) / 2, 18 + (k - 18 * n) % 2;
    }
  }

  lemma PlaceIsSlot(n: nat, i: nat, j: nat)
    requires i < n && j < 20
    ensures 20 * n <= TWO32 ==> Place(n, i, j) == Slot(n, i, j)
    ensures Place(n, i, j) < 20 * n
  {
    Fits(i * 18);
    Fits(i * 2 + n * 18);
  }

  ghost predicate PlacesDiffer(n: nat) {
    forall i, j, i', j' | 0 <= i < n && 0 <= j < 20 && 0 <= i' < n && 0 <= j' < 20 && Place(n, i, j) == Place(n, i', j') ::
      i == i' && j == j'
  }

  /** A smooth face and a flat one that go to the same place. */
  lemma PlacesMeet(n: nat) returns (i: nat, i': nat, j': nat)
    requires n < TWO32 < 20 * n
    ensures i < n && i' < n && j' < 18 && Place(n, i, 18) == Place(n, i', j')
  {
    if 18 * n <= TWO32 {
      i, i', j' := (TWO32 - 18 * n) / 2, 0, 0;
      assert i * 2 + n * 18 == TWO32;
    } else {
      var r := n * 18 % TWO32;
      i, i', j' := 0, r / 18, r % 18;
      Fits(i' * 18);
    }
  }

  /** No face is overwritten exactly as long as there are no more than 2^32 of them. */
  lemma PlacesDifferExactly(n: nat)
    requires n < TWO32
    ensures PlacesDiffer(n) <==> 20 * n <= TWO32
  {
    if 20 * n <= TWO32 {
      forall i: nat, j: nat, i': nat, j': nat | i < n && j < 20 && i' < n && j' < 20 && Place(n, i, j) == Place(n, i', j')
        ensures i == i' && j == j'
      {
        PlaceIsSlot(n, i, j);
        PlaceIsSlot(n, i', j');
        SlotInjective(n, i, j, i', j');
      }
    } else {
      var i, i', j' := PlacesMeet(n);
      assert Place(n, i, 18) == Place(n, i', j');
    }
  }

  ghost predicate Filled(faces: seq<Face>, n: nat, teeth: nat, lo: nat, hi: nat)
    requires HasModulus(n) && |faces| == 20 * n && teeth <= n && hi <= 20
  {
    forall i, j | 0 <= i < teeth && lo <= j < hi :: faces[Slot(n, i, j)] == FaceAt(n, i, Template(j))
  }

  /** The flat faces of tooth `i`, from slot `t` on. */
  method FlatTooth(faces: array<Face>, n: nat, i: nat, t: nat)
    requires HasModulus(n) && t + 18 <= faces.Length
    modifies faces
    ensures forall k | 0 <= k < t :: faces[k] == old(faces[k])
    ensures forall j | 0 <= j < 18 :: faces[t + j] == FaceAt(n, i, Template(j))
  {
    for j := 0 to 18
      invariant forall k | 0 <= k < t :: faces[k] == old(faces[k])
      invariant forall j' | 0 <= j' < j :: faces[t + j'] == FaceAt(n, i, Template(j'))
    {
      faces[t + j] := FaceAt(n, i, Flat(j));
    }
  }

  /** The smooth faces of tooth `i`, from slot `t` on. */
  method SmoothTooth(faces: array<Face>, n: nat, i: nat, t: nat)
    requires HasModulus(n) && t + 2 <= faces.Length
    modifies faces
    ensures forall k | 0 <= k < t :: faces[k] == old(faces[k])
    ensures faces[t] == FaceAt(n, i, Smooth(0)) && faces[t + 1] == FaceAt(n, i, Smooth(1))
  {
    for j := 0 to 2
      invariant forall k | 0 <= k < t :: faces[k] == old(faces[k])
      invariant forall j' | 0 <= j' < j :: faces[t + j'] == FaceAt(n, i, Smooth(j'))
    {
      faces[t + j] := FaceAt(n, i, Smooth(j));
    }
    assert faces[t + 0] == FaceAt(n, i, Smooth(0));
  }

  method FillFlat(faces: array<Face>, n: nat)
    requires HasModulus(n) && faces.Length == 20 * n
    modifies faces
    ensures 20 * n <= TWO32 ==> Filled(faces[..], n, n, 0, 18)
  {
    for i := 0 to n
      invariant 20 * n <= TWO32 ==> Filled(faces[..], n, i, 0, 18)
    {
      PlaceIsSlot(n, i, 0);
      Fits(i * 18);
      FlatTooth(faces, n, i, i * 18 % TWO32);
    }
  }

  /** The smooth faces of the first `teeth` teeth are in place, and the flat ones are those of `before`. */
  ghost predicate SmoothUpTo(faces: seq<Face>, before: seq<Face>, n: nat, teeth: nat)
    requires HasModulus(n) && |faces| == |before| == 20 * n && teeth <= n
  {
    Filled(faces, n, teeth, 18, 20) && forall k | 0 <= k < 18 * n :: faces[k] == before[k]
  }

  method NextSmooth(faces: array<Face>, n: nat, i: nat, ghost before: seq<Face>)
    requires HasModulus(n) && faces.Length == |before| == 20 * n && i < n
    modifies faces
    ensures 20 * n <= TWO32 && old(SmoothUpTo(faces[..], before, n, i)) ==> SmoothUpTo(faces[..], before, n, i + 1)
  {
    PlaceIsSlot(n, i, 18);
    Fits(i * 2 + n * 18);
    SmoothTooth(faces, n, i, (i * 2 + n * 18) % TWO32);
  }

  method FillSmooth(faces: array<Face>, n: nat)
    requires HasModulus(n) && faces.Length == 20 * n
    modifies faces
    ensures 20 * n <= TWO32 ==> SmoothUpTo(faces[..], old(faces[..]), n, n)
  {
    ghost var before := faces[..];
    for i := 0 to n
      invariant 20 * n <= TWO32 ==> SmoothUpTo(faces[..], before, n, i)
    {
      NextSmooth(faces, n, i, before);
    }
  }

  method CreateFaces(n: nat) returns (faces: array<Face>)
    requires n < TWO32 && (n > 0 ==> HasModulus(n))
    ensures fresh(faces) && IsMade(n, faces[..])
  {
    faces := new Face[20 * n](_ => Face(0, 0, 0));
    if n > 0 {
      FillFlat(faces, n);
      ghost var flat := faces[..];
      FillSmooth(faces, n);
      forall i, j | 20 * n <= TWO32 && 0 <= i < n && 0 <= j < 20
        ensures faces[Slot(n, i, j)] == FaceAt(n, i, Template(j))
      {
        if j < 18 { assert faces[Slot(n, i, j)] == flat[Slot(n, i, j)]; }
      }
    }
  }

  // ---------- edges ----------

  /** Side `k` of a face, from one corner to the next. */
  datatype Side = Side(j: nat, k: nat)

  function Corner(f: Face, k: nat): nat {
    if k == 0 then f.a else if k == 1 then f.b else f.c
  }

  function From(e: Side): nat {
    Corner(Template(e.j), e.k)
  }

  function To(e: Side): nat {
    Corner(Template(e.j), if e.k == 2 then 0 else e.k + 1)
  }

  predicate IsSide(e: Side) {
    e.j < 20 && e.k < 3
  }

  // ---------- the outline ----------

  /** Quarter teeth around the gear, from the start of tooth 0. */
  function Angle(p: Position): nat {
    4 * p.tooth + p.quarter
  }

  /** The position of a corner of tooth 0; on a gear that goes on, corners from 12 on belong to tooth 1. */
  function CornerPosition(corner: nat): Position {
    if corner < 12 then PositionOf(0, corner) else PositionOf(1, corner - 12)
  }

  /** A tooth rises to the tip at its first quarter, stays there for one, and is back at the root for the last one. */
  lemma Profile(i: nat, l: nat)
    requires l < 12
    ensures var p := PositionOf(i, l);
      && p.tooth == i && p.quarter < 4
      && (p.radius == Tip <==> 1 <= p.quarter <= 2) && (p.radius == Inner ==> p.quarter == 0)
      && (p.radius == Inner <==> l == 0 || l == 5)
  {
  }

  /** The back is the front, five numbers on. */
  lemma BackIsFront(i: nat, l: nat)
    requires l < 5
    ensures PositionOf(i, l).front && PositionOf(i, l + 5) == PositionOf(i, l).(front := false)
  {
  }

  /** In front, the vertices go up in angle by one from 1 over 3 and 4 to 2, and on to 1 of the next tooth. */
  lemma FrontRuns(i: nat)
    ensures Angle(PositionOf(i, 3)) == Angle(PositionOf(i, 1)) + 1
    ensures Angle(PositionOf(i, 4)) == Angle(PositionOf(i, 3)) + 1
    ensures Angle(PositionOf(i, 2)) == Angle(PositionOf(i, 4)) + 1
    ensures Angle(PositionOf(i + 1, 1)) == Angle(PositionOf(i, 2)) + 1
    ensures Angle(PositionOf(i, 1)) == Angle(PositionOf(i, 0)) == 4 * i
  {
  }

  lemma OutwardCorners()
    ensures CornerPosition(10) == Position(Root, 0, 0, true) && CornerPosition(3) == Position(Tip, 0, 1, true)
    ensures CornerPosition(4) == Position(Tip, 0, 2, true) && CornerPosition(11) == Position(Root, 0, 3, true)
    ensures CornerPosition(22) == Position(Root, 1, 0, true)
    ensures CornerPosition(6) == Position(Root, 0, 0, false) && CornerPosition(8) == Position(Tip, 0, 1, false)
    ensures CornerPosition(9) == Position(Tip, 0, 2, false) && CornerPosition(7) == Position(Root, 0, 3, false)
    ensures CornerPosition(18) == Position(Root, 1, 0, false)
  {
  }

  /** Around the gear by one quarter: backwards along the front, onwards along the back; or from one to the other. */
  predicate RunsAround(from: nat, to: nat) {
    var p, q := CornerPosition(from), CornerPosition(to);
    && (p.front && q.front ==> Angle(p) == Angle(q) + 1)
    && (!p.front && !q.front ==> Angle(q) == Angle(p) + 1)
  }

  predicate FaceRunsAround(f: Face) {
    RunsAround(f.a, f.b) && RunsAround(f.b, f.c) && RunsAround(f.c, f.a)
  }

  lemma Face10Runs(j: nat)
    requires j == 10
    ensures FaceRunsAround(Template(j))
  {
    OutwardCorners();
    assert Template(j) == Face(10, 6, 8);
  }

  lemma Face11Runs(j: nat)
    requires j == 11
    ensures FaceRunsAround(Template(j))
  {
    OutwardCorners();
    assert Template(j) == Face(10, 8, 3);
  }

  lemma Face12Runs(j: nat)
    requires j == 12
    ensures FaceRunsAround(Template(j))
  {
    OutwardCorners();
    assert Template(j) == Face(3, 8, 9);
  }

  lemma Face13Runs(j: nat)
    requires j == 13
    ensures FaceRunsAround(Template(j))
  {
    OutwardCorners();
    assert Template(j) == Face(3, 9, 4);
  }

  lemma Face14Runs(j: nat)
    requires j == 14
    ensures FaceRunsAround(Template(j))
  {
    OutwardCorners();
    assert Template(j) == Face(4, 9, 7);
  }

  lemma Face15Runs(j: nat)
    requires j == 15
    ensures FaceRunsAround(Template(j))
  {
    OutwardCorners();
    assert Template(j) == Face(4, 7, 11);
  }

  lemma Face16Runs(j: nat)
    requires j == 16
    ensures FaceRunsAround(Template(j))
  {
    OutwardCorners();
    assert Template(j) == Face(11, 7, 18);
  }

  lemma Face17Runs(j: nat)
    requires j == 17
    ensures FaceRunsAround(Template(j))
  {
    OutwardCorners();
    assert Template(j) == Face(11, 18, 22);
  }

  /** All sides of the outward faces run around the gear. This is what makes them face outwards. */
  lemma OutlineRuns(j: nat)
    requires 10 <= j < 18
    ensures FaceRunsAround(Template(j))
  {
    match j
    case 10 => Face10Runs(j);
    case 11 => Face11Runs(j);
    case 12 => Face12Runs(j);
    case 13 => Face13Runs(j);
    case 14 => Face14Runs(j);
    case 15 => Face15Runs(j);
    case 16 => Face16Runs(j);
    case _ => Face17Runs(j);
  }

  /** Front faces are in front and back faces at the back; outward faces join them, and inward ones are at the hole. */
  lemma FacesLie(j: nat, k: nat)
    requires j < 20 && k < 3
    ensures var p := CornerPosition(Corner(Template(j), k));
      && (j < 5 ==> p.front) && (5 <= j < 10 ==> !p.front)
      && (p.radius == Inner ==> j < 10 || j >= 18) && (j >= 18 ==> p.radius == Inner)
  {
  }

  lemma NotAllInner(j: nat)
    requires j < 18
    ensures exists k :: 0 <= k < 3 && CornerPosition(Corner(Template(j), k)).radius != Inner
  {
    var k := if CornerPosition(Corner(Template(j), 0)).radius != Inner then 0 else 1;
    assert CornerPosition(Corner(Template(j), k)).radius != Inner;
  }

  /** A face is shaded smooth exactly if all of its corners are at the hole. */
  lemma SmoothExactly(j: nat)
    requires j < 20
    ensures j >= 18 <==> forall k | 0 <= k < 3 :: CornerPosition(Corner(Template(j), k)).radius == Inner
  {
    FacesLie(j, 0);
    FacesLie(j, 1);
    FacesLie(j, 2);
    if j >= 18 {
      forall k: nat | k < 3 ensures CornerPosition(Corner(Template(j), k)).radius == Inner { FacesLie(j, k); }
    } else {
      NotAllInner(j);
    }
  }

  /** The first corner of a flat face, whose normal it is shaded with: one vertex for each of the four outward sides. */
  lemma FirstCorners(j: nat)
    requires j < 18
    ensures var l := Template(j).a;
      && (j < 5 <==> l == 1 || l == 2) && (5 <= j < 10 <==> l == 6 || l == 7)
      && (10 <= j < 12 <==> l == 10) && (12 <= j < 14 <==> l == 3) && (14 <= j < 16 <==> l == 4) && (16 <= j <==> l == 11)
  {
  }

  // ---------- runs, to look sides up by ----------

  /** What tells a side from the others of a tooth: both ends, and by how many teeth it advances. */
  datatype Run = Run(p: nat, q: nat, ahead: int)

  /** Which vertex of its tooth a corner is, and whether that tooth is the next one. */
  function Local(corner: nat): nat {
    if corner < 12 then Weld(corner) else Weld(corner - 12)
  }

  function Ahead(corner: nat): int {
    if corner < 12 then 0 else 1
  }

  function RunOf(from: nat, to: nat): Run {
    Run(Local(from), Local(to), Ahead(to) - Ahead(from))
  }

  /** The side with a given run, looked up by its first end. */
  function SideFrom0(q: nat, ahead: int): Side {
    if q == 1 && ahead == 0 then Side(0, 2)
    else if q == 0 && ahead == -1 then Side(3, 1)
    else if q == 2 && ahead == 0 then Side(3, 2)
    else if q == 2 && ahead == -1 then Side(4, 2)
    else if q == 5 && ahead == 1 then Side(18, 0)
    else if q == 0 && ahead == 1 then Side(19, 0)
    else Side(19, 1)
  }

  function SideFrom1(q: nat, ahead: int): Side {
    if q == 2 && ahead == 0 then Side(0, 0)
    else if q == 3 && ahead == 0 then Side(1, 0)
    else if q == 4 && ahead == 0 then Side(2, 0)
    else if q == 0 && ahead == 0 then Side(4, 1)
    else if q == 6 && ahead == 0 then Side(10, 0)
    else if q == 8 && ahead == 0 then Side(11, 0)
    else Side(17, 2)
  }

  function SideFrom2(q: nat, ahead: int): Side {
    if q == 0 && ahead == 0 then Side(0, 1)
    else if q == 1 && ahead == 0 then Side(2, 2)
    else if q == 0 && ahead == 1 then Side(3, 0)
    else if q == 1 && ahead == 1 then Side(4, 0)
    else if q == 4 && ahead == 0 then Side(15, 2)
    else if q == 7 && ahead == 0 then Side(16, 0)
    else Side(17, 0)
  }

  function SideFrom3(q: nat, ahead: int): Side {
    if q == 4 && ahead == 0 then Side(1, 1)
    else if q == 1 && ahead == 0 then Side(11, 2)
    else if q == 8 && ahead == 0 then Side(12, 0)
    else Side(13, 0)
  }

  function SideFrom4(q: nat, ahead: int): Side {
    if q == 1 && ahead == 0 then Side(1, 2)
    else if q == 2 && ahead == 0 then Side(2, 1)
    else if q == 3 && ahead == 0 then Side(13, 2)
    else if q == 9 && ahead == 0 then Side(14, 0)
    else Side(15, 0)
  }

  function SideFrom5(q: nat, ahead: int): Side {
    if q == 7 && ahead == 0 then Side(5, 1)
    else if q == 5 && ahead == 1 then Side(8, 1)
    else if q == 7 && ahead == -1 then Side(8, 2)
    else if q == 6 && ahead == 0 then Side(9, 1)
    else if q == 5 && ahead == -1 then Side(18, 1)
    else if q == 0 && ahead == 0 then Side(18, 2)
    else Side(19, 2)
  }

  function SideFrom6(q: nat, ahead: int): Side {
    if q == 5 && ahead == 0 then Side(5, 0)
    else if q == 9 && ahead == 0 then Side(6, 0)
    else if q == 7 && ahead == 0 then Side(7, 0)
    else if q == 7 && ahead == -1 then Side(9, 2)
    else if q == 8 && ahead == 0 then Side(10, 1)
    else if q == 2 && ahead == -1 then Side(16, 2)
    else Side(17, 1)
  }

  function SideFrom7(q: nat, ahead: int): Side {
    if q == 6 && ahead == 0 then Side(5, 2)
    else if q == 9 && ahead == 0 then Side(7, 1)
    else if q == 5 && ahead == 0 then Side(8, 0)
    else if q == 5 && ahead == 1 then Side(9, 0)
    else if q == 4 && ahead == 0 then Side(14, 2)
    else if q == 2 && ahead == 0 then Side(15, 1)
    else Side(16, 1)
  }

  function SideFrom8(q: nat, ahead: int): Side {
    if q == 6 && ahead == 0 then Side(6, 2)
    else if q == 1 && ahead == 0 then Side(10, 2)
    else if q == 3 && ahead == 0 then Side(11, 1)
    else Side(12, 1)
  }

  function SideFrom9(q: nat, ahead: int): Side {
    if q == 8 && ahead == 0 then Side(6, 1)
    else if q == 6 && ahead == 0 then Side(7, 2)
    else if q == 3 && ahead == 0 then Side(12, 2)
    else if q == 4 && ahead == 0 then Side(13, 1)
    else Side(14, 1)
  }

  function SideOf(r: Run): Side {
    match r.p
    case 0 => SideFrom0(r.q, r.ahead)
    case 1 => SideFrom1(r.q, r.ahead)
    case 2 => SideFrom2(r.q, r.ahead)
    case 3 => SideFrom3(r.q, r.ahead)
    case 4 => SideFrom4(r.q, r.ahead)
    case 5 => SideFrom5(r.q, r.ahead)
    case 6 => SideFrom6(r.q, r.ahead)
    case 7 => SideFrom7(r.q, r.ahead)
    case 8 => SideFrom8(r.q, r.ahead)
    case _ => SideFrom9(r.q, r.ahead)
  }

  /** The side that runs the other way. */
  function Twin(e: Side): Side {
    SideOf(RunOf(To(e), From(e)))
  }

  predicate Listed(e: Side) {
    && From(e) < 24 && To(e) < 24 && (Local(From(e)) != Local(To(e)) || Ahead(From(e)) != Ahead(To(e)))
    && SideOf(RunOf(From(e), To(e))) == e
    && IsSide(Twin(e)) && RunOf(From(Twin(e)), To(Twin(e))) == RunOf(To(e), From(e))
  }
}
