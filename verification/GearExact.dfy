/** For which numbers of teeth a gear is a closed solid: the exact conditions. */
module GearExact {
  import opened Machine
  import opened Gears
  import opened GearSolid

  // ---------- indices of more than 16 bits ----------

  /** The face is stored as it was computed. */
  predicate Uncut(n: nat, i: nat, f: Face)
    requires HasModulus(n)
  {
    var g := FaceAt(n, i, f);
    g.a == Index(n, i, f.a) && g.b == Index(n, i, f.b) && g.c == Index(n, i, f.c)
  }

  lemma IndexBelow(n: nat, i: nat, base: nat)
    requires HasModulus(n)
    ensures Index(n, i, base) < 12 * n % TWO32
  {
  }

  lemma NotCut(x: nat)
    ensures x < TWO16 ==> Cut(x) == x
  {
  }

  /** No multiple of 2^32 has come up yet: the sums are those of numbers, and below the modulus. */
  lemma PlainIndex(n: nat, i: nat, base: nat)
    requires base + 12 * i < 12 * n % TWO32
    ensures HasModulus(n) && Index(n, i, base) == base + 12 * i
  {
    Reduce(base + i * 12, TWO32);
    Reduce(base + i * 12, 12 * n % TWO32);
  }

  /** Tooth 5461 is the first one with an index that needs 17 bits. */
  lemma CutAbove(n: nat)
    requires 12 * n % TWO32 > TWO16
    ensures !Uncut(n, 5461, Template(15))
  {
    PlainIndex(n, 5461, 4);
    assert Template(15).a == 4;
  }

  /** 16 bits hold every index, and leave the faces as computed, exactly up to a modulus of 65536. */
  lemma SixteenBitsExactly(n: nat)
    requires HasModulus(n)
    ensures (forall i, j | 0 <= i < n && 0 <= j < 20 :: Uncut(n, i, Template(j))) <==> 12 * n % TWO32 <= TWO16
  {
    if 12 * n % TWO32 <= TWO16 {
      forall i: nat, j: nat | i < n && j < 20 ensures Uncut(n, i, Template(j)) {
        var f := Template(j);
        IndexBelow(n, i, f.a);
        IndexBelow(n, i, f.b);
        IndexBelow(n, i, f.c);
        NotCut(Index(n, i, f.a));
        NotCut(Index(n, i, f.b));
        NotCut(Index(n, i, f.c));
      }
    } else {
      CutAbove(n);
      Fits(12 * n);
      assert 5461 < n;
    }
  }

  /** Corner `base` of tooth 5461, as it is stored. */
  lemma StoredCorner(n: nat, base: nat)
    requires TWO16 < 12 * n < TWO32 && 4 <= base < 12
    ensures HasModulus(n) && Cut(Index(n, 5461, base)) == base - 4
  {
    Fits(12 * n);
    PlainIndex(n, 5461, base);
    assert base + 12 * 5461 == TWO16 + (base - 4);
  }

  /** What is left of two faces of tooth 5461. */
  lemma StoredFaces(n: nat, faces: seq<Face>)
    requires IsMesh(n, faces) && TWO16 < 12 * n < TWO32
    ensures 5461 < n
    ensures faces[18 * 5461 + 5] == Face(2, 1, 3) && faces[18 * 5461 + 15] == Face(0, 3, 7)
  {
    assert faces[Slot(n, 5461, 5)] == FaceAt(n, 5461, Template(5));
    assert faces[Slot(n, 5461, 15)] == FaceAt(n, 5461, Template(15));
    StoredCorner(n, 6);
    StoredCorner(n, 5);
    StoredCorner(n, 7);
    StoredCorner(n, 4);
    StoredCorner(n, 11);
  }

  lemma FirstFace2(n: nat, faces: seq<Face>)
    requires IsMesh(n, faces) && TWO16 < 12 * n < TWO32
    ensures faces[2] == Face(1, 4, 2)
  {
    assert faces[Slot(n, 0, 2)] == FaceAt(n, 0, Template(2));
    Fits(12 * n);
    PlainIndex(n, 0, 1);
    PlainIndex(n, 0, 4);
    PlainIndex(n, 0, 2);
  }

  /** An edge of the first tooth comes up again. */
  lemma EdgesMeetAbove(n: nat, faces: seq<Face>)
    requires IsMesh(n, faces) && TWO16 < 12 * n < TWO32
    ensures !EdgesDiffer(faces)
  {
    StoredFaces(n, faces);
    FirstFace2(n, faces);
    var k := 18 * 5461 + 5;
    assert IsEdge(faces, k, 0) && IsEdge(faces, 2, 2) && EdgeOf(faces[k], 0) == EdgeOf(faces[2], 2);
  }

  // ---------- edges without their reverse ----------

  lemma AddFours(z: nat, y: nat)
    ensures (4 * z + y) % 4 == y % 4
  {
  }

  lemma Divided(x: nat, m: nat) returns (q: nat)
    requires m > 0
    ensures x == q * m + x % m
  {
    q := x / m;
  }

  lemma MultipleKeeps(q: nat, t: nat, y: nat)
    ensures (q * (4 * t) + y) % 4 == y % 4
  {
    assert q * (4 * t) == 4 * (q * t);
    AddFours(q * t, y);
  }

  lemma ModKeeps(x: nat, m: nat, y: nat)
    requires m > 0 && m % 4 == 0 && y == x % m
    ensures y % 4 == x % 4
  {
    var q := Divided(x, m);
    MultipleKeeps(q, m / 4, y);
    assert 4 * (m / 4) == m;
  }

  /** Whatever wraps around or is cut, the position of a corner within four vertices stays. */
  lemma StoredResidue(n: nat, i: nat, base: nat)
    requires HasModulus(n)
    ensures Cut(Index(n, i, base)) % 4 == base % 4
  {
    var x, m := base + i * 12, 12 * n % TWO32;
    var w := x % TWO32;
    var index := w % m;
    AddFours(3 * i, base);
    AddFours(3 * n, 0);
    ModKeeps(12 * n, TWO32, m);
    ModKeeps(x, TWO32, w);
    ModKeeps(w, m, index);
    ModKeeps(index, TWO16, Cut(index));
  }

  /** The sides that run from a vertex divisible by four to one that leaves three. */
  lemma SidesFrom0To3(e: Side)
    requires IsSide(e) && From(e) % 4 == 0 && To(e) % 4 == 3
    ensures From(e) < 12 && To(e) < 12 && To(e) - From(e) in {-5, -1, 3}
  {
  }

  lemma AtIs0Or7(x: U16)
    ensures At(x) == At(0) ==> x == 0
    ensures At(x) == At(7) ==> x == 7
  {
  }

  lemma Difference(x: nat, d: int, u: nat)
    requires x % TWO16 == 0 && x + d >= 0 && u == (x + d) % TWO16 && d in {-5, -1, 3}
    ensures u != 7
  {
  }

  /** No stored side runs from vertex 0 to vertex 7. */
  lemma NoSide(n: nat, i: nat, e: Side)
    requires i < n && 12 * n < TWO32 && IsSide(e)
    ensures HasModulus(n) && !(Cut(Index(n, i, From(e))) == 0 && Cut(Index(n, i, To(e))) == 7)
  {
    Fits(12 * n);
    StoredResidue(n, i, From(e));
    StoredResidue(n, i, To(e));
    if From(e) % 4 == 0 && To(e) % 4 == 3 {
      SidesFrom0To3(e);
      PlainIndex(n, i, From(e));
      PlainIndex(n, i, To(e));
      if Cut(From(e) + 12 * i) == 0 { Difference(From(e) + 12 * i, To(e) - From(e), Cut(To(e) + 12 * i)); }
    }
  }

  /** An edge of tooth 5461 has lost its partner. */
  lemma EdgeUnpairedAbove(n: nat, faces: seq<Face>)
    requires IsMesh(n, faces) && TWO16 < 12 * n < TWO32
    ensures !EdgesPair(faces)
  {
    StoredFaces(n, faces);
    var k := 18 * 5461 + 15;
    assert IsEdge(faces, k, 2) && EdgeOf(faces[k], 2) == (At(7), At(0));
    forall k', c' | IsEdge(faces, k', c') ensures EdgeOf(faces[k'], c') != (At(0), At(7)) {
      var i, j := SlotSurjective(n, k');
      assert faces[k'] == FaceAt(n, i, Template(j));
      NoSide(n, i, Side(j, c'));
      AtIs0Or7(Corner(faces[k'], c'));
      AtIs0Or7(Corner(faces[k'], if c' == 2 then 0 else c' + 1));
    }
  }

  /** Every directed edge has its reverse exactly as long as 16 bits hold every index. */
  lemma EdgesPairExactly(n: nat, faces: seq<Face>)
    requires IsMesh(n, faces)
    ensures EdgesPair(faces) <==> 12 * n <= TWO16
  {
    if 12 * n <= TWO16 {
      EdgesPairUncut(n, faces);
    } else {
      assert faces[Slot(n, 0, 0)] == FaceAt(n, 0, Template(0));
      EdgeUnpairedAbove(n, faces);
    }
  }

  // ---------- more edges than pairs of indices ----------

  /** A directed edge as one number. */
  function Code(faces: seq<Face>, e: nat): nat
    requires e < 3 * |faces|
  {
    var f, k := faces[e / 3], e % 3;
    Corner(f, k) * TWO16 + Corner(f, if k == 2 then 0 else k + 1)
  }

  function Codes(faces: seq<Face>, m: nat): set<nat>
    requires m <= 3 * |faces|
  {
    if m == 0 then {} else Codes(faces, m - 1) + {Code(faces, m - 1)}
  }

  lemma {:induction false} CodesSmall(faces: seq<Face>, m: nat)
    requires m <= 3 * |faces|
    ensures forall x | x in Codes(faces, m) :: x < TWO32
  {
    if m == 0 {
    } else {
      CodesSmall(faces, m - 1);
    }
  }

  lemma {:induction false} BoundedSize(s: set<nat>, bound: nat)
    requires forall x | x in s :: x < bound
    ensures |s| <= bound
  {
    if bound == 0 {
      assert s == {};
    } else {
      var r := s - {bound - 1};
      BoundedSize(r, bound - 1);
      assert s <= r + {bound - 1};
      assert |s| <= |r| + 1 by {
        if bound - 1 in s { assert s == r + {bound - 1}; } else { assert s == r; }
      }
    }
  }

  lemma CodeInjective(faces: seq<Face>, e: nat, e': nat)
    requires EdgesDiffer(faces) && e < 3 * |faces| && e' < 3 * |faces| && Code(faces, e) == Code(faces, e')
    ensures e == e'
  {
    assert IsEdge(faces, e / 3, e % 3) && IsEdge(faces, e' / 3, e' % 3);
    assert EdgeOf(faces[e / 3], e % 3) == EdgeOf(faces[e' / 3], e' % 3);
  }

  lemma {:induction false} CodeFresh(faces: seq<Face>, m: nat, e: nat)
    requires EdgesDiffer(faces) && m <= e < 3 * |faces|
    ensures Code(faces, e) !in Codes(faces, m)
  {
    if m == 0 {
    } else {
      CodeFresh(faces, m - 1, e);
      if Code(faces, e) == Code(faces, m - 1) { CodeInjective(faces, e, m - 1); }
    }
  }

  lemma {:induction false} CodesSize(faces: seq<Face>, m: nat)
    requires EdgesDiffer(faces) && m <= 3 * |faces|
    ensures |Codes(faces, m)| == m
  {
    if m == 0 {
    } else {
      CodesSize(faces, m - 1);
      CodeFresh(faces, m - 1, m - 1);
    }
  }

  /** There are 2^32 pairs of 16-bit indices: more edges than that cannot all be different. */
  lemma TooManyEdges(faces: seq<Face>)
    requires 3 * |faces| > TWO32
    ensures !EdgesDiffer(faces)
  {
    if EdgesDiffer(faces) {
      CodesSize(faces, 3 * |faces|);
      CodesSmall(faces, 3 * |faces|);
      BoundedSize(Codes(faces, 3 * |faces|), TWO32);
    }
  }

  /** No directed edge is used twice exactly with three teeth or more, or none, and indices that 16 bits hold. */
  lemma EdgesDifferExactly(n: nat, faces: seq<Face>)
    requires IsMade(n, faces)
    ensures EdgesDiffer(faces) <==> n == 0 || (n >= 3 && 12 * n <= TWO16)
  {
    if n == 0 {
      assert faces == [];
    } else if 60 * n > TWO32 {
      TooManyEdges(faces);
    } else if 12 * n > TWO16 {
      EdgesMeetAbove(n, faces);
    } else if n >= 3 {
      EdgesDifferFrom3(n, faces);
    } else {
      EdgesMeetBelow3(n, faces);
    }
  }
}
