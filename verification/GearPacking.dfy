/** Several gears in one vertex buffer and one index buffer. */
module GearPacking {
  import opened Machine
  import opened Gears

  /** A mesh: its first `flat` faces are shaded flat, the others smooth. */
  datatype Mesh<V> = Mesh(vertices: seq<V>, faces: seq<Face>, flat: nat)

  datatype Draw = Draw(vertexIdx: nat, flatIndexIdx: nat, flatIndexCount: nat, smoothIndexIdx: nat, smoothIndexCount: nat)

  /** Index `k` of an index buffer. */
  function IndexAt(faces: seq<Face>, k: nat): nat
    requires k < 3 * |faces|
  {
    Corner(faces[k / 3], k % 3)
  }

  ghost predicate IsWhole<V>(m: Mesh<V>) {
    m.flat <= |m.faces| && forall k | 0 <= k < 3 * |m.faces| :: IndexAt(m.faces, k) < |m.vertices|
  }

  function AllVertices<V>(gears: seq<Mesh<V>>): seq<V> {
    if gears == [] then [] else AllVertices(gears[..|gears| - 1]) + gears[|gears| - 1].vertices
  }

  function AllFaces<V>(gears: seq<Mesh<V>>): seq<Face> {
    if gears == [] then [] else AllFaces(gears[..|gears| - 1]) + gears[|gears| - 1].faces
  }

  /** Index `start + k` of the packed buffers draws the vertex that index `from + k` of the mesh stands for. */
  ghost predicate SameCorner<V>(vs: seq<V>, fs: seq<Face>, base: nat, start: nat, m: Mesh<V>, from: nat, k: nat)
    requires IsWhole(m) && start + k < 3 * |fs| && from + k < 3 * |m.faces|
  {
    var at := base + IndexAt(fs, start + k);
    at < |vs| && vs[at] == m.vertices[IndexAt(m.faces, from + k)]
  }

  /** Drawing `count` indices from `start` on, with `base` added to each, shows the corners of `m` from `from` on. */
  ghost predicate Shows<V>(vs: seq<V>, fs: seq<Face>, base: nat, start: nat, count: nat, m: Mesh<V>, from: nat)
    requires IsWhole(m)
  {
    && start + count <= 3 * |fs| && from + count <= 3 * |m.faces|
    && forall k | 0 <= k < count :: SameCorner(vs, fs, base, start, m, from, k)
  }

  /** The two draws of a gear show all of its flat faces and then all of its smooth ones. */
  ghost predicate ShowsMesh<V>(vs: seq<V>, fs: seq<Face>, d: Draw, m: Mesh<V>)
    requires IsWhole(m)
  {
    && d.flatIndexCount == 3 * m.flat && d.smoothIndexCount == 3 * (|m.faces| - m.flat)
    && Shows(vs, fs, d.vertexIdx, d.flatIndexIdx, d.flatIndexCount, m, 0)
    && Shows(vs, fs, d.vertexIdx, d.smoothIndexIdx, d.smoothIndexCount, m, 3 * m.flat)
  }

  lemma {:induction false} PrefixShorter<V>(gears: seq<Mesh<V>>, i: nat)
    requires i <= |gears|
    ensures AllVertices(gears[..i]) <= AllVertices(gears) && AllFaces(gears[..i]) <= AllFaces(gears)
    decreases |gears|
  {
    if i == |gears| {
      assert gears[..i] == gears;
    } else {
      PrefixShorter(gears[..|gears| - 1], i);
      assert gears[..|gears| - 1][..i] == gears[..i];
    }
  }

  lemma Extend<V>(gears: seq<Mesh<V>>, i: nat)
    requires i < |gears|
    ensures AllVertices(gears[..i + 1]) == AllVertices(gears[..i]) + gears[i].vertices
    ensures AllFaces(gears[..i + 1]) == AllFaces(gears[..i]) + gears[i].faces
  {
    assert gears[..i + 1][..i] == gears[..i];
  }

  /** The buffers hold `m` from vertex `v` and face `f` on. */
  ghost predicate Holds<V>(vs: seq<V>, fs: seq<Face>, v: nat, f: nat, m: Mesh<V>) {
    && v + |m.vertices| <= |vs| && vs[v..v + |m.vertices|] == m.vertices
    && f + |m.faces| <= |fs| && fs[f..f + |m.faces|] == m.faces
  }

  lemma HeldCorner<V>(vs: seq<V>, fs: seq<Face>, v: nat, f: nat, m: Mesh<V>, start: nat, from: nat, k: nat)
    requires IsWhole(m) && Holds(vs, fs, v, f, m) && start == 3 * f + from && from + k < 3 * |m.faces|
    ensures SameCorner(vs, fs, v, start, m, from, k)
  {
    var i := from + k;
    assert (start + k) / 3 == f + i / 3 && (start + k) % 3 == i % 3;
    assert fs[f..f + |m.faces|][i / 3] == fs[f + i / 3];
    var c := IndexAt(m.faces, i);
    assert vs[v..v + |m.vertices|][c] == vs[v + c];
  }

  lemma HeldPart<V>(vs: seq<V>, fs: seq<Face>, v: nat, f: nat, m: Mesh<V>, start: nat, from: nat, count: nat)
    requires IsWhole(m) && Holds(vs, fs, v, f, m) && start == 3 * f + from && from + count <= 3 * |m.faces|
    ensures Shows(vs, fs, v, start, count, m, from)
  {
    forall k | 0 <= k < count ensures SameCorner(vs, fs, v, start, m, from, k) {
      HeldCorner(vs, fs, v, f, m, start, from, k);
    }
  }

  lemma HeldMesh<V>(vs: seq<V>, fs: seq<Face>, v: nat, f: nat, m: Mesh<V>, d: Draw)
    requires IsWhole(m) && Holds(vs, fs, v, f, m)
    requires d == Draw(v, 3 * f, 3 * m.flat, 3 * f + 3 * m.flat, 3 * (|m.faces| - m.flat))
    ensures ShowsMesh(vs, fs, d, m)
  {
    HeldPart(vs, fs, v, f, m, 3 * f, 0, 3 * m.flat);
    HeldPart(vs, fs, v, f, m, 3 * f + 3 * m.flat, 3 * m.flat, 3 * (|m.faces| - m.flat));
  }

  method Copy<T>(target: array<T>, at: nat, source: seq<T>)
    requires at + |source| <= target.Length
    modifies target
    ensures target[..at + |source|] == old(target[..at]) + source
    ensures target[at + |source|..] == old(target[at + |source|..])
  {
    for k := 0 to |source|
      invariant target[..at + k] == old(target[..at]) + source[..k]
      invariant target[at + k..] == old(target[at + k..])
    {
      target[at + k] := source[k];
    }
  }

  method Count<V>(gears: seq<Mesh<V>>) returns (vertexCount: nat, faceCount: nat)
    ensures vertexCount == |AllVertices(gears)| && faceCount == |AllFaces(gears)|
  {
    vertexCount, faceCount := 0, 0;
    for i := 0 to |gears|
      invariant vertexCount == |AllVertices(gears[..i])| && faceCount == |AllFaces(gears[..i])|
    {
      Extend(gears, i);
      vertexCount := vertexCount + |gears[i].vertices|;
      faceCount := faceCount + |gears[i].faces|;
    }
    assert gears[..|gears|] == gears;
  }

  lemma {:induction false} Segments<V>(gears: seq<Mesh<V>>, i: nat)
    requires i < |gears|
    ensures Holds(AllVertices(gears), AllFaces(gears), |AllVertices(gears[..i])|, |AllFaces(gears[..i])|, gears[i])
  {
    PrefixShorter(gears, i + 1);
    Extend(gears, i);
  }

  /** The draws of a gear whose vertices start at `vertexIdx` and whose faces start at `faceIdx`. */
  function DrawOf<V>(vertexIdx: nat, faceIdx: nat, m: Mesh<V>): Draw
    requires m.flat <= |m.faces|
  {
    var flatIndexIdx, flatIndexCount := 3 * faceIdx, 3 * m.flat;
    Draw(vertexIdx, flatIndexIdx, flatIndexCount, flatIndexIdx + flatIndexCount, 3 * (|m.faces| - m.flat))
  }

  function DrawAt<V>(gears: seq<Mesh<V>>, i: nat): Draw
    requires i < |gears| && gears[i].flat <= |gears[i].faces|
  {
    DrawOf(|AllVertices(gears[..i])|, |AllFaces(gears[..i])|, gears[i])
  }

  /** Whatever the other gears are, a gear's draws show that gear. */
  lemma DrawShowsGear<V>(gears: seq<Mesh<V>>, i: nat)
    requires i < |gears| && IsWhole(gears[i])
    ensures ShowsMesh(AllVertices(gears), AllFaces(gears), DrawAt(gears, i), gears[i])
  {
    Segments(gears, i);
    HeldMesh(AllVertices(gears), AllFaces(gears), |AllVertices(gears[..i])|, |AllFaces(gears[..i])|, gears[i], DrawAt(gears, i));
  }

  ghost predicate AllWhole<V>(gears: seq<Mesh<V>>) {
    forall i | 0 <= i < |gears| :: IsWhole(gears[i])
  }

  lemma DrawsShowGears<V>(gears: seq<Mesh<V>>, draws: seq<Draw>)
    requires AllWhole(gears) && |draws| == |gears| && forall i | 0 <= i < |gears| :: draws[i] == DrawAt(gears, i)
    ensures forall i | 0 <= i < |gears| :: ShowsMesh(AllVertices(gears), AllFaces(gears), draws[i], gears[i])
  {
    forall i | 0 <= i < |gears| ensures ShowsMesh(AllVertices(gears), AllFaces(gears), draws[i], gears[i]) {
      DrawShowsGear(gears, i);
    }
  }

  method Pack<V(0)>(gears: seq<Mesh<V>>) returns (vertices: array<V>, faces: array<Face>, draws: seq<Draw>)
    requires AllWhole(gears)
    ensures vertices[..] == AllVertices(gears) && faces[..] == AllFaces(gears) && |draws| == |gears|
    ensures forall i | 0 <= i < |gears| :: ShowsMesh(vertices[..], faces[..], draws[i], gears[i])
  {
    var vertexCount, faceCount := Count(gears);
    vertices, faces, draws := new V[vertexCount], new Face[faceCount](_ => Face(0, 0, 0)), [];
    var vertexIdx: nat, faceIdx: nat := 0, 0;
    for i := 0 to |gears|
      invariant vertexIdx <= vertexCount && vertices[..vertexIdx] == AllVertices(gears[..i])
      invariant faceIdx <= faceCount && faces[..faceIdx] == AllFaces(gears[..i])
      invariant |draws| == i && forall j | 0 <= j < i :: draws[j] == DrawAt(gears, j)
    {
      Segments(gears, i);
      Extend(gears, i);
      var m := gears[i];
      draws := draws + [DrawOf(vertexIdx, faceIdx, m)];
      Copy(vertices, vertexIdx, m.vertices);
      vertexIdx := vertexIdx + |m.vertices|;
      Copy(faces, faceIdx, m.faces);
      faceIdx := faceIdx + |m.faces|;
    }
    assert gears[..|gears|] == gears;
    DrawsShowGears(gears, draws);
  }

  lemma CutBelow(n: nat, i: nat, base: nat)
    requires 0 < 12 * n < TWO32 && HasModulus(n)
    ensures Cut(Index(n, i, base)) <= Index(n, i, base) < 12 * n
  {
    Fits(12 * n);
  }

  /** The meshes that the code builds can be packed: their faces stay within their vertices. */
  lemma MeshIsWhole<V>(n: nat, vs: seq<V>, faces: seq<Face>)
    requires IsMesh(n, faces) && |vs| == 12 * n
    ensures IsWhole(Mesh(vs, faces, 18 * n))
  {
    forall k | 0 <= k < 3 * |faces| ensures IndexAt(faces, k) < |vs| {
      var i, j := SlotSurjective(n, k / 3);
      assert faces[Slot(n, i, j)] == FaceAt(n, i, Template(j));
      Fits(12 * n);
      CutBelow(n, i, Corner(Template(j), k % 3));
    }
  }
}
