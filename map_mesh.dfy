/**
 * MapMesh.CreateGeometry: a UV sphere of rings + 1 rings of radialSegments
 * vertices each, and an index buffer of two triangles per quad between
 * consecutive rings, the last quad of each band closing the seam back to
 * column 0. The sine and cosine values of the vertices are supplied as
 * functions; the counts, the vertex layout, the uv and custom channels and
 * the index buffer are exact.
 */
module MapMeshGeometry {
  import opened Vectors

  // ---------------------------------------------------------------------
  // Per-vertex lists, ring by ring

  /** The data appended for columns 0 .. m - 1 of ring i, column by column. */
  function Ring<T>(i: int, m: nat, f: (int, int) -> seq<T>): seq<T>
    decreases m
  {
    if m == 0 then [] else Ring(i, m - 1, f) + f(i, m - 1)
  }

  /** The data appended for rings 0 .. n - 1 of r columns each, ring by ring. */
  function Grid<T>(n: nat, r: nat, f: (int, int) -> seq<T>): seq<T>
    decreases n
  {
    if n == 0 then [] else Grid(n - 1, r, f) + Ring(n - 1, r, f)
  }

  ghost predicate ChunksOfSize<T>(f: (int, int) -> seq<T>, c: nat) {
    forall i, j :: |f(i, j)| == c
  }

  lemma MulMono(a: int, b: int, c: int)
    requires 0 <= a <= b && 0 <= c
    ensures a * c <= b * c
  {
    assert b * c - a * c == (b - a) * c;
  }

  lemma {:induction false} RingAt<T>(i: int, m: nat, f: (int, int) -> seq<T>, c: nat, j: int, t: int)
    requires ChunksOfSize(f, c) && 0 <= j < m && 0 <= t < c
    ensures |Ring(i, m, f)| == m * c
    ensures j * c + t < m * c && Ring(i, m, f)[j * c + t] == f(i, j)[t]
    decreases m
  {
    RingLength(i, m - 1, f, c);
    assert |f(i, m - 1)| == c;
    assert m * c == (m - 1) * c + c;
    if j < m - 1 {
      RingAt(i, m - 1, f, c, j, t);
    } else {
      assert j * c + t == (m - 1) * c + t;
    }
  }

  lemma {:induction false} RingLength<T>(i: int, m: nat, f: (int, int) -> seq<T>, c: nat)
    requires ChunksOfSize(f, c)
    ensures |Ring(i, m, f)| == m * c
    decreases m
  {
    if m > 0 {
      RingLength(i, m - 1, f, c);
      assert |f(i, m - 1)| == c;
      assert m * c == (m - 1) * c + c;
    }
  }

  /** With c values per vertex, n rings of r vertices append n * (r * c) values. */
  lemma {:induction false} GridLength<T>(n: nat, r: nat, f: (int, int) -> seq<T>, c: nat)
    requires ChunksOfSize(f, c)
    ensures |Grid(n, r, f)| == n * (r * c)
    decreases n
  {
    if n > 0 {
      GridLength(n - 1, r, f, c);
      RingLength(n - 1, r, f, c);
      NextMultiple(n - 1, r * c);
    }
  }

  /**
   * Layout: the values of vertex j of ring i start at position
   * i * (r * c) + j * c of the appended data.
   */
  lemma {:induction false} GridAt<T>(n: nat, r: nat, f: (int, int) -> seq<T>, c: nat, i: int, j: int, t: int)
    requires ChunksOfSize(f, c) && 0 <= i < n && 0 <= j < r && 0 <= t < c
    ensures i * (r * c) + j * c + t < |Grid(n, r, f)|
    ensures Grid(n, r, f)[i * (r * c) + j * c + t] == f(i, j)[t]
    decreases n
  {
    var idx := i * (r * c) + j * c + t;
    MulNonneg(r, c);
    MulNonneg(i, r * c);
    MulNonneg(j, c);
    GridLength(n - 1, r, f, c);
    RingAt(n - 1, r, f, c, j, t);
    NextMultiple(n - 1, r * c);
    var prefix := Grid(n - 1, r, f);
    assert Grid(n, r, f) == prefix + Ring(n - 1, r, f);
    if i < n - 1 {
      GridAt(n - 1, r, f, c, i, j, t);
      assert idx < |prefix| && prefix[idx] == f(i, j)[t];
      assert Grid(n, r, f)[idx] == prefix[idx];
    } else {
      assert idx == |prefix| + (j * c + t);
      assert Grid(n, r, f)[idx] == Ring(n - 1, r, f)[j * c + t];
    }
  }

  /** GridLength, counted in vertices: c values for each of the n * r vertices. */
  lemma GridCount<T>(n: nat, r: nat, f: (int, int) -> seq<T>, c: nat)
    requires ChunksOfSize(f, c)
    ensures |Grid(n, r, f)| == c * (n * r)
  {
    GridLength(n, r, f, c);
    assert n * (r * c) == c * (n * r);
  }

  /** GridAt, addressed by vertex index: vertex (i, j)'s values start at c * VertexIndex(i, j, r). */
  lemma GridAtVertex<T>(n: nat, r: nat, f: (int, int) -> seq<T>, c: nat, i: int, j: int, t: int)
    requires ChunksOfSize(f, c) && 0 <= i < n && 0 <= j < r && 0 <= t < c
    ensures 0 <= c * VertexIndex(i, j, r) + t < |Grid(n, r, f)|
    ensures Grid(n, r, f)[c * VertexIndex(i, j, r) + t] == f(i, j)[t]
  {
    GridAt(n, r, f, c, i, j, t);
    MulNonneg(i, r);
    MulNonneg(c, i * r + j);
    assert i * (r * c) + j * c == c * VertexIndex(i, j, r);
  }

  lemma MulNonneg(a: int, b: int)
    requires 0 <= a && 0 <= b
    ensures 0 <= a * b
  {
  }

  /** (k + 1) * m == k * m + m, kept apart from the sequence reasoning. */
  lemma NextMultiple(k: int, m: int)
    ensures (k + 1) * m == k * m + m
  {
  }

  /** One position per vertex. */
  function VertexChunk(surfacePoint: (int, int) -> Vector3): (int, int) -> seq<Vector3> {
    (i, j) => [surfacePoint(i, j)]
  }

  /** One normal per vertex: its position normalised. */
  function NormalChunk(surfacePoint: (int, int) -> Vector3, normalized: Vector3 -> Vector3): (int, int) -> seq<Vector3> {
    (i, j) => [normalized(surfacePoint(i, j))]
  }

  /** The uv of vertex j of ring i: (j / radialSegments, i / rings). */
  function Uv(i: int, j: int, rings: int, radialSegments: int): Vector2
    requires rings > 0 && radialSegments > 0
  {
    Vector2(j as real / radialSegments as real, i as real / rings as real)
  }

  function UvChunk(rings: int, radialSegments: int): (int, int) -> seq<Vector2>
    requires rings > 0 && radialSegments > 0
  {
    (i, j) => [Uv(i, j, rings, radialSegments)]
  }

  /**
   * Four custom floats per vertex: the edge-blend weight s of its column
   * (the sine of j / radialSegments * pi) as 1 - s and s, then 0 and 1.
   */
  function CustomChunk(edgeBlend: int -> real): (int, int) -> seq<real> {
    (i, j) => [1.0 - edgeBlend(j), edgeBlend(j), 0.0, 1.0]
  }

  lemma ChunkSizes(rings: int, radialSegments: int, surfacePoint: (int, int) -> Vector3,
                   normalized: Vector3 -> Vector3, edgeBlend: int -> real)
    requires rings > 0 && radialSegments > 0
    ensures ChunksOfSize(VertexChunk(surfacePoint), 1)
    ensures ChunksOfSize(NormalChunk(surfacePoint, normalized), 1)
    ensures ChunksOfSize(UvChunk(rings, radialSegments), 1)
    ensures ChunksOfSize(CustomChunk(edgeBlend), 4)
  {
  }

  // ---------------------------------------------------------------------
  // Index buffer

  /** The index of vertex `column` of ring `ring`. */
  function VertexIndex(ring: int, column: int, radialSegments: int): int {
    ring * radialSegments + column
  }

  /**
   * The two triangles of quad k of band i, between columns k and k + 1 of
   * rings i - 1 and i; the last quad wraps to column 0, closing the seam.
   */
  function Quad(i: int, k: int, radialSegments: int): seq<int> {
    var next := if k + 1 == radialSegments then 0 else k + 1;
    [VertexIndex(i - 1, k, radialSegments), VertexIndex(i - 1, next, radialSegments), VertexIndex(i, k, radialSegments),
     VertexIndex(i - 1, next, radialSegments), VertexIndex(i, next, radialSegments), VertexIndex(i, k, radialSegments)]
  }

  /** Quads 0 .. m - 1 of band i. */
  function BandPrefix(i: int, m: nat, radialSegments: int): seq<int>
    decreases m
  {
    if m == 0 then [] else BandPrefix(i, m - 1, radialSegments) + Quad(i, m - 1, radialSegments)
  }

  /** Bands 1 .. n; ring 0 has no band of its own. */
  function Bands(n: nat, radialSegments: nat): seq<int>
    decreases n
  {
    if n == 0 then [] else Bands(n - 1, radialSegments) + BandPrefix(n, radialSegments, radialSegments)
  }

  lemma {:induction false} BandPrefixFacts(i: int, m: nat, radialSegments: int)
    requires 1 <= i && m <= radialSegments
    ensures |BandPrefix(i, m, radialSegments)| == 6 * m
    ensures forall t :: 0 <= t < |BandPrefix(i, m, radialSegments)| ==>
      (i - 1) * radialSegments <= BandPrefix(i, m, radialSegments)[t] < (i + 1) * radialSegments
    decreases m
  {
    if m > 0 {
      BandPrefixFacts(i, m - 1, radialSegments);
      assert i * radialSegments == (i - 1) * radialSegments + radialSegments;
      assert (i + 1) * radialSegments == i * radialSegments + radialSegments;
    }
  }

  /** A quad inside a band, with prevRow and thisRow the first vertices of rings i - 1 and i. */
  lemma QuadInRing(i: int, k: int, radialSegments: int, prevRow: int, thisRow: int)
    requires 0 <= k && k + 1 < radialSegments
    requires prevRow == VertexIndex(i - 1, 0, radialSegments) && thisRow == VertexIndex(i, 0, radialSegments)
    ensures Quad(i, k, radialSegments) ==
      [prevRow + k, prevRow + k + 1, thisRow + k, prevRow + k + 1, thisRow + k + 1, thisRow + k]
  {
  }

  /**
   * The seam quad: its second triangle reaches column 0 of ring i as
   * prevRow + radialSegments, which is thisRow.
   */
  lemma SeamQuad(i: int, radialSegments: int, prevRow: int, thisRow: int)
    requires radialSegments >= 1
    requires prevRow == VertexIndex(i - 1, 0, radialSegments) && thisRow == VertexIndex(i, 0, radialSegments)
    requires thisRow == prevRow + radialSegments
    ensures Quad(i, radialSegments - 1, radialSegments) ==
      [prevRow + radialSegments - 1, prevRow, thisRow + radialSegments - 1,
       prevRow, prevRow + radialSegments, thisRow + radialSegments - 1]
  {
  }

  /** The quad vertex (i, j) completes: the one behind column j, none in column 0 or ring 0. */
  function QuadBehind(i: int, j: int, radialSegments: int): seq<int> {
    if i > 0 && j > 0 then Quad(i, j - 1, radialSegments) else []
  }

  /** Appending the quad behind column j extends band i by one quad. */
  lemma BandStep(indices0: seq<int>, before: seq<int>, i: int, j: int, radialSegments: int)
    requires before == indices0 + InnerBand(i, j, radialSegments)
    ensures before + QuadBehind(i, j, radialSegments) == indices0 + InnerBand(i, j + 1, radialSegments)
  {
    if i > 0 && j > 0 {
      assert InnerBand(i, j + 1, radialSegments) == InnerBand(i, j, radialSegments) + Quad(i, j - 1, radialSegments);
    }
  }

  /**
   * The indices the inner loop has emitted for ring i after visiting columns
   * 0 .. j - 1: the quads behind columns 1 .. j - 1 (none for ring 0).
   */
  function InnerBand(i: int, j: int, radialSegments: int): seq<int> {
    if i > 0 && j > 0 then BandPrefix(i, j - 1, radialSegments) else []
  }

  /** Ring i + 1 starts radialSegments vertices after ring i. */
  lemma NextRow(i: int, radialSegments: int)
    ensures VertexIndex(i + 1, 0, radialSegments) == VertexIndex(i, 0, radialSegments) + radialSegments
  {
  }

  /** The indices emitted before ring i: bands 1 .. i - 1. */
  function BandsBefore(i: nat, radialSegments: nat): seq<int> {
    if i == 0 then [] else Bands(i - 1, radialSegments)
  }

  /** The seam quad of band i; ring 0 has none. */
  function SeamBand(i: int, radialSegments: int): seq<int> {
    if i > 0 then Quad(i, radialSegments - 1, radialSegments) else []
  }

  /** The seam quad finishes band i, and band i follows bands 1 .. i - 1. */
  lemma SeamFinishesBand(i: nat, radialSegments: nat)
    requires i > 0 && radialSegments >= 1
    ensures InnerBand(i, radialSegments, radialSegments) + SeamBand(i, radialSegments)
      == BandPrefix(i, radialSegments, radialSegments)
    ensures Bands(i, radialSegments) == BandsBefore(i, radialSegments) + BandPrefix(i, radialSegments, radialSegments)
  {
  }

  lemma Regroup<T>(base: seq<T>, done: seq<T>, x: seq<T>, y: seq<T>, band: seq<T>, whole: seq<T>)
    requires x + y == band && whole == done + band
    ensures base + done + x + y == base + whole
  {
  }

  /** Closing band i with its seam quad completes bands 1 .. i. */
  lemma SeamStep(base: seq<int>, indices0: seq<int>, i: nat, radialSegments: nat)
    requires radialSegments >= 1
    requires indices0 == base + BandsBefore(i, radialSegments)
    ensures indices0 + InnerBand(i, radialSegments, radialSegments) + SeamBand(i, radialSegments)
      == base + Bands(i, radialSegments)
  {
    if i > 0 {
      SeamFinishesBand(i, radialSegments);
      Regroup(base, BandsBefore(i, radialSegments), InnerBand(i, radialSegments, radialSegments),
              SeamBand(i, radialSegments), BandPrefix(i, radialSegments, radialSegments), Bands(i, radialSegments));
    } else {
      assert InnerBand(i, radialSegments, radialSegments) + SeamBand(i, radialSegments) == [];
    }
  }

  /** Appending the chunk of vertex (i, j) extends ring i by one vertex. */
  lemma RingAppend<T>(base: seq<T>, before: seq<T>, after: seq<T>, i: int, j: nat, f: (int, int) -> seq<T>)
    requires before == base + Ring(i, j, f)
    requires after == before + f(i, j)
    ensures after == base + Ring(i, j + 1, f)
  {
  }

  /** Appending a whole ring extends the grid by one ring. */
  lemma GridStep<T>(base: seq<T>, before: seq<T>, after: seq<T>, i: nat, r: nat, f: (int, int) -> seq<T>)
    requires before == base + Grid(i, r, f)
    requires after == before + Ring(i, r, f)
    ensures after == base + Grid(i + 1, r, f)
  {
  }

  lemma Append6(s: seq<int>, a: int, b: int, c: int, d: int, e: int, f: int)
    ensures s + [a] + [b] + [c] + [d] + [e] + [f] == s + [a, b, c, d, e, f]
  {
  }

  /**
   * Ring 0 emits no indices and each later ring exactly 6 * radialSegments,
   * so the index count is 6 * (rings * radialSegments), a multiple of 3.
   */
  lemma {:induction false} BandsLength(n: nat, radialSegments: nat)
    ensures |Bands(n, radialSegments)| == 6 * (n * radialSegments)
    ensures |Bands(n, radialSegments)| % 3 == 0
    decreases n
  {
    if n > 0 {
      BandsLength(n - 1, radialSegments);
      BandPrefixFacts(n, radialSegments, radialSegments);
      assert n * radialSegments == (n - 1) * radialSegments + radialSegments;
    }
  }

  /**
   * Every index of bands 1 .. n addresses one of the (n + 1) * radialSegments
   * vertices of rings 0 .. n; in particular each index a ring emits refers to
   * a vertex appended no later than that ring.
   */
  lemma {:induction false} BandsInBounds(n: nat, radialSegments: nat)
    ensures forall t :: 0 <= t < |Bands(n, radialSegments)| ==>
      0 <= Bands(n, radialSegments)[t] < (n + 1) * radialSegments
    decreases n
  {
    if n > 0 {
      BandsInBounds(n - 1, radialSegments);
      BandPrefixFacts(n, radialSegments, radialSegments);
      MulMono(0, n - 1, radialSegments);
      MulMono(n, n + 1, radialSegments);
    }
  }

  /**
   * With at least two columns, each of the two triangles of a quad joins
   * three different vertices, two in one ring and one in the other.
   */
  lemma QuadTrianglesProper(i: int, k: int, radialSegments: int)
    requires i >= 1 && radialSegments >= 2 && 0 <= k < radialSegments
    ensures var q := Quad(i, k, radialSegments);
      q[0] != q[1] && q[1] != q[2] && q[0] != q[2] &&
      q[3] != q[4] && q[4] != q[5] && q[3] != q[5]
  {
    var r := radialSegments;
    assert i * r == (i - 1) * r + r;
  }

  /**
   * Every index of quad k of band i names a vertex that is already in the
   * vertex list when the quad is appended: an inner quad is appended right
   * after vertex k + 1 of ring i, the seam quad after the whole of ring i.
   */
  lemma QuadRefersToAppendedVertices(i: int, k: int, radialSegments: int)
    requires i >= 1 && 0 <= k < radialSegments
    ensures var appended := if k + 1 < radialSegments then VertexIndex(i, k + 1, radialSegments) + 1
                            else VertexIndex(i + 1, 0, radialSegments);
      forall t :: 0 <= t < 6 ==> 0 <= Quad(i, k, radialSegments)[t] < appended
  {
    MulNonneg(i - 1, radialSegments);
    NextRow(i - 1, radialSegments);
    NextRow(i, radialSegments);
  }

  /**
   * The sphere CreateGeometry builds on empty lists is a consistent surface
   * array: (rings + 1) * radialSegments vertices, one normal and one uv per
   * vertex, four custom floats per vertex, whole triangles, and every index
   * naming one of the vertices.
   */
  lemma SphereArraysConsistent(rings: nat, radialSegments: nat, surfacePoint: (int, int) -> Vector3,
                               normalized: Vector3 -> Vector3, edgeBlend: int -> real)
    requires rings >= 1 && radialSegments >= 1
    ensures var count := (rings + 1) * radialSegments;
      |Grid(rings + 1, radialSegments, VertexChunk(surfacePoint))| == count &&
      |Grid(rings + 1, radialSegments, NormalChunk(surfacePoint, normalized))| == count &&
      |Grid(rings + 1, radialSegments, UvChunk(rings, radialSegments))| == count &&
      |Grid(rings + 1, radialSegments, CustomChunk(edgeBlend))| == 4 * count &&
      |Bands(rings, radialSegments)| % 3 == 0 &&
      forall t :: 0 <= t < |Bands(rings, radialSegments)| ==> 0 <= Bands(rings, radialSegments)[t] < count
  {
    var r := radialSegments;
    ChunkSizes(rings, r, surfacePoint, normalized, edgeBlend);
    GridCount(rings + 1, r, VertexChunk(surfacePoint), 1);
    GridCount(rings + 1, r, NormalChunk(surfacePoint, normalized), 1);
    GridCount(rings + 1, r, UvChunk(rings, r), 1);
    GridCount(rings + 1, r, CustomChunk(edgeBlend), 4);
    BandsLength(rings, r);
    BandsInBounds(rings, r);
  }

  /**
   * Index VertexIndex(i, j) of the index buffer names vertex (i, j): the
   * position, normal and uv appended for column j of ring i.
   */
  lemma VertexIndexNamesVertex(rings: nat, radialSegments: nat, surfacePoint: (int, int) -> Vector3,
                               normalized: Vector3 -> Vector3, edgeBlend: int -> real, i: int, j: int)
    requires rings >= 1 && radialSegments >= 1 && 0 <= i <= rings && 0 <= j < radialSegments
    ensures var v := VertexIndex(i, j, radialSegments);
      0 <= v &&
      v < |Grid(rings + 1, radialSegments, VertexChunk(surfacePoint))| &&
      Grid(rings + 1, radialSegments, VertexChunk(surfacePoint))[v] == surfacePoint(i, j) &&
      v < |Grid(rings + 1, radialSegments, NormalChunk(surfacePoint, normalized))| &&
      Grid(rings + 1, radialSegments, NormalChunk(surfacePoint, normalized))[v] == normalized(surfacePoint(i, j)) &&
      v < |Grid(rings + 1, radialSegments, UvChunk(rings, radialSegments))| &&
      Grid(rings + 1, radialSegments, UvChunk(rings, radialSegments))[v] == Uv(i, j, rings, radialSegments)
  {
    var r := radialSegments;
    ChunkSizes(rings, r, surfacePoint, normalized, edgeBlend);
    GridAtVertex(rings + 1, r, VertexChunk(surfacePoint), 1, i, j, 0);
    GridAtVertex(rings + 1, r, NormalChunk(surfacePoint, normalized), 1, i, j, 0);
    GridAtVertex(rings + 1, r, UvChunk(rings, r), 1, i, j, 0);
  }

  /** The custom floats of vertex (i, j) are 1 - blend, blend, 0, 1 from 4 * VertexIndex(i, j) on. */
  lemma CustomFloatsOfVertex(rings: nat, radialSegments: nat, edgeBlend: int -> real, i: int, j: int, t: int)
    requires radialSegments >= 1 && 0 <= i <= rings && 0 <= j < radialSegments && 0 <= t < 4
    ensures var k := 4 * VertexIndex(i, j, radialSegments) + t;
      0 <= k < |Grid(rings + 1, radialSegments, CustomChunk(edgeBlend))| &&
      Grid(rings + 1, radialSegments, CustomChunk(edgeBlend))[k] == [1.0 - edgeBlend(j), edgeBlend(j), 0.0, 1.0][t]
  {
    assert ChunksOfSize(CustomChunk(edgeBlend), 4);
    GridAtVertex(rings + 1, radialSegments, CustomChunk(edgeBlend), 4, i, j, t);
  }

  // ---------------------------------------------------------------------
  // The mesh node

  class MapMesh {
    const rings: int
    const radialSegments: int
    const radius: real

    var vertices: seq<Vector3>
    var uvs: seq<Vector2>
    var normals: seq<Vector3>
    var indices: seq<int>
    var custom0: seq<real>

    constructor ()
      ensures rings == 50 && radialSegments == 50 && radius == 1.0
      ensures vertices == [] && uvs == [] && normals == [] && indices == [] && custom0 == []
      ensures Valid()
    {
      rings, radialSegments, radius := 50, 50, 1.0;
      vertices, uvs, normals, indices, custom0 := [], [], [], [], [];
    }

    predicate Valid() {
      rings >= 1 && radialSegments >= 1
    }

    /**
     * The inner loop of CreateGeometry (MapMesh.cs lines 63-90) for ring i:
     * appends the ring's vertices and the quads of its band except the seam.
     */
    method AddRing(i: int, prevRow: int, thisRow: int, point0: int,
                   surfacePoint: (int, int) -> Vector3, normalized: Vector3 -> Vector3, edgeBlend: int -> real)
      returns (point: int)
      requires Valid()
      requires thisRow == VertexIndex(i, 0, radialSegments) && point0 == thisRow
      requires i > 0 ==> prevRow == VertexIndex(i - 1, 0, radialSegments)
      requires thisRow <= |vertices|
      modifies this`vertices, this`normals, this`uvs, this`custom0, this`indices
      ensures point == point0 + radialSegments
      ensures |vertices| == old(|vertices|) + radialSegments
      ensures vertices == old(vertices) + Ring(i, radialSegments, VertexChunk(surfacePoint))
      ensures normals == old(normals) + Ring(i, radialSegments, NormalChunk(surfacePoint, normalized))
      ensures uvs == old(uvs) + Ring(i, radialSegments, UvChunk(rings, radialSegments))
      ensures custom0 == old(custom0) + Ring(i, radialSegments, CustomChunk(edgeBlend))
      ensures indices == old(indices) + InnerBand(i, radialSegments, radialSegments)
    {
      point := point0;
      for j := 0 to radialSegments
        invariant point == thisRow + j
        invariant |vertices| == old(|vertices|) + j
        invariant vertices == old(vertices) + Ring(i, j, VertexChunk(surfacePoint))
        invariant normals == old(normals) + Ring(i, j, NormalChunk(surfacePoint, normalized))
        invariant uvs == old(uvs) + Ring(i, j, UvChunk(rings, radialSegments))
        invariant custom0 == old(custom0) + Ring(i, j, CustomChunk(edgeBlend))
        invariant indices == old(indices) + InnerBand(i, j, radialSegments)
      {
        AddColumn(i, j, prevRow, thisRow, surfacePoint, normalized, edgeBlend,
                  old(vertices), old(normals), old(uvs), old(custom0), old(indices));
        point := point + 1;
      }
    }

    /**
     * One pass of the inner loop (MapMesh.cs lines 65-89): vertex (i, j) is
     * appended, then the quad behind column j. The ghost parameters are the
     * lists as they were before ring i.
     */
    method AddColumn(i: int, j: int, prevRow: int, thisRow: int,
                     surfacePoint: (int, int) -> Vector3, normalized: Vector3 -> Vector3, edgeBlend: int -> real,
                     ghost vertices0: seq<Vector3>, ghost normals0: seq<Vector3>, ghost uvs0: seq<Vector2>,
                     ghost custom0Before: seq<real>, ghost indices0: seq<int>)
      requires Valid() && 0 <= j < radialSegments
      requires thisRow == VertexIndex(i, 0, radialSegments)
      requires i > 0 ==> prevRow == VertexIndex(i - 1, 0, radialSegments)
      requires thisRow + j <= |vertices|
      requires vertices == vertices0 + Ring(i, j, VertexChunk(surfacePoint))
      requires normals == normals0 + Ring(i, j, NormalChunk(surfacePoint, normalized))
      requires uvs == uvs0 + Ring(i, j, UvChunk(rings, radialSegments))
      requires custom0 == custom0Before + Ring(i, j, CustomChunk(edgeBlend))
      requires indices == indices0 + InnerBand(i, j, radialSegments)
      modifies this`vertices, this`normals, this`uvs, this`custom0, this`indices
      ensures |vertices| == old(|vertices|) + 1
      ensures vertices == vertices0 + Ring(i, j + 1, VertexChunk(surfacePoint))
      ensures normals == normals0 + Ring(i, j + 1, NormalChunk(surfacePoint, normalized))
      ensures uvs == uvs0 + Ring(i, j + 1, UvChunk(rings, radialSegments))
      ensures custom0 == custom0Before + Ring(i, j + 1, CustomChunk(edgeBlend))
      ensures indices == indices0 + InnerBand(i, j + 1, radialSegments)
      ensures forall t :: |old(indices)| <= t < |indices| ==> 0 <= indices[t] < |vertices|
    {
      AddVertex(i, j, surfacePoint, normalized, edgeBlend);
      RingAppend(vertices0, old(vertices), vertices, i, j, VertexChunk(surfacePoint));
      RingAppend(normals0, old(normals), normals, i, j, NormalChunk(surfacePoint, normalized));
      RingAppend(uvs0, old(uvs), uvs, i, j, UvChunk(rings, radialSegments));
      RingAppend(custom0Before, old(custom0), custom0, i, j, CustomChunk(edgeBlend));

      AddQuad(i, j, prevRow, thisRow);
      BandStep(indices0, old(indices), i, j, radialSegments);
    }

    /**
     * Vertex (i, j) and its per-vertex data (MapMesh.cs lines 69-77): the
     * position, its normal, the custom channel (1 - blend, blend, 0, 1) and
     * the uv coordinate.
     */
    method AddVertex(i: int, j: int, surfacePoint: (int, int) -> Vector3, normalized: Vector3 -> Vector3,
                     edgeBlend: int -> real)
      requires Valid()
      modifies this`vertices, this`normals, this`uvs, this`custom0
      ensures vertices == old(vertices) + VertexChunk(surfacePoint)(i, j)
      ensures |vertices| == old(|vertices|) + 1
      ensures normals == old(normals) + NormalChunk(surfacePoint, normalized)(i, j)
      ensures uvs == old(uvs) + UvChunk(rings, radialSegments)(i, j)
      ensures custom0 == old(custom0) + CustomChunk(edgeBlend)(i, j)
    {
      var vert := surfacePoint(i, j);
      vertices := vertices + [vert];
      normals := normals + [normalized(vert)];
      custom0 := custom0 + [1.0 - edgeBlend(j)];
      custom0 := custom0 + [edgeBlend(j)];
      custom0 := custom0 + [0.0];
      custom0 := custom0 + [1.0];
      uvs := uvs + [Uv(i, j, rings, radialSegments)];
      assert custom0 == old(custom0) + [1.0 - edgeBlend(j), edgeBlend(j), 0.0, 1.0];
    }

    /**
     * The quad behind column j of ring i (MapMesh.cs lines 80-89): two
     * triangles joining columns j - 1 and j of rings i - 1 and i.
     */
    method AddQuad(i: int, j: int, prevRow: int, thisRow: int)
      requires Valid() && 0 <= j < radialSegments
      requires thisRow == VertexIndex(i, 0, radialSegments)
      requires i > 0 ==> prevRow == VertexIndex(i - 1, 0, radialSegments)
      requires thisRow + j < |vertices|
      modifies this`indices
      ensures indices == old(indices) + QuadBehind(i, j, radialSegments)
      ensures forall t :: |old(indices)| <= t < |indices| ==> 0 <= indices[t] < |vertices|
    {
      if i > 0 && j > 0 {
        indices := indices + [prevRow + j - 1];
        indices := indices + [prevRow + j];
        indices := indices + [thisRow + j - 1];

        indices := indices + [prevRow + j];
        indices := indices + [thisRow + j];
        indices := indices + [thisRow + j - 1];
        QuadInRing(i, j - 1, radialSegments, prevRow, thisRow);
        Append6(old(indices), prevRow + j - 1, prevRow + j, thisRow + j - 1, prevRow + j, thisRow + j, thisRow + j - 1);
        QuadRefersToAppendedVertices(i, j - 1, radialSegments);
      }
    }

    /**
     * The seam quad of band i (MapMesh.cs lines 92-101): for every ring but
     * ring 0, column radialSegments - 1 joined back to column 0.
     */
    method CloseBand(i: int, prevRow: int, thisRow: int)
      requires Valid() && i >= 0
      requires thisRow == VertexIndex(i, 0, radialSegments)
      requires i > 0 ==> prevRow == VertexIndex(i - 1, 0, radialSegments) && thisRow == prevRow + radialSegments
      requires VertexIndex(i + 1, 0, radialSegments) <= |vertices|
      modifies this`indices
      ensures indices == old(indices) + SeamBand(i, radialSegments)
      ensures forall t :: |old(indices)| <= t < |indices| ==> 0 <= indices[t] < |vertices|
    {
      if i > 0 {
        indices := indices + [prevRow + radialSegments - 1];
        indices := indices + [prevRow];
        indices := indices + [thisRow + radialSegments - 1];

        indices := indices + [prevRow];
        indices := indices + [prevRow + radialSegments];
        indices := indices + [thisRow + radialSegments - 1];
        SeamQuad(i, radialSegments, prevRow, thisRow);
        Append6(old(indices), prevRow + radialSegments - 1, prevRow, thisRow + radialSegments - 1,
                prevRow, prevRow + radialSegments, thisRow + radialSegments - 1);
        QuadRefersToAppendedVertices(i, radialSegments - 1, radialSegments);
      }
    }

    /**
     * MapMesh.cs lines 45-106: for each ring i and column j the vertex (i, j) is appended
     * to every per-vertex list, and each ring i >= 1 appends its band of
     * quads: quad j - 1 as soon as vertex (i, j) exists, the seam quad once
     * the ring is complete. prevRow and thisRow hold the index of the first
     * vertex of the previous and of the current ring, and point the number
     * of vertices appended so far.
     */
    method CreateGeometry(surfacePoint: (int, int) -> Vector3, normalized: Vector3 -> Vector3, edgeBlend: int -> real)
      requires Valid()
      modifies this`vertices, this`normals, this`uvs, this`custom0, this`indices
      ensures vertices == old(vertices) + Grid(rings + 1, radialSegments, VertexChunk(surfacePoint))
      ensures normals == old(normals) + Grid(rings + 1, radialSegments, NormalChunk(surfacePoint, normalized))
      ensures uvs == old(uvs) + Grid(rings + 1, radialSegments, UvChunk(rings, radialSegments))
      ensures custom0 == old(custom0) + Grid(rings + 1, radialSegments, CustomChunk(edgeBlend))
      ensures indices == old(indices) + Bands(rings, radialSegments)
    {
      var thisRow := 0;
      var prevRow := 0;
      var point := 0;

      for i: nat := 0 to rings + 1
        invariant thisRow == VertexIndex(i, 0, radialSegments)
        invariant i > 0 ==> prevRow == VertexIndex(i - 1, 0, radialSegments)
        invariant i > 0 ==> thisRow == prevRow + radialSegments
        invariant point == thisRow
        invariant |vertices| == old(|vertices|) + thisRow
        invariant vertices == old(vertices) + Grid(i, radialSegments, VertexChunk(surfacePoint))
        invariant normals == old(normals) + Grid(i, radialSegments, NormalChunk(surfacePoint, normalized))
        invariant uvs == old(uvs) + Grid(i, radialSegments, UvChunk(rings, radialSegments))
        invariant custom0 == old(custom0) + Grid(i, radialSegments, CustomChunk(edgeBlend))
        invariant indices == old(indices) + BandsBefore(i, radialSegments)
      {
        ghost var vertices0, normals0, uvs0, custom0Before, indices0 := vertices, normals, uvs, custom0, indices;
        point := AddRing(i, prevRow, thisRow, point, surfacePoint, normalized, edgeBlend);

        CloseBand(i, prevRow, thisRow);
        SeamStep(old(indices), indices0, i, radialSegments);

        GridStep(old(vertices), vertices0, vertices, i, radialSegments, VertexChunk(surfacePoint));
        GridStep(old(normals), normals0, normals, i, radialSegments, NormalChunk(surfacePoint, normalized));
        GridStep(old(uvs), uvs0, uvs, i, radialSegments, UvChunk(rings, radialSegments));
        GridStep(old(custom0), custom0Before, custom0, i, radialSegments, CustomChunk(edgeBlend));

        NextRow(i, radialSegments);
        prevRow := thisRow;
        thisRow := point;
      }
    }
  }
}
