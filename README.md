# StateOfClone map core in Dafny

This project models the deterministic core of the StateOfClone hex-map
game, written for the Godot engine in C#, and proves properties of it:

- **Mesh welding** (`MeshUtils`). Vertices are merged when their positions
  round to the same multiple of a tolerance. The merged list keeps the
  first vertex of each key, and the index buffer is rewritten to point at
  the survivors. `MergeVertices`, `MapVertices` and `MapTriangles` are
  methods over arrays with loop invariants, each returning a new array.
  `MergeVertices` is proved against the function `Welded`, and
  `MapVertices` against `VertexMap` and `LastIndexOfKey`; the lemmas state
  what those functions mean. `MapTriangles` states its result outright.
- **Edge classification** (`HexHelper.GetEdgeType`). The step between two
  cell elevations is Flat, Slope or Cliff. The function is modelled on
  unbounded integers, and a second version models the 32-bit subtraction
  the C# code performs (see Findings).
- **Hex metrics** (`HexMetrics`). This covers:
  - the seven-entry outer-corner table and its two accessors;
  - how a scaled position is mapped to a slot of the 256 × 256 hash grid, including
    C#'s truncating `%` and the correction for negative remainders;
  - filling the hash grid from a seeded generator;
  - the `Wrapping` switch.

  The static fields `hashGrid` and `wrapSize` become the fields of one
  `HexMetricsState` object.
- **Sphere mesh** (`MapMeshGeometry`). `MapMesh.CreateGeometry` builds a
  UV sphere of `rings + 1` rings of `radialSegments` vertices. It appends
  to five list fields and keeps the `thisRow` / `prevRow` / `point`
  counters. The class keeps those lists as `seq` fields, and its methods
  state each list's new contents as a function of the old. The lemmas then
  prove:
  - the lengths;
  - which slot holds which vertex;
  - that the index count is a multiple of three;
  - that every index names a vertex that is already in the list.

Floating-point values are modelled as exact `real`s. Values that the source
computes with trigonometry are passed in as function parameters:
`surfacePoint(i, j)` is the position of vertex `j` of ring `i`, `normalized`
normalises a vector, and `edgeBlend(j)` is `sin(j / radialSegments · π)`.
The random generator is also a parameter: `randf(seed, k)` is the k-th value
drawn after seeding.

## Model

| member | source | states |
|---|---|---|
| HexHelper.GetEdgeType | GameMap/Structures/HexHelper.cs:15-23 | The result is Flat iff the elevations are equal, Slope iff they differ by exactly one, and Cliff iff they differ by two or more. |
| HexHelper.EdgeTypeSymmetric | GameMap/Structures/HexHelper.cs:15-23 | Swapping the two elevations does not change the edge type. |
| HexHelper.EdgeTypeTranslationInvariant | GameMap/Structures/HexHelper.cs:19-22 | Adding the same amount to both elevations does not change the edge type: only the difference matters. |
| HexHelper.GetEdgeTypeInt32 | GameMap/Structures/HexHelper.cs:15-23 | The code as written, with the difference wrapped to 32 bits. It returns Flat exactly for equal elevations, and Slope exactly when the true difference is ±1 or ±(2^32 - 1). The last two cases are where it departs from `GetEdgeType`. Every other difference gives Cliff. |
| HexHelper.Int32EdgeTypeMisclassifiesExtremes | GameMap/Structures/HexHelper.cs:19-21 | For elevations int.MinValue and int.MaxValue, the 32-bit code returns Slope where the true difference calls for Cliff. |
| HexHelper.Int32EdgeTypeAgreesWithoutOverflow | GameMap/Structures/HexHelper.cs:19-22 | Whenever the difference fits in 32 bits, the code as written agrees with the intended classification. |
| HexMetrics.GetFirstCorner | GameMap/Structures/HexMetrics.cs:214-215 | For each of the six directions, the corner is entry `direction` of the corner table and lies in the XZ plane. |
| HexMetrics.GetSecondCorner | GameMap/Structures/HexMetrics.cs:222-223 | The second corner of direction d is the first corner of direction (d + 1) mod 6, so the ring closes because entry 6 repeats entry 0. |
| HexMetrics.FirstCornersDistinct | GameMap/Structures/HexMetrics.cs:38-46 | Different directions have different first corners. |
| HexMetrics.OppositeCornersMirror | GameMap/Structures/HexMetrics.cs:38-46 | The first corner of the opposite direction (d + 3) is the negation of the first corner of d. |
| HexMetrics.TruncatedRemainder | GameMap/Structures/HexMetrics.cs:151 | C#'s `%` by the grid size: the result is strictly between -256 and 256, has the sign of the dividend, and differs from it by a multiple of 256. |
| HexMetrics.WrapHashCoordinate | GameMap/Structures/HexMetrics.cs:151-156 | After the negative-remainder correction, a coordinate lies in [0, 256) and equals its non-negative residue modulo 256. |
| HexMetrics.HashGridIndex | GameMap/Structures/HexMetrics.cs:157 | The sampled slot `x + z * 256` always lies within the grid's 256 × 256 slots. |
| HexMetrics.HashGridIndexPeriodic | GameMap/Structures/HexMetrics.cs:151-157 | Coordinates that differ by whole multiples of 256 sample the same slot. |
| HexMetrics.HashGridIndexInjective | GameMap/Structures/HexMetrics.cs:151-157 | Two coordinate pairs sample the same slot iff they agree modulo 256 on both axes. |
| HexMetrics.CreateHashInRange | GameMap/Structures/HexHash.cs:19-23 | If every draw lies in [0, 1], every hash component lies in [0, 0.999]. |
| HexMetrics.HexMetricsState.constructor | GameMap/Structures/HexMetrics.cs:97 | Before initialisation there is no hash grid (the static field starts null). wrapSize (line 200) starts at 0, so the map does not wrap (`Wrapping` of line 205 is false). |
| HexMetrics.HexMetricsState.SampleHashGrid | GameMap/Structures/HexMetrics.cs:149-158 | Before InitializeHashGrid there is no sample (None, where the source dereferences the null field and throws). Afterwards the sample is the grid entry at the non-negative residues of x and z (modulo 256), laid out row by row. |
| HexMetrics.HexMetricsState.InitializeHashGrid | GameMap/Structures/HexMetrics.cs:134-142 | Installs a freshly allocated grid of exactly 256² slots, so nothing of the old grid survives. Slot i holds the i-th hash drawn after seeding, and every later sample is that slot's hash. wrapSize and Wrapping are unchanged. |
| MeshUtils.Round | Core/MeshUtils.cs:77-79 | Mathf.Round is within one half of its argument, and ties go to the even integer. |
| MeshUtils.RoundedEqualIffSameCell | Core/MeshUtils.cs:76-82 | For a positive tolerance, two vertices share a dictionary key iff they round to the same multiple of the tolerance on all three axes. |
| MeshUtils.FarApartVerticesStayDistinct | Core/MeshUtils.cs:76-82 | Vertices more than one tolerance apart on any of the three axes never share a key. |
| MeshUtils.CloseVerticesAcrossBoundaryStayDistinct | Core/MeshUtils.cs:76-82 | Vertices 0.02 apart on either side of a rounding boundary (tolerance 1) keep different keys, so closeness alone does not merge. |
| MeshUtils.RoundNegation | Core/MeshUtils.cs:77-79 | Mathf.Round is odd: rounding -r gives minus the rounding of r, ties included. |
| MeshUtils.RoundedNegatedTolerance | Core/MeshUtils.cs:76-80 | A negative tolerance gives every vertex the same key as its magnitude does. |
| MeshUtils.Welded | Core/MeshUtils.cs:71-94 | The merged list is never longer than the input, and it is empty iff the input is empty. |
| MeshUtils.WeldedIsFirstOccurrences | Core/MeshUtils.cs:82-91 | The merged list is the input at the strictly increasing positions of the first vertex of each key. These are the original, unrounded vertices, and every first occurrence appears. |
| MeshUtils.WeldedElementsAreInputs | Core/MeshUtils.cs:89 | Every merged vertex is one of the input vertices, unchanged. |
| MeshUtils.WeldedKeysDistinct | Core/MeshUtils.cs:82-91 | The keys of the merged vertices are pairwise distinct. |
| MeshUtils.WeldedCoversKeys | Core/MeshUtils.cs:82-91 | Every input key is the key of some merged vertex. |
| MeshUtils.WeldDistinctIsIdentity | Core/MeshUtils.cs:73-94 | A vertex list whose keys are already distinct is returned unchanged. |
| MeshUtils.WeldIdempotent | Core/MeshUtils.cs:73-94 | Welding the output of a welding changes nothing. |
| MeshUtils.WeldedNegatedTolerance | Core/MeshUtils.cs:73-94 | Welding with a negative tolerance merges exactly as welding with its magnitude. |
| MeshUtils.LastIndexOfKey | Core/MeshUtils.cs:102-110 | The dictionary built over the merged vertices, where later writes overwrite earlier ones, holds the last index with a given key. It has no entry iff no merged vertex has that key. |
| MeshUtils.LastIndexOfKeyAppend | Core/MeshUtils.cs:109 | Storing a vertex makes it the entry for its own key and leaves every other key's entry unchanged. |
| MeshUtils.VertexMap | Core/MeshUtils.cs:112-120 | The remap table has one entry per original vertex. Each entry is an in-bounds merged index whose vertex has the original vertex's key. |
| MeshUtils.WeldVertexMapSound | Core/MeshUtils.cs:100-120 | When mapping onto its own welding, every lookup succeeds (no KeyNotFoundException) and entries are in bounds with matching keys. Two vertices share an entry iff they share a key. |
| MeshUtils.ReweldMapIsIdentity | Core/MeshUtils.cs:97-123 | Remapping an already welded list onto itself maps every vertex to its own index. |
| MeshUtils.MergeVertices | Core/MeshUtils.cs:68-95 | The loop with its dictionary returns a newly allocated array that is exactly the welded list of the input. |
| MeshUtils.MapVertices | Core/MeshUtils.cs:97-123 | The table is a newly allocated array with the input's length. The method succeeds iff every original key is among the merged keys (otherwise the source throws), and on success the table is the remap table. |
| MeshUtils.MapTriangles | Core/MeshUtils.cs:125-135 | The output is a newly allocated array (never the input itself) with the input's length. The method succeeds iff every index is within the table (otherwise the source throws), and then `newTriangles[i] == vertexMap[triangles[i]]`. |
| MeshUtils.Weld | Core/MeshUtils.cs:28-35 | For the composition, both returned arrays are newly allocated, and the merged vertices are the welded list. When the original indices are in bounds, the new ones are too, each names a merged vertex with the replaced vertex's key, and two new indices coincide iff the replaced vertices share a key. |
| MapMeshGeometry.RingLength | GameMap/MapMesh.cs:63-77 | A ring of m vertices appends m chunks of c values each, m · c in all. |
| MapMeshGeometry.RingAt | GameMap/MapMesh.cs:63-77 | Value t of vertex j's chunk sits at j · c + t in the ring. |
| MapMeshGeometry.GridLength | GameMap/MapMesh.cs:56-77 | n rings of r vertices with c values each give n · (r · c) values. |
| MapMeshGeometry.GridAt | GameMap/MapMesh.cs:56-77 | Value t of vertex (i, j) sits at i · (r · c) + j · c + t. |
| MapMeshGeometry.GridAtVertex | GameMap/MapMesh.cs:56-77 | Value t of vertex (i, j) sits at c · VertexIndex(i, j) + t, within the list. |
| MapMeshGeometry.BandPrefixFacts | GameMap/MapMesh.cs:80-89 | The first m quads of band i are 6m indices, all in rings i - 1 and i. |
| MapMeshGeometry.QuadInRing | GameMap/MapMesh.cs:82-88 | An inner quad is the six indices the source appends, written with prevRow and thisRow. |
| MapMeshGeometry.SeamQuad | GameMap/MapMesh.cs:92-101 | The seam quad is the six indices the source appends. Its second triangle reaches column 0 of ring i as prevRow + radialSegments, which is thisRow. |
| MapMeshGeometry.BandStep | GameMap/MapMesh.cs:80-89 | Appending the quad behind column j extends the current band by exactly that quad. |
| MapMeshGeometry.SeamFinishesBand | GameMap/MapMesh.cs:92-101 | The inner quads followed by the seam quad make a complete band, and the bands follow one another. |
| MapMeshGeometry.SeamStep | GameMap/MapMesh.cs:92-101 | Closing band i with its seam quad completes bands 1 .. i. |
| MapMeshGeometry.BandsLength | GameMap/MapMesh.cs:80-101 | Ring 0 emits no indices and each later ring emits 6 · radialSegments, so the total is 6 · rings · radialSegments, a multiple of 3. |
| MapMeshGeometry.BandsInBounds | GameMap/MapMesh.cs:82-100 | Every index of bands 1 .. n is in [0, (n + 1) · radialSegments). |
| MapMeshGeometry.QuadTrianglesProper | GameMap/MapMesh.cs:82-88 | With at least two columns, each triangle of a quad has three distinct vertex indices. The positions may still coincide: every vertex of ring 0 sits at a pole, and every vertex of the last ring sits at, or within float error of, the other pole. |
| MapMeshGeometry.QuadRefersToAppendedVertices | GameMap/MapMesh.cs:70-100 | Every index of quad k of band i is below the number of vertices in the list when that quad is appended: VertexIndex(i, k + 1) + 1 for an inner quad (appended right after vertex k + 1), and VertexIndex(i + 1, 0) for the seam quad (appended after the whole ring). AddQuad and CloseBand turn this into a bound on the list itself. |
| MapMeshGeometry.SphereArraysConsistent | GameMap/MapMesh.cs:45-106 | Starting from empty lists, the sphere has (rings + 1) · radialSegments vertices, normals and uvs, four times as many custom floats, a multiple of 3 indices, and every index names a vertex. |
| MapMeshGeometry.VertexIndexNamesVertex | GameMap/MapMesh.cs:69-77 | Slot ring · radialSegments + column holds that vertex's position, its normalised position as the normal, and its uv (column / radialSegments, ring / rings). |
| MapMeshGeometry.CustomFloatsOfVertex | GameMap/MapMesh.cs:72-75 | The custom floats of vertex (i, j) are 1 - sin, sin, 0 and 1, starting at 4 · its index. |
| MapMeshGeometry.MapMesh.constructor | GameMap/MapMesh.cs:7-15 | 50 rings, 50 radial segments, radius 1, and all five lists empty, which establishes `Valid()`. |
| MapMeshGeometry.MapMesh.AddVertex | GameMap/MapMesh.cs:69-77 | One iteration's vertex data: the position, normal, four custom floats and uv of vertex (i, j) are appended, and the index list is unchanged. |
| MapMeshGeometry.MapMesh.AddQuad | GameMap/MapMesh.cs:80-89 | Appends the quad behind column j, or nothing in ring 0 or column 0. Given that vertex (i, j) is in the vertex list, every index it appends is below the list's current length. The vertex lists are unchanged. |
| MapMeshGeometry.MapMesh.AddColumn | GameMap/MapMesh.cs:65-89 | One pass of the inner loop appends vertex (i, j) and then the quad behind column j. Ring i's data and band grow by exactly that column, the vertex list by one, and every appended index is below the vertex list's new length. |
| MapMeshGeometry.MapMesh.AddRing | GameMap/MapMesh.cs:63-90 | The inner loop appends ring i's vertex data and its inner quads. The vertex list grows by radialSegments and point advances by as much. The ring starts at thisRow, and prevRow is the start of ring i - 1. |
| MapMeshGeometry.MapMesh.CloseBand | GameMap/MapMesh.cs:92-101 | Appends the seam quad of band i, or nothing for ring 0. Given that ring i is complete in the vertex list, every index it appends is below the list's current length. |
| MapMeshGeometry.MapMesh.CreateGeometry | GameMap/MapMesh.cs:45-106 | Appends rings 0 .. rings of vertex data to the four vertex lists and bands 1 .. rings to the index list. Its loop keeps, at the start of ring i, prevRow = (i - 1) · radialSegments for i ≥ 1, thisRow = i · radialSegments, and point = thisRow. |

## Left out

- HexMetrics.CreateHash is the model's definition of `HexHash.Create` (GameMap/Structures/HexHash.cs:16-25): five consecutive draws of `randf(seed, ·)`, each times 0.999. Its ensures only spell out that definition. The range the source promises is proved in `CreateHashInRange`.
- The public `MergeVertices(Mesh)` (Core/MeshUtils.cs:17-66) reads and writes Godot surface arrays, which is a foreign API. Only its composition of the three private steps is modelled, as `MeshUtils.Weld`.
- Floating-point rounding is not modelled: positions, tolerances and quotients are exact reals. Keys are `Round(v / tolerance) · tolerance` computed exactly, so two float keys that would compare equal only through rounding error are not captured.
- A tolerance of zero is excluded. In the source every key is then NaN: `Mathf.Round(v / 0)` is infinite or NaN, and either one times 0 is NaN. How the dictionaries then treat NaN keys depends on Godot's `Vector3` equality, which is not part of this model. A negative tolerance is modelled: it welds exactly as its magnitude does (`WeldedNegatedTolerance`).
- The sine/cosine values in `CreateGeometry` (positions, `edgeBlend`) and `Vector3.Normalized` are function parameters. The radius reaches the model only through the positions these parameters supply.
- `SampleNoise` and `Perturb` (GameMap/Structures/HexMetrics.cs:109-128,177-183) read texture pixels and do float interpolation.
- The float scaling and truncation `(int)(position.x * hashGridScale)` at GameMap/Structures/HexMetrics.cs:151 are not modelled. `SampleHashGrid` takes the truncated integers as its inputs.
- The generator state save and restore around `InitializeHashGrid` (GameMap/Structures/HexMetrics.cs:137-141) is not modelled. The generator is a parameter `randf(seed, k)`, the k-th draw after seeding. That every hash depends only on the seed is built into this parameter, not proved. The source seeds `Random.InitState(seed)` (line 138) but draws with `GD.Randf()` (GameMap/Structures/HexHash.cs:19-23). Whether these are one generator lies outside the visible code; if not, the grid is not reproducible from the seed.
- The solid, water, bridge and edge-middle corner functions of GameMap/Structures/HexMetrics.cs are not modelled. They are float scalings of the corner table.
- The commented-out `GetEdgeType` in GameMap/Structures/HexMetrics.cs is dead code.
- HexMetrics.HexMetricsState.Wrapping is the one-line definition at GameMap/Structures/HexMetrics.cs:205, `wrapSize > 0`, with nothing further to prove. The constructor and InitializeHashGrid state its value.
- `MapMesh._Ready` and `_Process` are not modelled. They upload the surface and handle the scene lifecycle.
- `GameMap/Lightning.cs`, the interfaces under GameMap/Interfaces and `GameMap/HexCell.cs` are not modelled. They hold no logic beyond signatures and engine hooks.
- MapMeshGeometry.MapMesh.CreateGeometry does not model 32-bit overflow of the `thisRow`/`prevRow`/`point` counters or of the indices. These stay far below 2^31 for the 50 × 50 sphere the node builds.
- In MapMeshGeometry.MapMesh.CreateGeometry, helper methods replace inline code. The inner loop (GameMap/MapMesh.cs:63-89) is `AddRing`; its body is `AddColumn`, made of `AddVertex` and `AddQuad`. The seam block (92-101) is `CloseBand`. The appends keep the same order.
- MeshUtils.Round and MeshUtils.RoundedEqualIffSameCell follow the code, not the expectation that any two vertices within half a tolerance of each other merge. Two vertices close together but on either side of a rounding boundary keep different keys (`CloseVerticesAcrossBoundaryStayDistinct`).

## Findings

| source | as written | input that shows it | evidently intended | confidence | as-written member | corrected member |
|---|---|---|---|---|---|---|
| GameMap/Structures/HexHelper.cs:19-21 | `elevation2 - elevation1` is computed in 32-bit `int`, which wraps on overflow | elevation1 = -2147483648, elevation2 = 2147483647: the wrapped difference is -1, so the result is Slope | Cliff, since the elevations are 2^32 - 1 apart | low (elevations that far apart do not occur in a game map); not executed | HexHelper.Int32EdgeTypeMisclassifiesExtremes | HexHelper.GetEdgeType |
