/**
 * MeshUtils: welding the vertices of a triangle mesh. Vertices whose
 * positions round to the same multiple of a tolerance are merged into the
 * first of them; the index buffer is rewritten to point at the survivors.
 */
module MeshUtils {
  import opened Vectors
  import opened Wrappers

  // ---------------------------------------------------------------------
  // Quantisation

  /**
   * Mathf.Round: the nearest integer, halves going to the even neighbour
   * (MidpointRounding.ToEven).
   */
  function Round(r: real): (n: int)
    ensures -0.5 <= n as real - r <= 0.5
    ensures (n as real - r == 0.5 || r - n as real == 0.5) ==> n % 2 == 0
  {
    var f := r.Floor;
    var frac := r - f as real;
    if frac < 0.5 then f
    else if frac > 0.5 then f + 1
    else if f % 2 == 0 then f
    else f + 1
  }

  /** The dictionary key of a vertex: each coordinate rounded to a multiple of the tolerance. */
  function Rounded(v: Vector3, tolerance: real): Vector3
    requires tolerance != 0.0
  {
    Vector3(Round(v.x / tolerance) as real * tolerance,
            Round(v.y / tolerance) as real * tolerance,
            Round(v.z / tolerance) as real * tolerance)
  }

  lemma ScaleInjective(a: int, b: int, tolerance: real)
    requires tolerance > 0.0
    ensures a as real * tolerance == b as real * tolerance <==> a == b
  {
    if a < b {
      assert (b - a) as real * tolerance > 0.0;
    } else if b < a {
      assert (a - b) as real * tolerance > 0.0;
    }
  }

  /**
   * Two vertices share a key exactly when they fall in the same rounding cell
   * on every axis (for a negative tolerance, see RoundedNegatedTolerance).
   */
  lemma RoundedEqualIffSameCell(v: Vector3, w: Vector3, tolerance: real)
    requires tolerance > 0.0
    ensures Rounded(v, tolerance) == Rounded(w, tolerance) <==>
      && Round(v.x / tolerance) == Round(w.x / tolerance)
      && Round(v.y / tolerance) == Round(w.y / tolerance)
      && Round(v.z / tolerance) == Round(w.z / tolerance)
  {
    ScaleInjective(Round(v.x / tolerance), Round(w.x / tolerance), tolerance);
    ScaleInjective(Round(v.y / tolerance), Round(w.y / tolerance), tolerance);
    ScaleInjective(Round(v.z / tolerance), Round(w.z / tolerance), tolerance);
  }

  /** Vertices more than one tolerance apart on any axis are never merged. */
  lemma FarApartVerticesStayDistinct(v: Vector3, w: Vector3, tolerance: real)
    requires tolerance > 0.0
    requires || v.x - w.x > tolerance || w.x - v.x > tolerance
             || v.y - w.y > tolerance || w.y - v.y > tolerance
             || v.z - w.z > tolerance || w.z - v.z > tolerance
    ensures Rounded(v, tolerance) != Rounded(w, tolerance)
  {
    RoundedEqualIffSameCell(v, w, tolerance);
    if v.x - w.x > tolerance {
      QuotientGap(v.x, w.x, tolerance);
    } else if w.x - v.x > tolerance {
      QuotientGap(w.x, v.x, tolerance);
    } else if v.y - w.y > tolerance {
      QuotientGap(v.y, w.y, tolerance);
    } else if w.y - v.y > tolerance {
      QuotientGap(w.y, v.y, tolerance);
    } else if v.z - w.z > tolerance {
      QuotientGap(v.z, w.z, tolerance);
    } else {
      QuotientGap(w.z, v.z, tolerance);
    }
  }

  /** Numbers more than one tolerance apart round to different multiples of it. */
  lemma QuotientGap(a: real, b: real, t: real)
    requires t > 0.0 && a - b > t
    ensures Round(a / t) != Round(b / t)
  {
    assert a / t - b / t == (a - b) / t;
    assert (a - b) / t > 1.0 by {
      assert (a - b) / t * t == a - b;
    }
  }

  /**
   * Closeness alone does not merge: two vertices 0.02 apart on either side of
   * a rounding boundary keep different keys.
   */
  lemma CloseVerticesAcrossBoundaryStayDistinct()
    ensures Rounded(Vector3(0.49, 0.0, 0.0), 1.0) != Rounded(Vector3(0.51, 0.0, 0.0), 1.0)
  {
    assert Round(0.49) == 0;
    assert Round(0.51) == 1;
  }

  /** Mathf.Round is odd: ties to even are symmetric about zero. */
  lemma RoundNegation(r: real)
    ensures Round(-r) == -Round(r)
  {
    var f := r.Floor;
    if r == f as real {
      assert (-r).Floor == -f;
    } else {
      assert (-r).Floor == -f - 1;
    }
  }

  /**
   * A negative tolerance gives the same keys as its magnitude: v / -t is
   * -(v / t), which rounds to the negated integer, and the product with -t
   * cancels both signs.
   */
  lemma RoundedNegatedTolerance(v: Vector3, tolerance: real)
    requires tolerance != 0.0
    ensures Rounded(v, -tolerance) == Rounded(v, tolerance)
  {
    NegatedScale(v.x, tolerance);
    NegatedScale(v.y, tolerance);
    NegatedScale(v.z, tolerance);
  }

  /** One coordinate of RoundedNegatedTolerance. */
  lemma NegatedScale(c: real, tolerance: real)
    requires tolerance != 0.0
    ensures Round(c / -tolerance) as real * -tolerance == Round(c / tolerance) as real * tolerance
  {
    var q := c / tolerance;
    assert c / -tolerance == -q;
    RoundNegation(q);
    assert Round(-q) as real == -(Round(q) as real);
  }

  // ---------------------------------------------------------------------
  // What MergeVertices computes

  /** No earlier vertex of vs has the key of vs[i]. */
  predicate IsFirst(vs: seq<Vector3>, i: int, tolerance: real)
    requires tolerance != 0.0 && 0 <= i < |vs|
  {
    forall j :: 0 <= j < i ==> Rounded(vs[j], tolerance) != Rounded(vs[i], tolerance)
  }

  /** The vertices of vs that are the first of their key, in order. */
  function Welded(vs: seq<Vector3>, tolerance: real): (w: seq<Vector3>)
    requires tolerance != 0.0
    ensures |w| <= |vs|
    ensures |w| == 0 <==> |vs| == 0
    decreases |vs|
  {
    if vs == [] then []
    else
      var w := Welded(vs[..|vs| - 1], tolerance);
      if IsFirst(vs, |vs| - 1, tolerance) then w + [vs[|vs| - 1]] else w
  }

  /** Indices of vs holding the first vertex of their key, in increasing order. */
  function FirstPositions(vs: seq<Vector3>, tolerance: real): (p: seq<int>)
    requires tolerance != 0.0
    decreases |vs|
  {
    if vs == [] then []
    else
      var p := FirstPositions(vs[..|vs| - 1], tolerance);
      if IsFirst(vs, |vs| - 1, tolerance) then p + [|vs| - 1] else p
  }

  predicate DistinctKeys(vs: seq<Vector3>, tolerance: real)
    requires tolerance != 0.0
  {
    forall a, b :: 0 <= a < b < |vs| ==> Rounded(vs[a], tolerance) != Rounded(vs[b], tolerance)
  }

  /** Whether some vertex of vs has key k. */
  predicate HasKey(vs: seq<Vector3>, k: Vector3, tolerance: real)
    requires tolerance != 0.0
  {
    exists j :: 0 <= j < |vs| && Rounded(vs[j], tolerance) == k
  }

  lemma IsFirstOfPrefix(vs: seq<Vector3>, m: int, i: int, tolerance: real)
    requires tolerance != 0.0 && 0 <= i < m <= |vs|
    ensures IsFirst(vs[..m], i, tolerance) == IsFirst(vs, i, tolerance)
  {
    assert forall j :: 0 <= j <= i ==> vs[..m][j] == vs[j];
  }

  /**
   * The welded vertices are exactly the first vertex of each key, in the order
   * of their first occurrence: Welded(vs) lists vs at FirstPositions(vs),
   * which increase strictly and contain every first-occurrence index.
   */
  lemma {:induction false} WeldedIsFirstOccurrences(vs: seq<Vector3>, tolerance: real)
    requires tolerance != 0.0
    ensures var w, p := Welded(vs, tolerance), FirstPositions(vs, tolerance);
      && |p| == |w|
      && (forall k :: 0 <= k < |p| ==> 0 <= p[k] < |vs| && w[k] == vs[p[k]] && IsFirst(vs, p[k], tolerance))
      && (forall k1, k2 :: 0 <= k1 < k2 < |p| ==> p[k1] < p[k2])
      && (forall i :: 0 <= i < |vs| && IsFirst(vs, i, tolerance) ==> i in p)
    decreases |vs|
  {
    if vs != [] {
      var n := |vs| - 1;
      var pre := vs[..n];
      WeldedIsFirstOccurrences(pre, tolerance);
      var w, p := Welded(pre, tolerance), FirstPositions(pre, tolerance);
      var W, P := Welded(vs, tolerance), FirstPositions(vs, tolerance);
      assert pre == vs[..|vs| - 1];
      forall k | 0 <= k < |p|
        ensures IsFirst(vs, p[k], tolerance) && vs[p[k]] == pre[p[k]]
      {
        IsFirstOfPrefix(vs, n, p[k], tolerance);
      }
      forall i | 0 <= i < n && IsFirst(vs, i, tolerance)
        ensures i in p
      {
        IsFirstOfPrefix(vs, n, i, tolerance);
      }
      if IsFirst(vs, n, tolerance) {
        assert W == w + [vs[n]] && P == p + [n];
        forall k | 0 <= k < |P|
          ensures 0 <= P[k] < |vs| && W[k] == vs[P[k]] && IsFirst(vs, P[k], tolerance)
        {
          if k < |p| {
            assert P[k] == p[k] && W[k] == w[k];
          }
        }
        forall i | 0 <= i < |vs| && IsFirst(vs, i, tolerance)
          ensures i in P
        {
          if i < n {
            assert i in p;
          } else {
            assert P[|p|] == i;
          }
        }
      } else {
        assert W == w && P == p;
      }
    }
  }

  /** Every welded vertex is one of the input vertices, unchanged. */
  lemma WeldedElementsAreInputs(vs: seq<Vector3>, tolerance: real, k: int)
    requires tolerance != 0.0 && 0 <= k < |Welded(vs, tolerance)|
    ensures exists i :: 0 <= i < |vs| && Welded(vs, tolerance)[k] == vs[i]
  {
    WeldedIsFirstOccurrences(vs, tolerance);
    var i := FirstPositions(vs, tolerance)[k];
    assert Welded(vs, tolerance)[k] == vs[i];
  }

  /** No two welded vertices share a key. */
  lemma {:induction false} WeldedKeysDistinct(vs: seq<Vector3>, tolerance: real)
    requires tolerance != 0.0
    ensures DistinctKeys(Welded(vs, tolerance), tolerance)
    decreases |vs|
  {
    if vs != [] {
      var n := |vs| - 1;
      var pre := vs[..n];
      WeldedKeysDistinct(pre, tolerance);
      var w := Welded(pre, tolerance);
      if IsFirst(vs, n, tolerance) {
        forall k | 0 <= k < |w|
          ensures Rounded(w[k], tolerance) != Rounded(vs[n], tolerance)
        {
          WeldedElementsAreInputs(pre, tolerance, k);
        }
      }
    }
  }

  /** A key present in a list stays present in any extension of it. */
  lemma HasKeyExtends(a: seq<Vector3>, b: seq<Vector3>, k: Vector3, tolerance: real)
    requires tolerance != 0.0 && a <= b && HasKey(a, k, tolerance)
    ensures HasKey(b, k, tolerance)
  {
    var j :| 0 <= j < |a| && Rounded(a[j], tolerance) == k;
    assert b[j] == a[j];
  }

  /** Every key of the input is the key of some welded vertex. */
  lemma {:induction false} WeldedCoversKeys(vs: seq<Vector3>, tolerance: real)
    requires tolerance != 0.0
    ensures forall i :: 0 <= i < |vs| ==> HasKey(Welded(vs, tolerance), Rounded(vs[i], tolerance), tolerance)
    decreases |vs|
  {
    if vs != [] {
      var n := |vs| - 1;
      var pre := vs[..n];
      WeldedCoversKeys(pre, tolerance);
      var w, wpre := Welded(vs, tolerance), Welded(pre, tolerance);
      assert pre == vs[..|vs| - 1];
      assert wpre <= w;
      forall i | 0 <= i < |vs|
        ensures HasKey(w, Rounded(vs[i], tolerance), tolerance)
      {
        if i < n {
          assert vs[i] == pre[i];
          HasKeyExtends(wpre, w, Rounded(vs[i], tolerance), tolerance);
        } else if IsFirst(vs, n, tolerance) {
          assert w[|w| - 1] == vs[n];
        } else {
          var j :| 0 <= j < n && Rounded(vs[j], tolerance) == Rounded(vs[n], tolerance);
          assert vs[j] == pre[j];
          HasKeyExtends(wpre, w, Rounded(vs[j], tolerance), tolerance);
        }
      }
    }
  }

  /** A vertex list whose keys are already distinct is left as it is. */
  lemma {:induction false} WeldDistinctIsIdentity(vs: seq<Vector3>, tolerance: real)
    requires tolerance != 0.0 && DistinctKeys(vs, tolerance)
    ensures Welded(vs, tolerance) == vs
    decreases |vs|
  {
    if vs != [] {
      var n := |vs| - 1;
      assert DistinctKeys(vs[..n], tolerance);
      WeldDistinctIsIdentity(vs[..n], tolerance);
      assert IsFirst(vs, n, tolerance);
      assert vs[..n] + [vs[n]] == vs;
    }
  }

  /** Welding is idempotent: welding welded vertices changes nothing. */
  lemma WeldIdempotent(vs: seq<Vector3>, tolerance: real)
    requires tolerance != 0.0
    ensures Welded(Welded(vs, tolerance), tolerance) == Welded(vs, tolerance)
  {
    WeldedKeysDistinct(vs, tolerance);
    WeldDistinctIsIdentity(Welded(vs, tolerance), tolerance);
  }

  /** Welding with a negative tolerance merges exactly as with its magnitude. */
  lemma {:induction false} WeldedNegatedTolerance(vs: seq<Vector3>, tolerance: real)
    requires tolerance != 0.0
    ensures Welded(vs, -tolerance) == Welded(vs, tolerance)
    decreases |vs|
  {
    if vs != [] {
      var n := |vs| - 1;
      WeldedNegatedTolerance(vs[..n], tolerance);
      IsFirstNegatedTolerance(vs, n, tolerance);
    }
  }

  lemma IsFirstNegatedTolerance(vs: seq<Vector3>, i: int, tolerance: real)
    requires tolerance != 0.0 && 0 <= i < |vs|
    ensures IsFirst(vs, i, -tolerance) == IsFirst(vs, i, tolerance)
  {
    RoundedNegatedTolerance(vs[i], tolerance);
    forall j | 0 <= j < i
      ensures Rounded(vs[j], -tolerance) == Rounded(vs[j], tolerance)
    {
      RoundedNegatedTolerance(vs[j], tolerance);
    }
  }

  // ---------------------------------------------------------------------
  // What MapVertices and MapTriangles compute

  /**
   * The index that the dictionary built from merged (a later vertex
   * overwriting an earlier one) holds for key k: the last vertex with that
   * key, or None when no vertex has it.
   */
  function LastIndexOfKey(merged: seq<Vector3>, k: Vector3, tolerance: real): (r: Option<int>)
    requires tolerance != 0.0
    ensures r.None? <==> !HasKey(merged, k, tolerance)
    ensures r.Some? ==> 0 <= r.value < |merged| && Rounded(merged[r.value], tolerance) == k
    ensures r.Some? ==> forall j :: r.value < j < |merged| ==> Rounded(merged[j], tolerance) != k
    decreases |merged|
  {
    if merged == [] then None
    else if Rounded(merged[|merged| - 1], tolerance) == k then Some(|merged| - 1)
    else
      var r := LastIndexOfKey(merged[..|merged| - 1], k, tolerance);
      assert forall j :: 0 <= j < |merged| - 1 ==> merged[..|merged| - 1][j] == merged[j];
      r
  }

  /** Appending a vertex makes it the answer for its own key and changes no other key. */
  lemma LastIndexOfKeyAppend(s: seq<Vector3>, v: Vector3, tolerance: real)
    requires tolerance != 0.0
    ensures forall k ::
      LastIndexOfKey(s + [v], k, tolerance) ==
      (if Rounded(v, tolerance) == k then Some(|s|) else LastIndexOfKey(s, k, tolerance))
  {
    assert (s + [v])[..|s|] == s;
  }

  /** Every original vertex has its key among the merged vertices, so no lookup fails. */
  predicate KeysPresent(original: seq<Vector3>, merged: seq<Vector3>, tolerance: real)
    requires tolerance != 0.0
  {
    forall i :: 0 <= i < |original| ==> HasKey(merged, Rounded(original[i], tolerance), tolerance)
  }

  /** The remap table: for each original vertex, the merged vertex its key looks up. */
  function VertexMap(original: seq<Vector3>, merged: seq<Vector3>, tolerance: real): (m: seq<int>)
    requires tolerance != 0.0 && KeysPresent(original, merged, tolerance)
    ensures |m| == |original|
    ensures forall i :: 0 <= i < |m| ==>
      0 <= m[i] < |merged| && Rounded(merged[m[i]], tolerance) == Rounded(original[i], tolerance)
  {
    seq(|original|, i requires 0 <= i < |original| =>
      LastIndexOfKey(merged, Rounded(original[i], tolerance), tolerance).value)
  }

  /** In a vertex list with distinct keys, each key looks up its own vertex. */
  lemma LookupDistinct(merged: seq<Vector3>, j: int, tolerance: real)
    requires tolerance != 0.0 && DistinctKeys(merged, tolerance) && 0 <= j < |merged|
    ensures LastIndexOfKey(merged, Rounded(merged[j], tolerance), tolerance) == Some(j)
  {
    var r := LastIndexOfKey(merged, Rounded(merged[j], tolerance), tolerance);
    assert HasKey(merged, Rounded(merged[j], tolerance), tolerance);
  }

  /**
   * Mapping vertices onto their own welding: every lookup succeeds, the table
   * has one entry per original vertex, each entry is in bounds and names a
   * merged vertex with the same key, and two original vertices share an
   * entry exactly when they share a key.
   */
  lemma WeldVertexMapSound(vs: seq<Vector3>, tolerance: real)
    requires tolerance != 0.0
    ensures KeysPresent(vs, Welded(vs, tolerance), tolerance)
    ensures var w := Welded(vs, tolerance);
      var m := VertexMap(vs, w, tolerance);
      && |m| == |vs|
      && (forall i :: 0 <= i < |vs| ==> 0 <= m[i] < |w| && Rounded(w[m[i]], tolerance) == Rounded(vs[i], tolerance))
      && (forall i, j :: 0 <= i < |vs| && 0 <= j < |vs| ==>
            (m[i] == m[j] <==> Rounded(vs[i], tolerance) == Rounded(vs[j], tolerance)))
  {
    WeldedCoversKeys(vs, tolerance);
    WeldedKeysDistinct(vs, tolerance);
  }

  /**
   * Welding an already welded vertex list maps every vertex to itself, so the
   * index buffer comes out of a second welding unchanged.
   */
  lemma ReweldMapIsIdentity(vs: seq<Vector3>, tolerance: real)
    requires tolerance != 0.0
    ensures var w := Welded(vs, tolerance);
      KeysPresent(w, w, tolerance) && forall i :: 0 <= i < |w| ==> VertexMap(w, w, tolerance)[i] == i
  {
    var w := Welded(vs, tolerance);
    WeldedKeysDistinct(vs, tolerance);
    forall i | 0 <= i < |w|
      ensures LastIndexOfKey(w, Rounded(w[i], tolerance), tolerance) == Some(i)
    {
      LookupDistinct(w, i, tolerance);
    }
  }

  /** Whether every index of the buffer addresses a slot of a table of length n. */
  predicate IndicesInBounds(triangles: seq<int>, n: int) {
    forall i :: 0 <= i < |triangles| ==> 0 <= triangles[i] < n
  }

  // ---------------------------------------------------------------------
  // The methods

  /**
   * MeshUtils.cs lines 68-95: one pass over the vertices with a dictionary of the keys seen
   * so far; a vertex whose key is new is appended to the merged list.
   */
  method MergeVertices(vertices: array<Vector3>, tolerance: real) returns (merged: array<Vector3>)
    requires tolerance != 0.0
    ensures fresh(merged)
    ensures merged[..] == Welded(vertices[..], tolerance)
  {
    var hash: map<Vector3, int> := map[];
    var mergedVertices: seq<Vector3> := [];
    for originalVertexIndex := 0 to vertices.Length
      invariant mergedVertices == Welded(vertices[..originalVertexIndex], tolerance)
      invariant forall k :: k in hash <==> HasKey(vertices[..originalVertexIndex], k, tolerance)
    {
      var originalVertex := vertices[originalVertexIndex];
      var roundedVertex := Rounded(originalVertex, tolerance);
      ghost var seen := vertices[..originalVertexIndex + 1];
      assert seen[..originalVertexIndex] == vertices[..originalVertexIndex];
      assert forall j :: 0 <= j <= originalVertexIndex ==> seen[j] == vertices[j];
      if roundedVertex in hash {
        assert !IsFirst(seen, originalVertexIndex, tolerance);
      } else {
        var mergedVertexIndex := |mergedVertices|;
        mergedVertices := mergedVertices + [originalVertex];
        hash := hash[roundedVertex := mergedVertexIndex];
      }
    }
    assert vertices[..vertices.Length] == vertices[..];
    merged := new Vector3[|mergedVertices|](i requires 0 <= i < |mergedVertices| => mergedVertices[i]);
  }

  /**
   * MeshUtils.cs lines 97-123: a dictionary from the keys of the merged vertices (a later
   * vertex overwriting an earlier one), then one lookup per original vertex.
   * ok is false when a lookup misses, where the source throws
   * KeyNotFoundException.
   */
  method MapVertices(originalVertices: array<Vector3>, mergedVertices: array<Vector3>, tolerance: real)
    returns (vertexMap: array<int>, ok: bool)
    requires tolerance != 0.0
    ensures fresh(vertexMap)
    ensures vertexMap.Length == originalVertices.Length
    ensures ok <==> KeysPresent(originalVertices[..], mergedVertices[..], tolerance)
    ensures ok ==> vertexMap[..] == VertexMap(originalVertices[..], mergedVertices[..], tolerance)
  {
    var hash: map<Vector3, int> := map[];
    vertexMap := new int[originalVertices.Length];

    for i := 0 to mergedVertices.Length
      invariant forall k {:trigger LastIndexOfKey(mergedVertices[..i], k, tolerance)} ::
        LastIndexOfKey(mergedVertices[..i], k, tolerance) ==
        (if k in hash then Some(hash[k]) else None)
    {
      var mergedVertex := mergedVertices[i];
      var roundedVertex := Rounded(mergedVertex, tolerance);
      assert mergedVertices[..i + 1] == mergedVertices[..i] + [mergedVertex];
      LastIndexOfKeyAppend(mergedVertices[..i], mergedVertex, tolerance);
      hash := hash[roundedVertex := i];
    }
    assert mergedVertices[..mergedVertices.Length] == mergedVertices[..];
    ghost var merged, original := mergedVertices[..], originalVertices[..];
    assert forall k {:trigger LastIndexOfKey(merged, k, tolerance)} ::
      LastIndexOfKey(merged, k, tolerance) == (if k in hash then Some(hash[k]) else None);

    for i := 0 to originalVertices.Length
      invariant forall j :: 0 <= j < i ==>
        Rounded(original[j], tolerance) in hash && vertexMap[j] == hash[Rounded(original[j], tolerance)]
    {
      var originalVertex := originalVertices[i];
      assert originalVertex == original[i];
      var roundedVertex := Rounded(originalVertex, tolerance);
      if roundedVertex !in hash {
        assert LastIndexOfKey(merged, roundedVertex, tolerance).None?;
        ok := false;
        return;
      }
      vertexMap[i] := hash[roundedVertex];
    }
    forall j | 0 <= j < |original|
      ensures vertexMap[j] == LastIndexOfKey(merged, Rounded(original[j], tolerance), tolerance).value
    {
      assert LastIndexOfKey(merged, Rounded(original[j], tolerance), tolerance).Some?;
    }
    ok := true;
  }

  /**
   * MeshUtils.cs lines 125-135: the index buffer rewritten through the remap table, one
   * entry per index. ok is false when an index falls outside the table,
   * where the source throws IndexOutOfRangeException.
   */
  method MapTriangles(triangles: array<int>, vertexMap: array<int>) returns (newTriangles: array<int>, ok: bool)
    ensures fresh(newTriangles)
    ensures newTriangles.Length == triangles.Length
    ensures ok <==> IndicesInBounds(triangles[..], vertexMap.Length)
    ensures ok ==> forall i :: 0 <= i < triangles.Length ==> newTriangles[i] == vertexMap[triangles[i]]
  {
    newTriangles := new int[triangles.Length];
    for i := 0 to triangles.Length
      invariant forall j :: 0 <= j < i ==> 0 <= triangles[j] < vertexMap.Length && newTriangles[j] == vertexMap[triangles[j]]
    {
      if !(0 <= triangles[i] < vertexMap.Length) {
        ok := false;
        return;
      }
      newTriangles[i] := vertexMap[triangles[i]];
    }
    ok := true;
  }

  /**
   * MeshUtils.cs lines 28-35: welding a whole mesh. The merged vertices are the welded
   * list; when every original index is in bounds, the new index buffer has
   * the same length, every entry addresses a merged vertex with the key of
   * the vertex it replaced, and two entries coincide exactly when the
   * vertices they replaced share a key.
   */
  method Weld(vertices: array<Vector3>, triangles: array<int>, tolerance: real)
    returns (mergedVertices: array<Vector3>, newTriangles: array<int>, ok: bool)
    requires tolerance != 0.0
    ensures fresh(mergedVertices) && fresh(newTriangles)
    ensures mergedVertices[..] == Welded(vertices[..], tolerance)
    ensures ok <==> IndicesInBounds(triangles[..], vertices.Length)
    ensures newTriangles.Length == triangles.Length
    ensures ok ==> forall i :: 0 <= i < triangles.Length ==>
      0 <= newTriangles[i] < mergedVertices.Length &&
      Rounded(mergedVertices[newTriangles[i]], tolerance) == Rounded(vertices[triangles[i]], tolerance)
    ensures ok ==> forall i, j :: 0 <= i < triangles.Length && 0 <= j < triangles.Length ==>
      (newTriangles[i] == newTriangles[j] <==>
       Rounded(vertices[triangles[i]], tolerance) == Rounded(vertices[triangles[j]], tolerance))
  {
    mergedVertices := MergeVertices(vertices, tolerance);
    WeldVertexMapSound(vertices[..], tolerance);
    var vertexMap, found := MapVertices(vertices, mergedVertices, tolerance);
    assert found;
    newTriangles, ok := MapTriangles(triangles, vertexMap);
  }
}
