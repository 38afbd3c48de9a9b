/**
 * HexMetrics: the outer-corner table of a hex cell, the hash grid used as a
 * spatially stable pseudo-random source, and the east-west wrap switch.
 * The static fields of the source (hashGrid, wrapSize) become the fields of
 * one HexMetricsState object.
 */
module HexMetrics {
  import opened Vectors
  import opened Wrappers

  // ---------------------------------------------------------------------
  // Corners

  const OuterToInner: real := 0.866025404
  const OuterRadius: real := 10.0
  const InnerRadius: real := OuterRadius * OuterToInner

  /**
   * The six outer corners of a cell, clockwise from the top, with the first
   * corner repeated at the end so that direction d spans corners d and d + 1.
   */
  const Corners: seq<Vector3> := [
    Vector3(0.0, 0.0, OuterRadius),
    Vector3(InnerRadius, 0.0, 0.5 * OuterRadius),
    Vector3(InnerRadius, 0.0, -0.5 * OuterRadius),
    Vector3(0.0, 0.0, -OuterRadius),
    Vector3(-InnerRadius, 0.0, -0.5 * OuterRadius),
    Vector3(-InnerRadius, 0.0, 0.5 * OuterRadius),
    Vector3(0.0, 0.0, OuterRadius)
  ]

  /** The six hex directions NE, E, SE, SW, W, NW as their enum values. */
  type HexDirection = d: int | 0 <= d < 6

  /** The corner on the counter-clockwise side of a direction; it lies in the XZ plane. */
  function GetFirstCorner(direction: HexDirection): (c: Vector3)
    ensures c.y == 0.0
    ensures c == Corners[direction]
  {
    Corners[direction]
  }

  /**
   * The corner on the clockwise side of a direction: the first corner of the
   * next direction, the ring closing from NW back to NE.
   */
  function GetSecondCorner(direction: HexDirection): (c: Vector3)
    ensures c == GetFirstCorner((direction + 1) % 6)
  {
    Corners[direction + 1]
  }

  /** The six directions have six different first corners. */
  lemma FirstCornersDistinct(d1: HexDirection, d2: HexDirection)
    requires d1 != d2
    ensures GetFirstCorner(d1) != GetFirstCorner(d2)
  {
  }

  /** The hexagon is symmetric about the cell centre: opposite directions have opposite corners. */
  lemma OppositeCornersMirror(d: HexDirection)
    ensures GetFirstCorner((d + 3) % 6) == GetFirstCorner(d).Negated()
  {
  }

  // ---------------------------------------------------------------------
  // Hash grid addressing

  const HashGridSize: int := 256

  /**
   * C#'s `c % hashGridSize` on `int`: the remainder truncates toward zero, so
   * it takes the sign of the dividend.
   */
  function TruncatedRemainder(c: int): (r: int)
    ensures -HashGridSize < r < HashGridSize
    ensures c >= 0 ==> r >= 0
    ensures c <= 0 ==> r <= 0
    ensures (c - r) % HashGridSize == 0
  {
    if c >= 0 then c % HashGridSize else -((-c) % HashGridSize)
  }

  /**
   * One scaled and truncated coordinate wrapped into the grid: the truncated
   * remainder, moved up by one grid size when negative. The result is the
   * non-negative residue of the coordinate.
   */
  function WrapHashCoordinate(c: int): (r: int)
    ensures 0 <= r < HashGridSize
    ensures r == c % HashGridSize
  {
    var x := TruncatedRemainder(c);
    if x < 0 then x + HashGridSize else x
  }

  /** The slot of the flat hash array sampled for the scaled coordinates (x, z). */
  function HashGridIndex(x: int, z: int): (i: int)
    ensures 0 <= i < HashGridSize * HashGridSize
  {
    WrapHashCoordinate(x) + WrapHashCoordinate(z) * HashGridSize
  }

  /** Coordinates that differ by whole grid sizes sample the same slot: the hash grid tiles the plane. */
  lemma HashGridIndexPeriodic(x: int, z: int, kx: int, kz: int)
    ensures HashGridIndex(x + kx * HashGridSize, z + kz * HashGridSize) == HashGridIndex(x, z)
  {
    ResidueShift(x, kx);
    ResidueShift(z, kz);
  }

  lemma ResidueShift(c: int, k: int)
    ensures (c + k * HashGridSize) % HashGridSize == c % HashGridSize
  {
    var q := c / HashGridSize;
    var r := c % HashGridSize;
    assert c + k * HashGridSize == (q + k) * HashGridSize + r;
  }

  /**
   * Two coordinate pairs share a slot exactly when they agree modulo the grid
   * size on both axes, so distinct cells of one tile never alias.
   */
  lemma HashGridIndexInjective(x1: int, z1: int, x2: int, z2: int)
    ensures HashGridIndex(x1, z1) == HashGridIndex(x2, z2)
        <==> x1 % HashGridSize == x2 % HashGridSize && z1 % HashGridSize == z2 % HashGridSize
  {
  }

  // ---------------------------------------------------------------------
  // Hash values

  /** Five pseudo-random values per grid slot. */
  datatype HexHash = HexHash(a: real, b: real, c: real, d: real, e: real)

  const HashScale: real := 0.999

  /**
   * HexHash.Create for slot i: it draws five values in a row from the
   * generator and scales each by 0.999. randf(seed, k) is the k-th value the
   * generator yields after being seeded with seed.
   */
  function CreateHash(randf: (int, nat) -> real, seed: int, i: nat): (h: HexHash)
    ensures h.a == randf(seed, 5 * i) * HashScale
    ensures h.b == randf(seed, 5 * i + 1) * HashScale
    ensures h.c == randf(seed, 5 * i + 2) * HashScale
    ensures h.d == randf(seed, 5 * i + 3) * HashScale
    ensures h.e == randf(seed, 5 * i + 4) * HashScale
  {
    HexHash(randf(seed, 5 * i) * HashScale, randf(seed, 5 * i + 1) * HashScale,
            randf(seed, 5 * i + 2) * HashScale, randf(seed, 5 * i + 3) * HashScale,
            randf(seed, 5 * i + 4) * HashScale)
  }

  predicate UnitRange(v: real) {
    0.0 <= v <= 1.0
  }

  predicate HashRange(v: real) {
    0.0 <= v <= HashScale
  }

  /** A generator whose values lie in [0, 1] gives hash components in [0, 0.999]. */
  lemma CreateHashInRange(randf: (int, nat) -> real, seed: int, i: nat)
    requires forall k: nat :: UnitRange(randf(seed, k))
    ensures var h := CreateHash(randf, seed, i);
      HashRange(h.a) && HashRange(h.b) && HashRange(h.c) && HashRange(h.d) && HashRange(h.e)
  {
    assert UnitRange(randf(seed, 5 * i)) && UnitRange(randf(seed, 5 * i + 1));
    assert UnitRange(randf(seed, 5 * i + 2)) && UnitRange(randf(seed, 5 * i + 3));
    assert UnitRange(randf(seed, 5 * i + 4));
  }

  // ---------------------------------------------------------------------
  // The static mutable state of HexMetrics

  class HexMetricsState {
    /** The flat hash grid, null until InitializeHashGrid runs. */
    var hashGrid: array?<HexHash>
    /** Width of the map in cells when east-west wrapping is on, 0 otherwise. */
    var wrapSize: int

    /** A grid, once there is one, has one slot per cell of a 256 x 256 tile. */
    predicate Valid()
      reads this
    {
      hashGrid != null ==> hashGrid.Length == HashGridSize * HashGridSize
    }

    constructor ()
      ensures Valid() && hashGrid == null && wrapSize == 0
      ensures !Wrapping()
    {
      hashGrid := null;
      wrapSize := 0;
    }

    /** Whether the map wraps east-west. */
    predicate Wrapping()
      reads this
    {
      wrapSize > 0
    }

    /**
     * The hash value for a position whose scaled coordinates truncate to
     * (x, z): the slot of the non-negative residues of x and z. None stands
     * for the NullReferenceException of sampling before the grid exists.
     */
    function SampleHashGrid(x: int, z: int): (h: Option<HexHash>)
      reads this, hashGrid
      requires Valid()
      ensures h.None? <==> hashGrid == null
      ensures h.Some? ==> h.value == hashGrid[x % HashGridSize + (z % HashGridSize) * HashGridSize]
    {
      if hashGrid == null then None else Some(hashGrid[HashGridIndex(x, z)])
    }

    /**
     * Replaces the hash grid by a fresh array of HashGridSize^2 slots, slot i
     * holding the i-th hash the generator yields after seeding; nothing of
     * the old grid survives. The wrap switch is left alone.
     */
    method InitializeHashGrid(seed: int, randf: (int, nat) -> real)
      modifies this`hashGrid
      ensures Valid() && hashGrid != null && fresh(hashGrid)
      ensures forall i :: 0 <= i < hashGrid.Length ==> hashGrid[i] == CreateHash(randf, seed, i)
      ensures forall x, z :: SampleHashGrid(x, z) == Some(CreateHash(randf, seed, HashGridIndex(x, z)))
      ensures wrapSize == old(wrapSize) && Wrapping() == old(Wrapping())
    {
      var grid := new HexHash[HashGridSize * HashGridSize];
      for i := 0 to grid.Length
        invariant forall j :: 0 <= j < i ==> grid[j] == CreateHash(randf, seed, j)
      {
        grid[i] := CreateHash(randf, seed, i);
      }
      hashGrid := grid;
    }
  }
}
