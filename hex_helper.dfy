/**
 * HexHelper.GetEdgeType: classification of the elevation step between two
 * neighbouring cells as Flat, Slope or Cliff.
 */
module HexHelper {

  datatype HexEdgeType = Flat | Slope | Cliff

  function Abs(n: int): nat {
    if n < 0 then -n else n
  }

  /**
   * The edge type for two elevations: equal elevations are Flat, a step of
   * exactly one is a Slope, anything steeper is a Cliff.
   */
  function GetEdgeType(elevation1: int, elevation2: int): (r: HexEdgeType)
    ensures r == Flat <==> elevation1 == elevation2
    ensures r == Slope <==> Abs(elevation1 - elevation2) == 1
    ensures r == Cliff <==> Abs(elevation1 - elevation2) >= 2
  {
    if elevation1 == elevation2 then Flat
    else
      var delta := elevation2 - elevation1;
      if delta == 1 || delta == -1 then Slope else Cliff
  }

  /** The classification does not depend on which of the two cells is asked first. */
  lemma EdgeTypeSymmetric(a: int, b: int)
    ensures GetEdgeType(a, b) == GetEdgeType(b, a)
  {
  }

  /** Raising both cells by the same amount keeps the edge type. */
  lemma EdgeTypeTranslationInvariant(a: int, b: int, k: int)
    ensures GetEdgeType(a + k, b + k) == GetEdgeType(a, b)
  {
  }

  // ---------------------------------------------------------------------
  // The code as written computes `elevation2 - elevation1` in C#'s 32-bit
  // `int`, which wraps around on overflow (unchecked context).

  const IntMin: int := -0x8000_0000
  const IntMax: int := 0x7FFF_FFFF

  type Int32 = n: int | IntMin <= n <= IntMax

  /** Two's-complement wrap-around of an unbounded integer into 32 bits. */
  function Wrap32(n: int): (r: Int32)
    ensures (r - n) % 0x1_0000_0000 == 0
    ensures IntMin <= n <= IntMax ==> r == n
  {
    (n - IntMin) % 0x1_0000_0000 + IntMin
  }

  /** GetEdgeType with the subtraction done in 32-bit arithmetic, as the source does. */
  function GetEdgeTypeInt32(elevation1: Int32, elevation2: Int32): (r: HexEdgeType)
    ensures r == Flat <==> elevation1 == elevation2
    ensures r == Slope <==>
      (var d := elevation2 - elevation1; d == 1 || d == -1 || d == 0xFFFF_FFFF || d == -0xFFFF_FFFF)
    ensures r == Cliff <==>
      (var d := elevation2 - elevation1; d != 0 && d != 1 && d != -1 && d != 0xFFFF_FFFF && d != -0xFFFF_FFFF)
  {
    if elevation1 == elevation2 then Flat
    else
      var delta := Wrap32(elevation2 - elevation1);
      if delta == 1 || delta == -1 then Slope else Cliff
  }

  /**
   * The lowest and the highest representable elevations are 2^32 - 1 apart,
   * yet the wrapped difference is -1, so the 32-bit code calls that edge a
   * Slope where the intended classification is a Cliff.
   */
  lemma Int32EdgeTypeMisclassifiesExtremes()
    ensures GetEdgeTypeInt32(IntMin, IntMax) == Slope
    ensures GetEdgeType(IntMin, IntMax) == Cliff
  {
    assert Wrap32(IntMax - IntMin) == -1;
  }

  /** Whenever the true difference fits in 32 bits, the code as written is correct. */
  lemma Int32EdgeTypeAgreesWithoutOverflow(elevation1: Int32, elevation2: Int32)
    requires IntMin <= elevation2 - elevation1 <= IntMax
    ensures GetEdgeTypeInt32(elevation1, elevation2) == GetEdgeType(elevation1, elevation2)
  {
  }
}
