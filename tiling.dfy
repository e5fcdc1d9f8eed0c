/**
 * The three tiling geometries of the grid demo: their spacing factors and the
 * rules that stagger alternate columns (the `set_origin` overrides and the
 * sprite height flip of the triangular variant).
 */
module Tiling {

  /** The element classes, in the order the scene cycles through them. */
  datatype Kind = Rectangular | Hexagonal | Triangular

  /** `Scene.ELEMENT_CLASSES`. */
  const ElementClasses: seq<Kind> := [Rectangular, Hexagonal, Triangular]

  /** `Scene.size`: the side of every cell. */
  const Size: int := 60

  /**
   * A spacing as Python 2 computes it: `size * factor` is an `int` when the
   * factor is the literal `1` and a `float` otherwise. The two behave alike in
   * sums, but `int(offset / spacing)` floors for an int and truncates for a float.
   */
  datatype Spacing = IntSpacing(n: int) | FloatSpacing(r: real) {
    function Value(): real {
      match this
      case IntSpacing(n) => n as real
      case FloatSpacing(r) => r
    }
  }

  /** `size * cls.x_spacing_factor`: factors 1, 0.75 and 0.5. */
  function XSpacing(k: Kind, size: int): (s: Spacing)
    ensures size > 0 ==> s.Value() > 0.0
    ensures s.Value() == size as real * XFactor(k)
  {
    match k
    case Rectangular => IntSpacing(size * 1)
    case Hexagonal => FloatSpacing(size as real * 0.75)
    case Triangular => FloatSpacing(size as real * 0.5)
  }

  /** `size * cls.y_spacing_factor`: factors 1, 0.866 and 1. */
  function YSpacing(k: Kind, size: int): (s: Spacing)
    ensures size > 0 ==> s.Value() > 0.0
    ensures s.Value() == size as real * YFactor(k)
  {
    match k
    case Rectangular => IntSpacing(size * 1)
    case Hexagonal => FloatSpacing(size as real * 0.866)
    case Triangular => IntSpacing(size * 1)
  }

  function XFactor(k: Kind): real {
    match k
    case Rectangular => 1.0
    case Hexagonal => 0.75
    case Triangular => 0.5
  }

  function YFactor(k: Kind): real {
    match k
    case Rectangular => 1.0
    case Hexagonal => 0.866
    case Triangular => 1.0
  }

  /**
   * What `set_origin` adds to the running `y` of the element in column `i`:
   * nothing for rectangles, `height/2 * 0.866` (Python 2 integer halving) for
   * odd hexagon columns, `height` for odd triangle columns.
   */
  function OriginOffset(k: Kind, i: int, height: int): (r: real)
    ensures k == Rectangular || i % 2 == 0 ==> r == 0.0
    ensures height >= 0 ==> r >= 0.0
  {
    match k
    case Rectangular => 0.0
    case Hexagonal => if i % 2 == 1 then (height / 2) as real * 0.866 else 0.0
    case Triangular => if i % 2 == 0 then 0.0 else height as real
  }

  /** The height the sprite is created with: triangles in odd columns point down. */
  function SpriteHeight(k: Kind, i: int, height: int): (r: int)
    ensures r == height || r == -height
    ensures r == -height && height != 0 <==> k == Triangular && i % 2 == 1 && height != 0
  {
    if k == Triangular && i % 2 == 1 then -1 * height else height
  }

  /** Only odd columns are shifted, and by the amount each variant fixes. */
  lemma OddColumnsStagger(k: Kind, i: int, height: int)
    ensures i % 2 == 0 ==> OriginOffset(k, i, height) == 0.0
    ensures i % 2 == 1 && k == Rectangular ==> OriginOffset(k, i, height) == 0.0
    ensures i % 2 == 1 && k == Hexagonal ==> OriginOffset(k, i, height) == (height / 2) as real * 0.866
    ensures i % 2 == 1 && k == Triangular ==> OriginOffset(k, i, height) == height as real
  {
  }

  /** The stagger depends on the column's parity only, for negative columns too. */
  lemma OffsetPeriodic(k: Kind, i: int, height: int)
    ensures OriginOffset(k, i + 2, height) == OriginOffset(k, i, height)
    ensures SpriteHeight(k, i + 2, height) == SpriteHeight(k, i, height)
  {
    assert (i + 2) % 2 == i % 2;
  }

  /** Triangles alternate: adjacent columns have heights of opposite sign. */
  lemma TriangleFlip(i: int, height: int)
    ensures SpriteHeight(Triangular, i, height) == -SpriteHeight(Triangular, i + 1, height)
  {
    assert (i + 1) % 2 == 1 - i % 2;
  }
}
