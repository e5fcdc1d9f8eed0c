/**
 * The demo scene of grid.py: it builds a checkerboard of cells, cycles the
 * tiling through the three element classes, and grows the grid when the
 * window is resized.
 */
module Scenes {
  import opened Wrappers
  import opened Tiling
  import opened Grids

  /** `create_element`'s colour: dark green where row and column parity agree, grey elsewhere. */
  function CellColor(i: int, j: int): (c: Color)
    ensures c == "#060" || c == "#666"
  {
    if j % 2 == i % 2 then "#060" else "#666"
  }

  /** The colours make a checkerboard: neighbours differ, diagonal neighbours agree. */
  lemma Checkerboard(i: int, j: int)
    ensures CellColor(i, j) == "#060" <==> i % 2 == j % 2
    ensures CellColor(i, j) != CellColor(i + 1, j)
    ensures CellColor(i, j) != CellColor(i, j + 1)
    ensures CellColor(i + 1, j + 1) == CellColor(i, j)
  {
    assert (i + 1) % 2 == 1 - i % 2;
    assert (j + 1) % 2 == 1 - j % 2;
  }

  /** The options `create_element` builds a cell with. */
  function CellArgs(i: int, j: int): (a: Args)
    ensures a.colorForeground == Some(CellColor(i, j))
    ensures a.colorStroke == Some("#000") && a.strokeWidth == Some(2) && a.onClick == None
  {
    Args(Some(CellColor(i, j)), Some("#000"), Some(2), None)
  }

  /**
   * `set_action` as grid.py writes it: the foreground option becomes "#0a0"
   * and the click handler option is always `prev_grid_type`, whatever handler
   * was asked for.
   */
  function ActionArgsAsWritten(args: Args, onClick: ClickAction): (a: Args)
    ensures a.onClick == Some(PrevHandler)
    ensures a.colorForeground == Some("#0a0")
    ensures a.colorStroke == args.colorStroke && a.strokeWidth == args.strokeWidth
  {
    args.(colorForeground := Some("#0a0"), onClick := Some(PrevHandler))
  }

  /** As written, the forward link `create_grid` installs leads backwards. */
  lemma ForwardLinkGoesBack(args: Args)
    ensures ActionArgsAsWritten(args, NextHandler).onClick != Some(NextHandler)
  {
  }

  /** `set_action` as intended: the handler asked for is the one installed. */
  function ActionArgs(args: Args, onClick: ClickAction): (a: Args)
    ensures a.onClick == Some(onClick)
    ensures a.colorForeground == Some("#0a0")
    ensures a.colorStroke == args.colorStroke && a.strokeWidth == args.strokeWidth
  {
    args.(colorForeground := Some("#0a0"), onClick := Some(onClick))
  }

  /** Installing a second handler replaces the first; the two agree only for `prev`. */
  lemma ActionOverwrites(args: Args, first: ClickAction, second: ClickAction)
    ensures ActionArgs(ActionArgs(args, first), second) == ActionArgs(args, second)
    ensures ActionArgs(args, first) == ActionArgsAsWritten(args, first) <==> first == PrevHandler
  {
  }

  /**
   * The options a cell of a fresh `create_grid` has: the links at the top
   * left `(0, 0)` and top right `(cols - 1, 0)`, plain cells elsewhere.
   */
  function InitialArgs(i: int, j: int, cols: int): (a: Args)
    ensures a.colorStroke == Some("#000") && a.strokeWidth == Some(2)
    ensures a.onClick == Some(NextHandler) <==> i == cols - 1 && j == 0
    ensures a.onClick == Some(PrevHandler) <==> i == 0 && j == 0 && cols != 1
    ensures a.onClick.Some? ==> a.colorForeground == Some("#0a0")
    ensures a.onClick.None? ==> a == CellArgs(i, j)
  {
    if i == cols - 1 && j == 0 then ActionArgs(CellArgs(i, j), NextHandler)
    else if i == 0 && j == 0 then ActionArgs(CellArgs(i, j), PrevHandler)
    else CellArgs(i, j)
  }

  /** `next_grid_type`'s index: one class on, modulo the three classes. */
  function NextIndex(n: int): (r: int)
    ensures 0 <= r < |ElementClasses|
  {
    (n + 1) % |ElementClasses|
  }

  /** `prev_grid_type`'s index: one class back, modulo the three (Python's `%` is never negative here). */
  function PrevIndex(n: int): (r: int)
    ensures 0 <= r < |ElementClasses|
  {
    (n - 1) % |ElementClasses|
  }

  /** Going back after going forward, or forward after back, returns to the class. */
  lemma PrevNextInverse(n: int)
    requires 0 <= n < |ElementClasses|
    ensures PrevIndex(NextIndex(n)) == n
    ensures NextIndex(PrevIndex(n)) == n
  {
  }

  /** Three steps forward, or three back, cycle through every class and return. */
  lemma NextCycles(n: int)
    requires 0 <= n < |ElementClasses|
    ensures NextIndex(NextIndex(NextIndex(n))) == n
    ensures PrevIndex(PrevIndex(PrevIndex(n))) == n
    ensures {NextIndex(n), NextIndex(NextIndex(n)), n} == {0, 1, 2}
  {
  }

  /** Python's `int(q)`: truncation toward zero. */
  function Trunc(q: real): (r: int)
    ensures q >= 0.0 ==> r as real <= q < r as real + 1.0
    ensures q < 0.0 ==> r as real - 1.0 < q <= r as real
  {
    if q >= 0.0 then q.Floor else -((-q).Floor)
  }

  /**
   * `int(a / s)` in Python 2: the quotient of two ints is already floored,
   * that of an int by a float is truncated toward zero.
   */
  function PyIntDivide(a: int, s: Spacing): (q: int)
    requires s.Value() > 0.0
    ensures a >= 0 ==> q >= 0
  {
    match s
    case IntSpacing(n) => a / n
    case FloatSpacing(r) => Trunc(a as real / r)
  }

  /** For a non-negative numerator both ways give the whole number of steps `s` in `a`. */
  lemma DivideFloors(a: int, s: Spacing)
    requires s.Value() > 0.0 && a >= 0
    ensures PyIntDivide(a, s) >= 0
    ensures PyIntDivide(a, s) as real * s.Value() <= a as real < PyIntDivide(a, s) as real * s.Value() + s.Value()
  {
    match s
    case IntSpacing(d) => IntQuotient(a, d);
    case FloatSpacing(r) => RealQuotient(a as real, r);
  }

  /** The integer quotient of a non-negative `a` by `d` brackets `a` between multiples of `d`. */
  lemma IntQuotient(a: int, d: int)
    requires a >= 0 && d > 0
    ensures a / d >= 0
    ensures (a / d) as real * d as real <= a as real < (a / d) as real * d as real + d as real
  {
    var n := a / d;
    assert a == d * n + a % d;
    ProductSign(d, n);
    assert (d * n) as real == n as real * d as real;
  }

  /** The truncated quotient of a non-negative `x` by `r` brackets `x` between multiples of `r`. */
  lemma RealQuotient(x: real, r: real)
    requires x >= 0.0 && r > 0.0
    ensures Trunc(x / r) >= 0
    ensures Trunc(x / r) as real * r <= x < Trunc(x / r) as real * r + r
  {
    assert (x / r) * r == x;
    ScaleOrder(x / r, 0.0, r);
    Unscale(Trunc(x / r) as real, x / r, r, x);
  }

  /** For a negative numerator the result is negative once the numerator is past one step. */
  lemma DivideNegative(a: int, s: Spacing)
    requires s.Value() > 0.0 && a as real < -s.Value()
    ensures PyIntDivide(a, s) <= -1
  {
    match s
    case IntSpacing(d) =>
      assert a == d * (a / d) + a % d;
      ProductSign(d, a / d);
    case FloatSpacing(r) =>
      var q := a as real / r;
      assert q * r == a as real;
      ScaleOrder(-1.0, q, r);
  }

  /** The sign of `d * q` for a positive `d`. */
  lemma ProductSign(d: int, q: int)
    requires d > 0
    ensures q >= 0 ==> d * q >= 0
    ensures q < 0 ==> d * q <= -d
  {
  }

  /** A quotient `q` of `x` by `r` between `n` and `n + 1` puts `x` between `n * r` and `n * r + r`. */
  lemma Unscale(n: real, q: real, r: real, x: real)
    requires r > 0.0 && n <= q < n + 1.0 && q * r == x
    ensures n * r <= x < n * r + r
  {
    var d := q - n;
    assert x == n * r + d * r;
    Fraction(d, r);
  }

  /** A fraction of `r` is below `r`. */
  lemma Fraction(d: real, r: real)
    requires r > 0.0 && 0.0 <= d < 1.0
    ensures 0.0 <= d * r < r
  {
    assert (1.0 - d) * r > 0.0;
  }

  /** Scaling by a positive `r` keeps the order of `x` and `y`. */
  lemma ScaleOrder(x: real, y: real, r: real)
    requires r > 0.0
    ensures x <= y ==> x * r <= y * r
    ensures x < y ==> x * r < y * r
  {
  }

  /**
   * One axis of `on_resize`: how many lines (columns or rows) are created,
   * how much the count changes, and the leftover offset whose half shifts the
   * grid's origin.
   */
  datatype AxisStep = AxisStep(created: int, grown: int, leftover: real)

  /**
   * The arithmetic of one axis of `on_resize` for a window that changed by
   * `offset` pixels along it, with cells `size` apart. Past one cell of
   * growth, whole cells are added and the rest is left over; within one cell
   * the whole offset is left over. In the shrink branch the quotient is
   * negative, so subtracting it grows the count and no line is touched.
   */
  function ResizeAxis(offset: int, size: Spacing): (s: AxisStep)
    requires size.Value() > 0.0
    ensures s.created >= 0 && s.grown >= 0
    ensures s.created != 0 ==> s.created == s.grown
  {
    if offset as real > size.Value() then
      var n := PyIntDivide(offset, size);
      AxisStep(n, n, offset as real - n as real * size.Value())
    else if offset as real < -size.Value() then
      var n := PyIntDivide(offset, size);
      AxisStep(0, -n, offset as real + n as real * size.Value())
    else
      AxisStep(0, 0, offset as real)
  }

  /**
   * Growing by more than one cell adds the whole number of cells in the
   * offset, at least one, and leaves less than one cell over.
   */
  lemma ResizeGrows(offset: int, size: Spacing)
    requires size.Value() > 0.0 && offset as real > size.Value()
    ensures ResizeAxis(offset, size).created == ResizeAxis(offset, size).grown >= 1
    ensures ResizeAxis(offset, size).created as real * size.Value() <= offset as real
    ensures offset as real < ResizeAxis(offset, size).created as real * size.Value() + size.Value()
    ensures 0.0 <= ResizeAxis(offset, size).leftover < size.Value()
  {
    var n := PyIntDivide(offset, size);
    DivideFloors(offset, size);
    ScaleOrder(n as real, 0.0, size.Value());
  }

  /** Within one cell either way nothing is created and the whole offset is left over. */
  lemma ResizeDeadZone(offset: int, size: Spacing)
    requires size.Value() > 0.0 && -size.Value() <= offset as real <= size.Value()
    ensures ResizeAxis(offset, size) == AxisStep(0, 0, offset as real)
  {
  }

  /**
   * Shrinking by more than one cell, as written, creates nothing yet makes
   * the count larger, and the leftover moves further from zero.
   */
  lemma ShrinkGrowsCount(offset: int, size: Spacing)
    requires size.Value() > 0.0 && offset as real < -size.Value()
    ensures ResizeAxis(offset, size).created == 0
    ensures ResizeAxis(offset, size).grown >= 1
    ensures ResizeAxis(offset, size).leftover < offset as real
  {
    DivideNegative(offset, size);
    var n := PyIntDivide(offset, size);
    ScaleOrder(n as real, -1.0, size.Value());
  }

  /**
   * `e` is what the constructor of class `k` makes of cell `(i, j)` with
   * options `args` and the scene's cell size (the memoised sprite aside).
   */
  ghost predicate Built(e: GridElement, k: Kind, i: int, j: int, args: Args)
    reads e`colorForeground, e`colorStroke, e`args
  {
    && e.kind == k && e.i == i && e.j == j && e.height == Size && e.width == Size
    && e.strokeWidth == args.strokeWidth.GetOr(2)
    && e.colorForeground == args.colorForeground.GetOr("#fff")
    && e.colorStroke == args.colorStroke.GetOr("#000")
    && e.args == args
  }

  /**
   * Column `col` is what rebuilding column `c` as class `k` makes of `from`:
   * the same rows, each a new-built cell with the old options and no sprite yet.
   */
  ghost predicate RebuiltColumn(col: map<int, GridElement>, k: Kind, c: int, from: map<int, GridElement>)
    reads col.Values, from.Values
  {
    && col.Keys == from.Keys
    && forall r :: r in from ==> Built(col[r], k, c, r, from[r].args) && col[r].graphic == None
  }

  /** `col` is a non-empty column `c` of cells each at its own coordinate. */
  ghost predicate ColumnAt(col: map<int, GridElement>, c: int) {
    col != map[] && forall r :: r in col ==> col[r].i == c && col[r].j == r
  }

  /** A grid whose every column is rebuilt from a column of cells at their own coordinates is well formed. */
  lemma RebuiltIsValid(g: Grid, k: Kind, from: map<int, map<int, GridElement>>)
    requires forall c :: c in g.cells <==> c in from
    requires forall c :: c in from ==> ColumnAt(from[c], c) && RebuiltColumn(g.cells[c], k, c, from[c])
    ensures g.Valid()
  {
  }

  /** The sprite with its foreground and stroke colours exchanged. */
  function SwapColors(s: Sprite): (t: Sprite)
    ensures t.colorForeground == s.colorStroke && t.colorStroke == s.colorForeground
    ensures t.(colorForeground := s.colorForeground, colorStroke := s.colorStroke) == s
  {
    s.(colorForeground := s.colorStroke, colorStroke := s.colorForeground)
  }

  /** Swapping twice gives the sprite back. */
  lemma SwapInvolution(s: Sprite)
    ensures SwapColors(SwapColors(s)) == s
  {
  }

  /** `(c, r)` lies in the block of columns `c0` to `c1 - 1` and rows `r0` to `r1 - 1`. */
  predicate InBlock(c: int, r: int, c0: int, c1: int, r0: int, r1: int) {
    c0 <= c < c1 && r0 <= r < r1
  }

  /** Two maps with the same keys are empty together. */
  lemma EmptyAlike(a: map<int, map<int, GridElement>>, b: map<int, map<int, GridElement>>)
    requires forall k :: k in a <==> k in b
    ensures a == map[] <==> b == map[]
  {
    if a != map[] {
      var k := Member(a.Keys);
      assert k in b;
    }
    if b != map[] {
      var k := Member(b.Keys);
      assert k in a;
    }
  }

  /** Updating one key leaves the value at every other key. */
  lemma UpdateOther<K, V>(m: map<K, V>, key: K, v: V, other: K)
    requires other in m && other != key
    ensures m[key := v][other] == m[other]
  {
  }

  /** Updating the same key twice keeps only the second value. */
  lemma UpdateTwice<K, V>(m: map<K, V>, key: K, a: V, b: V)
    ensures m[key := a][key := b] == m[key := b]
  {
  }

  /** The scene: its grid, the current element class, the grid's size in cells and the last window size. */
  class Scene {
    var elementNumber: int
    var cols: int
    var rows: int
    var oldWidth: int
    var oldHeight: int
    var grid: Grid

    /** The grid is well formed and every cell is of the current class, at the scene's cell size. */
    ghost predicate Valid()
      reads this`elementNumber, this`grid, grid`cells
    {
      && grid.Valid()
      && 0 <= elementNumber < |ElementClasses|
      && forall c, r :: grid.Get(c, r) != null ==>
           grid.Get(c, r).kind == ElementClasses[elementNumber] && grid.Get(c, r).height == Size && grid.Get(c, r).width == Size
    }

    /**
     * `__init__`: class 0, no columns or rows yet, the window size remembered,
     * then a rectangular grid at `(50, 50)` filling the window less a 50 pixel
     * margin.
     */
    constructor (width: int, height: int)
      ensures Valid() && elementNumber == 0 && oldWidth == width && oldHeight == height
      ensures fresh(grid) && grid.x == 50.0 && grid.y == 50.0
      ensures grid.xSpacing == XSpacing(Rectangular, Size).Value() && grid.ySpacing == YSpacing(Rectangular, Size).Value()
      ensures grid.xSpacing == 60.0 && grid.ySpacing == 60.0
      ensures cols == PyIntDivide(width - 50, XSpacing(Rectangular, Size))
      ensures rows == PyIntDivide(height - 50, YSpacing(Rectangular, Size))
      ensures forall c, r :: grid.Get(c, r) != null <==> 0 <= c < cols && 0 <= r < rows
      ensures forall c, r :: 0 <= c < cols && 0 <= r < rows ==>
        grid.Get(c, r) != null && Built(grid.Get(c, r), Rectangular, c, r, InitialArgs(c, r, cols)) && grid.Get(c, r).graphic == None
      ensures forall c, r :: 0 <= c < cols && 0 <= r < rows ==> fresh(grid.Get(c, r))
    {
      elementNumber := 0;
      cols := 0;
      rows := 0;
      oldWidth := width;
      oldHeight := height;
      grid := new Grid();  // replaced by `create_grid` below
      new;
      CreateGrid(50.0, 50.0, width - 50, height - 50);
    }

    /**
     * `set_action` (with the handler it is given): the cell at `(i, j)`, if
     * any, turns bright green and gets the click handler as an option.
     */
    method SetAction(i: int, j: int, onClick: ClickAction)
      modifies grid.Get(i, j)
      ensures grid.Get(i, j) != null ==>
        && grid.Get(i, j).colorForeground == "#0a0"
        && grid.Get(i, j).args == ActionArgs(old(grid.Get(i, j).args), onClick)
        && grid.Get(i, j).colorStroke == old(grid.Get(i, j).colorStroke)
        && grid.Get(i, j).graphic == old(grid.Get(i, j).graphic)
    {
      var e := grid.Get(i, j);
      if e == null { return; }
      e.colorForeground := "#0a0";
      e.args := e.args.(colorForeground := Some("#0a0"));
      e.args := e.args.(onClick := Some(onClick));
    }

    /**
     * `create_grid`: a new grid of rectangles at `(x, y)`, as many whole
     * cells as fit in `width` by `height`, column by column, then the two
     * links in the top corners.
     */
    method CreateGrid(x: real, y: real, width: int, height: int)
      modifies this
      ensures fresh(grid) && grid.Valid()
      ensures elementNumber == old(elementNumber) && oldWidth == old(oldWidth) && oldHeight == old(oldHeight)
      ensures grid.x == x && grid.y == y
      ensures grid.xSpacing == XSpacing(Rectangular, Size).Value() && grid.ySpacing == YSpacing(Rectangular, Size).Value()
      ensures cols == PyIntDivide(width, XSpacing(Rectangular, Size))
      ensures rows == PyIntDivide(height, YSpacing(Rectangular, Size))
      ensures forall c, r :: grid.Get(c, r) != null <==> 0 <= c < cols && 0 <= r < rows
      ensures forall c, r :: 0 <= c < cols && 0 <= r < rows ==>
        grid.Get(c, r) != null && fresh(grid.Get(c, r)) && Built(grid.Get(c, r), Rectangular, c, r, InitialArgs(c, r, cols))
        && grid.Get(c, r).graphic == None
      ensures elementNumber == 0 ==> Valid()
    {
      grid := new Grid(x, y);
      var cls := ElementClasses[0];
      grid.xSpacing := XSpacing(cls, Size).Value();
      grid.ySpacing := YSpacing(cls, Size).Value();
      cols := PyIntDivide(width, XSpacing(cls, Size));
      rows := PyIntDivide(height, YSpacing(cls, Size));
      FillColumns(cls, cols, rows);
      LinkCorners(cls, cols, rows);
    }

    /** The loop of `create_grid`: columns `0` to `cols - 1`, each of `rows` cells, into an empty grid. */
    method FillColumns(k: Kind, cols: int, rows: int)
      requires grid.Valid() && forall c, r :: grid.Get(c, r) == null
      modifies grid`cells
      ensures grid.Valid()
      ensures forall c, r :: grid.Get(c, r) != null <==> 0 <= c < cols && 0 <= r < rows
      ensures forall c, r :: 0 <= c < cols && 0 <= r < rows ==>
        fresh(grid.Get(c, r)) && Built(grid.Get(c, r), k, c, r, CellArgs(c, r)) && grid.Get(c, r).graphic == None
    {
      var i := 0;
      while i < cols
        invariant i == 0 || 0 <= i <= cols
        invariant grid.Valid()
        invariant forall c, r :: grid.Get(c, r) != null <==> 0 <= c < i && 0 <= r < rows
        invariant forall c, r :: 0 <= c < i && 0 <= r < rows ==>
          fresh(grid.Get(c, r)) && Built(grid.Get(c, r), k, c, r, CellArgs(c, r)) && grid.Get(c, r).graphic == None
      {
        CreateColumn(k, i, 0, rows);
        i := i + 1;
      }
    }

    /** The end of `create_grid`: the links in the top left and the top right cells. */
    method LinkCorners(k: Kind, cols: int, rows: int)
      requires grid.Valid()
      requires forall c, r :: 0 <= c < cols && 0 <= r < rows ==>
        grid.Get(c, r) != null && Built(grid.Get(c, r), k, c, r, CellArgs(c, r)) && grid.Get(c, r).graphic == None
      modifies grid.Get(0, 0), grid.Get(cols - 1, 0)
      ensures forall c, r :: 0 <= c < cols && 0 <= r < rows ==>
        Built(grid.Get(c, r), k, c, r, InitialArgs(c, r, cols)) && grid.Get(c, r).graphic == None
    {
      SetAction(0, 0, PrevHandler);
      SetAction(cols - 1, 0, NextHandler);
    }

    /**
     * `_set_grid_type`: make class `n` current, rebuild every cell as that
     * class, take the spacings from the class of the last cell made and lay
     * the grid out again. On an empty grid no cell is made and the spacing
     * line names an unbound variable (a `NameError` in Python): `ok` is false,
     * and the spacings and the layout are left as they were.
     */
    method SetGridType(n: int) returns (ok: bool)
      requires Valid() && 0 <= n < |ElementClasses|
      modifies this`elementNumber, grid`cells, grid`xSpacing, grid`ySpacing
      ensures Valid() && elementNumber == n
      ensures ok <==> old(grid.cells) != map[]
      ensures forall c :: c in grid.cells <==> c in old(grid.cells)
      ensures forall c :: c in grid.cells ==> grid.cells[c].Keys == old(grid.cells)[c].Keys
      ensures forall c, r :: c in grid.cells && r in grid.cells[c] ==>
        fresh(grid.cells[c][r]) && Built(grid.cells[c][r], ElementClasses[n], c, r, old(grid.cells)[c][r].args)
      ensures ok ==> grid.xSpacing == XSpacing(ElementClasses[n], Size).Value() && grid.ySpacing == YSpacing(ElementClasses[n], Size).Value()
      ensures !ok ==> grid.xSpacing == old(grid.xSpacing) && grid.ySpacing == old(grid.ySpacing)
      ensures ok ==> forall c, r :: c in grid.cells && r in grid.cells[c] ==>
        grid.cells[c][r].graphic == Some(grid.cells[c][r].Placed(grid.cells[c][r].CreateSprite(grid.cells[c][r].args),
          grid.Origin(c, r).0, grid.Origin(c, r).1))
    {
      ghost var from: map<int, map<int, GridElement>> := grid.cells;
      var last := Retype(n);
      if last == null {
        return false;
      }
      Render(ElementClasses[n], from);
      ok := true;
    }

    /** `prev_grid_type`, the handler of the top left cell: switch to the previous class. */
    method PrevGridType() returns (ok: bool)
      requires Valid()
      modifies this`elementNumber, grid`cells, grid`xSpacing, grid`ySpacing
      ensures Valid() && elementNumber == PrevIndex(old(elementNumber))
      ensures ok <==> old(grid.cells) != map[]
      ensures forall c :: c in grid.cells <==> c in old(grid.cells)
      ensures forall c :: c in grid.cells ==> grid.cells[c].Keys == old(grid.cells)[c].Keys
      ensures forall c, r :: c in grid.cells && r in grid.cells[c] ==>
        fresh(grid.cells[c][r]) && Built(grid.cells[c][r], ElementClasses[elementNumber], c, r, old(grid.cells)[c][r].args)
      ensures ok ==> grid.xSpacing == XSpacing(ElementClasses[elementNumber], Size).Value() && grid.ySpacing == YSpacing(ElementClasses[elementNumber], Size).Value()
      ensures !ok ==> grid.xSpacing == old(grid.xSpacing) && grid.ySpacing == old(grid.ySpacing)
      ensures ok ==> forall c, r :: c in grid.cells && r in grid.cells[c] ==>
        grid.cells[c][r].graphic == Some(grid.cells[c][r].Placed(grid.cells[c][r].CreateSprite(grid.cells[c][r].args),
          grid.Origin(c, r).0, grid.Origin(c, r).1))
    {
      ok := SetGridType(PrevIndex(elementNumber));
    }

    /** `next_grid_type`, the handler of the top right cell: switch to the next class. */
    method NextGridType() returns (ok: bool)
      requires Valid()
      modifies this`elementNumber, grid`cells, grid`xSpacing, grid`ySpacing
      ensures Valid() && elementNumber == NextIndex(old(elementNumber))
      ensures ok <==> old(grid.cells) != map[]
      ensures forall c :: c in grid.cells <==> c in old(grid.cells)
      ensures forall c :: c in grid.cells ==> grid.cells[c].Keys == old(grid.cells)[c].Keys
      ensures forall c, r :: c in grid.cells && r in grid.cells[c] ==>
        fresh(grid.cells[c][r]) && Built(grid.cells[c][r], ElementClasses[elementNumber], c, r, old(grid.cells)[c][r].args)
      ensures ok ==> grid.xSpacing == XSpacing(ElementClasses[elementNumber], Size).Value() && grid.ySpacing == YSpacing(ElementClasses[elementNumber], Size).Value()
      ensures !ok ==> grid.xSpacing == old(grid.xSpacing) && grid.ySpacing == old(grid.ySpacing)
      ensures ok ==> forall c, r :: c in grid.cells && r in grid.cells[c] ==>
        grid.cells[c][r].graphic == Some(grid.cells[c][r].Placed(grid.cells[c][r].CreateSprite(grid.cells[c][r].args),
          grid.Origin(c, r).0, grid.Origin(c, r).1))
    {
      ok := SetGridType(NextIndex(elementNumber));
    }

    /**
     * Clicking forward and then back returns to the class the scene had, with
     * every cell rebuilt at its place from the options it had.
     */
    method ForwardThenBack()
      requires Valid()
      modifies this`elementNumber, grid`cells, grid`xSpacing, grid`ySpacing
      ensures Valid() && elementNumber == old(elementNumber)
      ensures forall c :: c in grid.cells <==> c in old(grid.cells)
      ensures forall c :: c in grid.cells ==> grid.cells[c].Keys == old(grid.cells)[c].Keys
      ensures forall c, r :: c in grid.cells && r in grid.cells[c] ==>
        fresh(grid.cells[c][r]) && Built(grid.cells[c][r], ElementClasses[elementNumber], c, r, old(grid.cells)[c][r].args)
      ensures old(grid.cells) != map[] ==>
        grid.xSpacing == XSpacing(ElementClasses[elementNumber], Size).Value() && grid.ySpacing == YSpacing(ElementClasses[elementNumber], Size).Value()
      ensures old(grid.cells) == map[] ==> grid.xSpacing == old(grid.xSpacing) && grid.ySpacing == old(grid.ySpacing)
      ensures old(grid.cells) != map[] ==> forall c, r :: c in grid.cells && r in grid.cells[c] ==>
        grid.cells[c][r].graphic == Some(grid.cells[c][r].Placed(grid.cells[c][r].CreateSprite(grid.cells[c][r].args),
          grid.Origin(c, r).0, grid.Origin(c, r).1))
    {
      ghost var before: map<int, map<int, GridElement>> := grid.cells;
      var forward := NextGridType();
      ghost var between: map<int, map<int, GridElement>> := grid.cells;
      EmptyAlike(before, between);
      var back := PrevGridType();
      assert back == forward;
      PrevNextInverse(old(elementNumber));
    }

    /**
     * The first part of `_set_grid_type`: make class `n` current, rebuild every
     * cell and, when a cell was made, take the spacings from its class.
     */
    method Retype(n: int) returns (last: GridElement?)
      requires Valid() && 0 <= n < |ElementClasses|
      modifies this`elementNumber, grid`cells, grid`xSpacing, grid`ySpacing
      ensures Valid() && elementNumber == n
      ensures last == null <==> old(grid.cells) == map[]
      ensures forall c :: c in grid.cells <==> c in old(grid.cells)
      ensures forall c :: c in grid.cells ==> grid.cells[c].Keys == old(grid.cells)[c].Keys
      ensures forall c, r :: c in grid.cells && r in grid.cells[c] ==>
        fresh(grid.cells[c][r]) && Built(grid.cells[c][r], ElementClasses[n], c, r, old(grid.cells)[c][r].args) && grid.cells[c][r].graphic == None
      ensures last != null ==> grid.xSpacing == XSpacing(ElementClasses[n], Size).Value() && grid.ySpacing == YSpacing(ElementClasses[n], Size).Value()
      ensures last == null ==> grid.xSpacing == old(grid.xSpacing) && grid.ySpacing == old(grid.ySpacing)
    {
      elementNumber := n;
      var cls := ElementClasses[elementNumber];
      last := RebuildAs(cls);
      if last != null {
        grid.xSpacing := XSpacing(last.kind, Size).Value();
        grid.ySpacing := YSpacing(last.kind, Size).Value();
      }
    }

    /**
     * The last line of `_set_grid_type`: lay out a grid of cells that have no
     * sprite yet. Only the sprites change: every cell stays as it was built
     * (from the options of the cells of `from`, as class `k`).
     */
    method Render(ghost k: Kind, ghost from: map<int, map<int, GridElement>>)
      requires grid.Valid()
      requires forall c, r :: c in grid.cells && r in grid.cells[c] ==> grid.cells[c][r].graphic == None
      requires forall c, r :: c in grid.cells && r in grid.cells[c] ==>
        c in from && r in from[c] && Built(grid.cells[c][r], k, c, r, from[c][r].args)
      modifies grid.Elements()`graphic
      ensures forall c, r :: c in grid.cells && r in grid.cells[c] ==>
        c in from && r in from[c] && Built(grid.cells[c][r], k, c, r, from[c][r].args)
      ensures forall c, r :: c in grid.cells && r in grid.cells[c] ==>
        grid.cells[c][r].graphic == Some(grid.cells[c][r].Placed(grid.cells[c][r].CreateSprite(grid.cells[c][r].args),
          grid.Origin(c, r).0, grid.Origin(c, r).1))
    {
      grid.OnRender();
    }

    /**
     * The loop of `_set_grid_type`: every cell is replaced, at its own
     * coordinate, by a new cell of class `k` built from the same options. The
     * traversal is that of `elements`, a column at a time over snapshots of
     * the key lists; `last` is the last cell made, null for an empty grid.
     */
    method RebuildAs(k: Kind) returns (last: GridElement?)
      requires grid.Valid()
      modifies grid`cells
      ensures grid.Valid()
      ensures last == null <==> old(grid.cells) == map[]
      ensures last != null ==> last.kind == k
      ensures forall c :: c in grid.cells <==> c in old(grid.cells)
      ensures forall c :: c in grid.cells ==> grid.cells[c].Keys == old(grid.cells)[c].Keys
      ensures forall c, r :: c in grid.cells && r in grid.cells[c] ==>
        fresh(grid.cells[c][r]) && Built(grid.cells[c][r], k, c, r, old(grid.cells)[c][r].args) && grid.cells[c][r].graphic == None
    {
      var columns: map<int, map<int, GridElement>> := grid.cells;
      var todo := columns.Keys;
      last := null;
      assert forall c :: c in columns ==> ColumnAt(columns[c], c);
      while todo != {}
        invariant todo <= columns.Keys
        invariant forall c :: c in grid.cells <==> c in columns
        invariant forall c :: c in todo ==> grid.cells[c] == columns[c]
        invariant forall c :: c in columns && c !in todo ==> RebuiltColumn(grid.cells[c], k, c, columns[c])
        invariant forall c, r :: c in columns && c !in todo && r in grid.cells[c] ==> fresh(grid.cells[c][r])
        invariant last != null ==> last.kind == k
        invariant last == null <==> todo == columns.Keys
        decreases todo
      {
        if forall c :: c !in todo { assert false; }
        var c :| c in todo;
        ghost var before := grid.cells;
        label L:
        last := RebuildColumn(k, c, columns[c]);
        todo := todo - {c};
        forall c' | c' in columns && c' !in todo
          ensures RebuiltColumn(grid.cells[c'], k, c', columns[c'])
          ensures forall r :: r in grid.cells[c'] ==> fresh(grid.cells[c'][r])
        {
          if c' != c {
            UpdateOther(before, c, grid.cells[c], c');
            assert unchanged@L(before[c'].Values, columns[c'].Values);
          }
        }
      }
      RebuiltIsValid(grid, k, columns);
    }

    /**
     * One column of `RebuildAs`: every cell of column `c`, whose cells were
     * `column`, is replaced.
     */
    method RebuildColumn(k: Kind, c: int, column: map<int, GridElement>) returns (last: GridElement?)
      requires ColumnAt(column, c) && c in grid.cells && grid.cells[c] == column
      modifies grid`cells
      ensures c in grid.cells
      ensures grid.cells == old(grid.cells)[c := grid.cells[c]]
      ensures RebuiltColumn(grid.cells[c], k, c, column)
      ensures forall r :: r in grid.cells[c] ==> fresh(grid.cells[c][r])
      ensures last != null && last.kind == k
    {
      var todo := column.Keys;
      ghost var col := column;
      last := null;
      while todo != {}
        invariant todo <= column.Keys
        invariant grid.cells == old(grid.cells)[c := col]
        invariant col.Keys == column.Keys
        invariant forall r :: r in column && r !in todo ==> fresh(col[r])
        invariant forall r :: r in todo ==> col[r] == column[r]
        invariant forall r :: r in column && r !in todo ==>
          Built(col[r], k, c, r, column[r].args) && col[r].graphic == None
        invariant last != null ==> last.kind == k
        invariant todo != column.Keys ==> last != null
        decreases todo
      {
        if forall r :: r !in todo { assert false; }
        var r :| r in todo;
        ghost var prev := col;
        label L:
        var created := ReplaceCell(k, c, r, column[r]);
        UpdateTwice(old(grid.cells), c, col, col[r := created]);
        col := col[r := created];
        todo := todo - {r};
        last := created;
        forall r' | r' in column && r' !in todo
          ensures Built(col[r'], k, c, r', column[r'].args) && col[r'].graphic == None
        {
          if r' != r {
            assert col[r'] == prev[r'];
            assert old@L(Built(prev[r'], k, c, r', column[r'].args));
          }
        }
      }
    }

    /** The body of `_set_grid_type`'s loop: a new cell of class `k` built from `e`'s options, `set` at `e`'s place `(c, r)`. */
    method ReplaceCell(k: Kind, c: int, r: int, e: GridElement) returns (created: GridElement)
      requires c in grid.cells && r in grid.cells[c] && grid.cells[c][r] == e && e.i == c && e.j == r
      modifies grid`cells
      ensures grid.cells == old(grid.cells)[c := old(grid.cells[c])[r := created]]
      ensures fresh(created) && Built(created, k, c, r, e.args) && created.graphic == None
    {
      created := new GridElement(k, e.i, e.j, Size, Size, e.args);
      grid.SetAt(e.i, e.j, created);
    }

    /** `create_element`: a cell of class `k` at `(i, j)` in the checkerboard colours, added to the grid. */
    method CreateElement(k: Kind, i: int, j: int) returns (ghost e: GridElement)
      requires grid.Valid()
      modifies grid`cells
      ensures grid.Valid() && fresh(e)
      ensures Built(e, k, i, j, CellArgs(i, j)) && e.graphic == None
      ensures grid.Get(i, j) == e
      ensures forall c, r :: (c, r) != (i, j) ==> grid.Get(c, r) == old(grid.Get(c, r))
    {
      var color := CellColor(i, j);
      var created := new GridElement(k, i, j, Size, Size, Args(Some(color), Some("#000"), Some(2), None));
      grid.Add(created);
      e := created;
    }

    /** The inner loop of `create_grid` and of column growth: cells `(i, j)` for `j` from `j0` up to `j1`. */
    method CreateColumn(k: Kind, i: int, j0: int, j1: int)
      requires grid.Valid()
      modifies grid`cells
      ensures grid.Valid()
      ensures forall c, r :: !(c == i && j0 <= r < j1) ==> grid.Get(c, r) == old(grid.Get(c, r))
      ensures forall r :: j0 <= r < j1 ==>
        grid.Get(i, r) != null && fresh(grid.Get(i, r)) && Built(grid.Get(i, r), k, i, r, CellArgs(i, r)) && grid.Get(i, r).graphic == None
    {
      var j := j0;
      while j < j1
        invariant j == j0 || j0 <= j <= j1
        invariant grid.Valid()
        invariant forall c, r :: !(c == i && j0 <= r < j) ==> grid.Get(c, r) == old(grid.Get(c, r))
        invariant forall r :: j0 <= r < j ==>
          grid.Get(i, r) != null && fresh(grid.Get(i, r)) && Built(grid.Get(i, r), k, i, r, CellArgs(i, r)) && grid.Get(i, r).graphic == None
      {
        var _ := CreateElement(k, i, j);
        j := j + 1;
      }
    }

    /**
     * `on_resize` for a window now `width` by `height`: grow by whole columns,
     * then by whole rows across the new column count, shift the grid by half
     * of each leftover, and lay the grid out again.
     */
    method OnResize(width: int, height: int) returns (ghost sx: AxisStep, ghost sy: AxisStep)
      requires Valid()
      modifies this`cols, this`rows, this`oldWidth, this`oldHeight, grid`cells, grid`x, grid`y, grid.Elements()`graphic
      ensures sx == ResizeAxis(width - old(oldWidth), XSpacing(ElementClasses[elementNumber], Size))
      ensures sy == ResizeAxis(height - old(oldHeight), YSpacing(ElementClasses[elementNumber], Size))
      ensures Valid() && oldWidth == width && oldHeight == height
      ensures cols == old(cols) + sx.grown && rows == old(rows) + sy.grown
      ensures grid.x == old(grid.x) + sx.leftover / 2.0 && grid.y == old(grid.y) + sy.leftover / 2.0
      ensures forall c, r :: !InBlock(c, r, old(cols), old(cols) + sx.created, 0, old(rows)) && !InBlock(c, r, 0, cols, old(rows), old(rows) + sy.created) ==>
        grid.Get(c, r) == old(grid.Get(c, r))
      ensures forall c, r :: InBlock(c, r, old(cols), old(cols) + sx.created, 0, old(rows)) || InBlock(c, r, 0, cols, old(rows), old(rows) + sy.created) ==>
        grid.Get(c, r) != null && fresh(grid.Get(c, r)) && grid.Get(c, r).kind == ElementClasses[elementNumber]
      ensures forall c, r :: c in grid.cells && r in grid.cells[c] ==>
        grid.cells[c][r].graphic.Some? && grid.cells[c][r].graphic.value.x == grid.Origin(c, r).0
        && grid.cells[c][r].graphic.value.y == grid.Origin(c, r).1 + grid.cells[c][r].OriginOffset()
    {
      ghost var before: map<int, map<int, GridElement>> := grid.cells;
      sx := ResizeColumns(width);
      sy := ResizeRows(height);
      forall o | o in grid.Elements()
        ensures o in Members(before) || fresh(o)
      {
        var c, r :| c in grid.cells && r in grid.cells[c] && grid.cells[c][r] == o;
        assert grid.Get(c, r) == o;
        if InBlock(c, r, 0, cols, old(rows), old(rows) + sy.created) {
          assert fresh(o);
        } else if InBlock(c, r, old(cols), old(cols) + sx.created, 0, old(rows)) {
          assert fresh(o);
        } else {
          assert old(grid.Get(c, r)) == o;
          assert before[c][r] == o;
        }
      }
      grid.OnRender();
    }

    /**
     * The "Resize X" half of `on_resize`, for a window now `width` wide: past
     * one column of growth, whole columns of `rows` cells are added after the
     * last one; the shrink branch, as written, removes nothing and adds the
     * negative quotient's magnitude to `cols`; the grid moves right by half of
     * what is left over.
     */
    method ResizeColumns(width: int) returns (ghost s: AxisStep)
      requires Valid()
      modifies this`cols, this`oldWidth, grid`cells, grid`x
      ensures s == ResizeAxis(width - old(oldWidth), XSpacing(ElementClasses[elementNumber], Size))
      ensures Valid() && rows == old(rows)
      ensures cols == old(cols) + s.grown && oldWidth == width
      ensures grid.x == old(grid.x) + s.leftover / 2.0
      ensures forall c, r :: !InBlock(c, r, old(cols), old(cols) + s.created, 0, rows) ==> grid.Get(c, r) == old(grid.Get(c, r))
      ensures forall c, r :: InBlock(c, r, old(cols), old(cols) + s.created, 0, rows) ==>
        grid.Get(c, r) != null && fresh(grid.Get(c, r)) && Built(grid.Get(c, r), ElementClasses[elementNumber], c, r, CellArgs(c, r))
        && grid.Get(c, r).graphic == None
    {
      var cls := ElementClasses[elementNumber];
      var offset := width - oldWidth;
      var size := XSpacing(cls, Size);
      var leftover: real;
      if offset as real > size.Value() {
        var n := PyIntDivide(offset, size);
        AddColumns(cls, cols, cols + n, rows);
        cols := cols + n;
        leftover := offset as real - n as real * size.Value();
      } else if offset as real < -size.Value() {
        var n := PyIntDivide(offset, size);
        // `range(cols - n, cols)` is empty for the negative `n`: no column is removed
        cols := cols - n;
        leftover := offset as real + n as real * size.Value();
      } else {
        leftover := offset as real;
      }
      s := ResizeAxis(offset, size);
      assert leftover == s.leftover;
      grid.x := grid.x + leftover / 2.0;
      oldWidth := width;
    }

    /**
     * The "Resize Y" half of `on_resize`, for a window now `height` high: the
     * same arithmetic with the row spacing; new rows span the `cols` columns
     * as the first half left them.
     */
    method ResizeRows(height: int) returns (ghost s: AxisStep)
      requires Valid()
      modifies this`rows, this`oldHeight, grid`cells, grid`y
      ensures s == ResizeAxis(height - old(oldHeight), YSpacing(ElementClasses[elementNumber], Size))
      ensures Valid() && cols == old(cols)
      ensures rows == old(rows) + s.grown && oldHeight == height
      ensures grid.y == old(grid.y) + s.leftover / 2.0
      ensures forall c, r :: !InBlock(c, r, 0, cols, old(rows), old(rows) + s.created) ==> grid.Get(c, r) == old(grid.Get(c, r))
      ensures forall c, r :: InBlock(c, r, 0, cols, old(rows), old(rows) + s.created) ==>
        grid.Get(c, r) != null && fresh(grid.Get(c, r)) && Built(grid.Get(c, r), ElementClasses[elementNumber], c, r, CellArgs(c, r))
        && grid.Get(c, r).graphic == None
    {
      var cls := ElementClasses[elementNumber];
      var offset := height - oldHeight;
      var size := YSpacing(cls, Size);
      var leftover: real;
      if offset as real > size.Value() {
        var n := PyIntDivide(offset, size);
        AddRows(cls, rows, rows + n, cols);
        rows := rows + n;
        leftover := offset as real - n as real * size.Value();
      } else if offset as real < -size.Value() {
        var n := PyIntDivide(offset, size);
        // `range(rows - n, rows)` is empty for the negative `n`: no row is removed
        rows := rows - n;
        leftover := offset as real + n as real * size.Value();
      } else {
        leftover := offset as real;
      }
      s := ResizeAxis(offset, size);
      assert leftover == s.leftover;
      grid.y := grid.y + leftover / 2.0;
      oldHeight := height;
    }

    /** The loop of the column growth: columns `i0` to `i1 - 1`, each of `rows` cells. */
    method AddColumns(k: Kind, i0: int, i1: int, rows: int)
      requires grid.Valid()
      modifies grid`cells
      ensures grid.Valid()
      ensures forall c, r :: !InBlock(c, r, i0, i1, 0, rows) ==> grid.Get(c, r) == old(grid.Get(c, r))
      ensures forall c, r :: InBlock(c, r, i0, i1, 0, rows) ==>
        grid.Get(c, r) != null && fresh(grid.Get(c, r)) && Built(grid.Get(c, r), k, c, r, CellArgs(c, r)) && grid.Get(c, r).graphic == None
    {
      var i := i0;
      while i < i1
        invariant i == i0 || i0 <= i <= i1
        invariant grid.Valid()
        invariant forall c, r :: !InBlock(c, r, i0, i, 0, rows) ==> grid.Get(c, r) == old(grid.Get(c, r))
        invariant forall c, r :: InBlock(c, r, i0, i, 0, rows) ==>
          grid.Get(c, r) != null && fresh(grid.Get(c, r)) && Built(grid.Get(c, r), k, c, r, CellArgs(c, r)) && grid.Get(c, r).graphic == None
      {
        CreateColumn(k, i, 0, rows);
        i := i + 1;
      }
    }

    /** The loop of the row growth: rows `j0` to `j1 - 1`, each across columns `0` to `cols - 1`. */
    method AddRows(k: Kind, j0: int, j1: int, cols: int)
      requires grid.Valid()
      modifies grid`cells
      ensures grid.Valid()
      ensures forall c, r :: !InBlock(c, r, 0, cols, j0, j1) ==> grid.Get(c, r) == old(grid.Get(c, r))
      ensures forall c, r :: InBlock(c, r, 0, cols, j0, j1) ==>
        grid.Get(c, r) != null && fresh(grid.Get(c, r)) && Built(grid.Get(c, r), k, c, r, CellArgs(c, r)) && grid.Get(c, r).graphic == None
    {
      var j := j0;
      while j < j1
        invariant j == j0 || j0 <= j <= j1
        invariant grid.Valid()
        invariant forall c, r :: !InBlock(c, r, 0, cols, j0, j) ==> grid.Get(c, r) == old(grid.Get(c, r))
        invariant forall c, r :: InBlock(c, r, 0, cols, j0, j) ==>
          grid.Get(c, r) != null && fresh(grid.Get(c, r)) && Built(grid.Get(c, r), k, c, r, CellArgs(c, r)) && grid.Get(c, r).graphic == None
      {
        CreateRow(k, j, 0, cols);
        j := j + 1;
      }
    }

    /** The inner loop of the row growth: cells `(i, j)` for `i` from `i0` up to `i1`. */
    method CreateRow(k: Kind, j: int, i0: int, i1: int)
      requires grid.Valid()
      modifies grid`cells
      ensures grid.Valid()
      ensures forall c, r :: !(r == j && i0 <= c < i1) ==> grid.Get(c, r) == old(grid.Get(c, r))
      ensures forall c :: i0 <= c < i1 ==>
        grid.Get(c, j) != null && fresh(grid.Get(c, j)) && Built(grid.Get(c, j), k, c, j, CellArgs(c, j)) && grid.Get(c, j).graphic == None
    {
      var i := i0;
      while i < i1
        invariant i == i0 || i0 <= i <= i1
        invariant grid.Valid()
        invariant forall c, r :: !(r == j && i0 <= c < i) ==> grid.Get(c, r) == old(grid.Get(c, r))
        invariant forall c :: i0 <= c < i ==>
          grid.Get(c, j) != null && fresh(grid.Get(c, j)) && Built(grid.Get(c, j), k, c, j, CellArgs(c, j)) && grid.Get(c, j).graphic == None
      {
        var _ := CreateElement(k, i, j);
        i := i + 1;
      }
    }

    /**
     * The scene's `on_mouse_over` for the sprite of cell `e` (null for a blank
     * spot): unless the sprite is being animated (`tweening`), exchange its
     * foreground and stroke colours.
     */
    method OnMouseOver(e: GridElement?, tweening: bool)
      requires e != null ==> e.graphic.Some?
      modifies e
      ensures e != null && !tweening ==> e.graphic == Some(SwapColors(old(e.graphic.value)))
      ensures e != null && tweening ==> e.graphic == old(e.graphic)
      ensures e != null ==> e.colorForeground == old(e.colorForeground) && e.colorStroke == old(e.colorStroke) && e.args == old(e.args)
    {
      if e == null { return; }
      if tweening { return; }
      var sprite := e.graphic.value;
      var tmp := sprite.colorForeground;
      sprite := sprite.(colorForeground := sprite.colorStroke);
      sprite := sprite.(colorStroke := tmp);
      e.graphic := Some(sprite);
    }

    /** The scene's `on_mouse_out`: the same exchange, with no animation check. */
    method OnMouseOut(e: GridElement?)
      requires e != null ==> e.graphic.Some?
      modifies e
      ensures e != null ==> e.graphic == Some(SwapColors(old(e.graphic.value)))
      ensures e != null ==> e.colorForeground == old(e.colorForeground) && e.colorStroke == old(e.colorStroke) && e.args == old(e.args)
    {
      if e == null { return; }
      var sprite := e.graphic.value;
      var tmp := sprite.colorForeground;
      sprite := sprite.(colorForeground := sprite.colorStroke);
      sprite := sprite.(colorStroke := tmp);
      e.graphic := Some(sprite);
    }

    /** Entering and leaving a sprite that is not animated leaves it as it was. */
    method PointerPasses(e: GridElement)
      requires e.graphic.Some?
      modifies e
      ensures e.graphic == old(e.graphic)
    {
      OnMouseOver(e, false);
      OnMouseOut(e);
      SwapInvolution(old(e.graphic.value));
    }
  }
}
