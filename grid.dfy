/**
 * The sparse grid container (`Grid`) and its cells (`GridElement` and the
 * sprite each one creates lazily), from grid.py.
 */
module Grids {
  import opened Wrappers
  import opened Tiling

  /** The two handlers a cell's `on_click` option can name. */
  datatype ClickAction = PrevHandler | NextHandler

  type Color = string

  /** The keyword options `**args` a cell is built with; an absent key is `None`. */
  datatype Args = Args(
    colorForeground: Option<Color>,
    colorStroke: Option<Color>,
    strokeWidth: Option<int>,
    onClick: Option<ClickAction>)

  /**
   * `GridElementSprite`: the drawable a cell creates on first use. `x`, `y` is
   * its origin within the grid (a `graphics.Sprite` starts at 0, 0).
   */
  datatype Sprite = Sprite(
    i: int, j: int,
    width: int, height: int,
    strokeWidth: int,
    colorForeground: Color, colorStroke: Color,
    onClick: Option<ClickAction>,
    interactive: bool,
    x: real, y: real)

  /** A cell of one of the three tilings; the subclass is the field `kind`. */
  class GridElement {
    const kind: Kind
    const i: int
    const j: int
    const height: int
    const width: int
    const strokeWidth: int
    var colorForeground: Color
    var colorStroke: Color
    var args: Args
    /** The memoised sprite (`__graphic`), `None` until first asked for. */
    var graphic: Option<Sprite>

    constructor (kind: Kind, i: int, j: int, height: int, width: int, args: Args)
      ensures this.kind == kind && this.i == i && this.j == j
      ensures this.height == height && this.width == width
      ensures strokeWidth == args.strokeWidth.GetOr(2)
      ensures colorForeground == args.colorForeground.GetOr("#fff")
      ensures colorStroke == args.colorStroke.GetOr("#000")
      ensures this.args == args && graphic == None
    {
      this.kind := kind;
      this.i := i;
      this.j := j;
      this.height := height;
      this.width := width;
      strokeWidth := args.strokeWidth.GetOr(2);
      colorForeground := args.colorForeground.GetOr("#fff");
      colorStroke := args.colorStroke.GetOr("#000");
      this.args := args;
      graphic := None;
    }

    /**
     * `create_sprite`: the sprite takes the cell's coordinate, width and
     * height, and its colours and stroke width from the options (with the
     * sprite's own defaults), not from the cell's current colours; odd
     * triangle columns get a negated height. The options are passed in
     * (every call passes the cell's own `args`).
     */
    function CreateSprite(args: Args): (s: Sprite)
      ensures s.i == i && s.j == j && s.width == width && s.interactive
      ensures s.strokeWidth == args.strokeWidth.GetOr(2)
      ensures s.height == (if kind == Triangular && i % 2 == 1 then -height else height)
      ensures s.colorForeground == (if args.colorForeground.Some? then args.colorForeground.value else "#333")
      ensures s.colorStroke == (if args.colorStroke.Some? then args.colorStroke.value else "#000")
      ensures s.onClick == args.onClick && s.x == 0.0 && s.y == 0.0
    {
      Sprite(i, j, width, SpriteHeight(kind, i, height),
             args.strokeWidth.GetOr(2),
             args.colorForeground.GetOr("#333"), args.colorStroke.GetOr("#000"),
             args.onClick, true, 0.0, 0.0)
    }

    /**
     * The sprite the `graphic` property hands out when the memo is `memo` and
     * the options `args`: the memoised one, else a new one.
     */
    function Materialized(memo: Option<Sprite>, args: Args): (s: Sprite)
      ensures memo.Some? ==> s == memo.value
      ensures memo.None? ==> s == CreateSprite(args)
    {
      if memo.Some? then memo.value else CreateSprite(args)
    }

    /** The offset `set_origin` adds to the running `y` for this cell. */
    function OriginOffset(): real {
      Tiling.OriginOffset(kind, i, height)
    }

    /** Sprite `s` as `set_origin(x, y)` leaves it: at `x`, and `y` plus the stagger. */
    function Placed(s: Sprite, x: real, y: real): Sprite {
      s.(x := x, y := y + OriginOffset())
    }

    /** The `graphic` property: create the sprite once, then keep returning it. */
    method Graphic() returns (s: Sprite)
      modifies this`graphic
      ensures s == Materialized(old(graphic), args)
      ensures graphic == Some(s)
      ensures old(graphic).Some? ==> s == old(graphic).value
    {
      if graphic.None? {
        graphic := Some(CreateSprite(args));
      }
      s := graphic.value;
    }

    /** `set_origin`, with the variant's stagger: moves the (possibly new) sprite. */
    method SetOrigin(x: real, y: real)
      modifies this`graphic
      ensures graphic == Some(Placed(Materialized(old(graphic), args), x, y))
    {
      var g := Graphic();
      graphic := Some(Placed(g, x, y));
    }

    /** `on_over`: swap foreground and stroke, unless there is no sprite. */
    method OnOver(sprite: Option<Sprite>)
      modifies this`colorForeground, this`colorStroke
      ensures sprite.Some? ==> colorForeground == old(colorStroke) && colorStroke == old(colorForeground)
      ensures sprite.None? ==> colorForeground == old(colorForeground) && colorStroke == old(colorStroke)
    {
      if sprite.None? { return; }
      var tmp := colorForeground;
      colorForeground := colorStroke;
      colorStroke := tmp;
    }

    /** `on_out`: the same swap, so it undoes `on_over`. */
    method OnOut(sprite: Option<Sprite>)
      modifies this`colorForeground, this`colorStroke
      ensures sprite.Some? ==> colorForeground == old(colorStroke) && colorStroke == old(colorForeground)
      ensures sprite.None? ==> colorForeground == old(colorForeground) && colorStroke == old(colorStroke)
    {
      if sprite.None? { return; }
      var tmp := colorForeground;
      colorForeground := colorStroke;
      colorStroke := tmp;
    }
  }

  /** Hovering over a cell and leaving it restores its colours. */
  method HoverRoundTrip(e: GridElement, sprite: Option<Sprite>)
    modifies e`colorForeground, e`colorStroke
    ensures e.colorForeground == old(e.colorForeground) && e.colorStroke == old(e.colorStroke)
  {
    e.OnOver(sprite);
    e.OnOut(sprite);
  }

  /** How many keys of `keys` are below `k`: the position of `k` in increasing order. */
  function Rank(keys: set<int>, k: int): nat {
    |set u | u in keys && u < k|
  }

  /** `r` is the smallest key of `s`: the one an increasing traversal visits next. */
  predicate IsLeast(s: set<int>, r: int) {
    r in s && forall b :: b in s ==> r <= b
  }

  /** A non-empty key set has a least key. */
  lemma LeastKey(s: set<int>) returns (m: int)
    requires s != {}
    ensures IsLeast(s, m)
  {
    var a := Member(s);
    m := LeastBelow(s, a);
  }

  /** Some member of a non-empty set. */
  lemma Member<T>(s: set<T>) returns (a: T)
    requires s != {}
    ensures a in s
  {
    if forall x :: x !in s {
      assert false;
    }
    a :| a in s;
  }

  /** The least key of `s`, which is at most its member `a`. */
  lemma LeastBelow(s: set<int>, a: int) returns (m: int)
    requires a in s
    ensures IsLeast(s, m) && m <= a
    decreases s
  {
    if b :| b in s && b < a {
      m := LeastBelow(s - {a}, b);
      forall u | u in s ensures m <= u {
        if u != a { assert u in s - {a}; }
      }
    } else {
      m := a;
    }
  }

  /** The keys before and after a point of an increasing traversal. */
  ghost predicate SplitAt(keys: set<int>, done: set<int>, todo: set<int>) {
    && done + todo == keys
    && done !! todo
    && (forall a, b :: a in done && b in todo ==> a < b)
  }

  /** Keys next to each other in increasing order have consecutive ranks. */
  lemma RankStep(keys: set<int>, a: int, b: int)
    requires a in keys && b in keys && a < b
    requires forall u :: u in keys && a < u ==> b <= u
    ensures Rank(keys, b) == Rank(keys, a) + 1
  {
    var below := set u | u in keys && u < a;
    assert (set u | u in keys && u < b) == below + {a};
  }

  /** The running coordinate after `k` steps of `s`, as `on_render` accumulates it. */
  function Steps(k: nat, s: real): real {
    if k == 0 then 0.0 else Steps(k - 1, s) + s
  }

  /** Accumulating `k` steps of `s` lands at `k * s`. */
  lemma {:induction false} StepsIsProduct(k: nat, s: real)
    ensures Steps(k, s) == k as real * s
  {
    if k > 0 {
      StepsIsProduct(k - 1, s);
      assert k as real * s == (k - 1) as real * s + s;
    }
  }

  /** `pos` gives every key of `keys` one step of `s` per key before it. */
  ghost predicate Spaced(keys: set<int>, pos: map<int, real>, s: real) {
    && keys <= pos.Keys
    && forall k {:trigger Rank(keys, k)} :: k in keys ==> pos[k] == Steps(Rank(keys, k), s)
  }

  /** The coordinates an increasing traversal of `keys` hands out. */
  lemma Layout(keys: set<int>, s: real) returns (pos: map<int, real>)
    ensures Spaced(keys, pos, s)
  {
    pos := map k | k in keys :: Steps(Rank(keys, k), s);
  }

  /** The least key not yet visited is due at coordinate `v`. */
  ghost predicate NextAt(todo: set<int>, pos: map<int, real>, v: real) {
    forall r :: IsLeast(todo, r) ==> r in pos && pos[r] == v
  }

  /** A traversal starts at coordinate 0. */
  lemma StartAt(keys: set<int>, pos: map<int, real>, s: real)
    requires Spaced(keys, pos, s)
    ensures NextAt(keys, pos, 0.0)
  {
    forall r | IsLeast(keys, r) ensures r in pos && pos[r] == 0.0 {
      assert (set u | u in keys && u < r) == {};
      assert Rank(keys, r) == 0;
    }
  }

  /** Visiting the least key `r` moves it from what is left to what is done. */
  lemma SplitStep(keys: set<int>, done: set<int>, todo: set<int>, r: int)
    requires SplitAt(keys, done, todo) && IsLeast(todo, r)
    ensures SplitAt(keys, done + {r}, todo - {r})
  {
    forall a, b | a in done + {r} && b in todo - {r} ensures a < b {
      if a != r { assert a in done; }
    }
  }

  /** Visiting the least key `r`: what is left is split off, and due one step further on. */
  lemma Advance(keys: set<int>, done: set<int>, todo: set<int>, r: int, pos: map<int, real>, s: real, v: real)
    requires SplitAt(keys, done, todo) && Spaced(keys, pos, s)
    requires IsLeast(todo, r) && NextAt(todo, pos, v)
    ensures SplitAt(keys, done + {r}, todo - {r})
    ensures NextAt(todo - {r}, pos, v + s)
  {
    SplitStep(keys, done, todo, r);
    assert r in keys;
    assert pos[r] == v;
    forall r' | IsLeast(todo - {r}, r') ensures r' in pos && pos[r'] == v + s {
      assert r' in keys && r < r';
      forall u | u in keys && r < u ensures r' <= u {
        assert u !in done;
        assert u in todo - {r};
      }
      RankStep(keys, r, r');
      calc {
        pos[r'];
        Steps(Rank(keys, r'), s);
        Steps(Rank(keys, r) + 1, s);
        Steps(Rank(keys, r), s) + s;
        pos[r] + s;
      }
    }
  }

  /** The column or row indices `0, 1, ..., n - 1`. */
  function Interval(n: nat): (r: set<int>)
    ensures forall u :: u in r <==> 0 <= u < n
  {
    if n == 0 then {} else Interval(n - 1) + {n - 1}
  }

  /** `[0, n)` has `n` members. */
  lemma {:induction false} IntervalSize(n: nat)
    ensures |Interval(n)| == n
  {
    if n > 0 {
      var prev := Interval(n - 1);
      IntervalSize(n - 1);
      assert n - 1 !in prev;
      assert |prev + {n - 1}| == |prev| + 1;
    }
  }

  /** In a key set `[0, n)` every key is its own rank. */
  lemma RankOfInterval(n: nat, k: int)
    requires 0 <= k < n
    ensures Rank(Interval(n), k) == k
  {
    assert (set u | u in Interval(n) && u < k) == Interval(k);
    IntervalSize(k);
  }

  /** Keys in increasing order have increasing ranks. */
  lemma RankMonotone(keys: set<int>, a: int, b: int)
    requires a in keys && a < b
    ensures Rank(keys, a) < Rank(keys, b)
  {
    var below := set u | u in keys && u < a;
    var upTo := set u | u in keys && u < b;
    assert upTo == below + (upTo - below);
    assert a in upTo - below;
  }

  /** Accumulated steps of a positive spacing grow with the count. */
  lemma {:induction false} StepsMonotone(k: nat, l: nat, s: real)
    requires k < l && s > 0.0
    ensures Steps(k, s) < Steps(l, s)
  {
    StepsIsProduct(k, s);
    StepsIsProduct(l, s);
  }

  /**
   * The inner loop of `on_render` over one column, in increasing row order, at
   * the given `x`: each element's sprite is created if need be and moved to its
   * row's coordinate plus the variant's stagger.
   */
  method RenderColumn(column: map<int, GridElement>, i: int, x: real, ySpacing: real)
    requires forall r :: r in column ==> column[r].i == i && column[r].j == r
    modifies column.Values`graphic
    ensures forall e: GridElement :: old(allocated(e)) && e.i != i ==> e.graphic == old(e.graphic)
    ensures forall r :: r in column ==>
      column[r].graphic == Some(column[r].Placed(column[r].Materialized(old(column[r].graphic), column[r].args),
        x, Steps(Rank(column.Keys, r), ySpacing)))
  {
    ghost var ys := Layout(column.Keys, ySpacing);
    var todo := column.Keys;
    ghost var done: set<int> := {};
    var y := 0.0;
    StartAt(column.Keys, ys, ySpacing);
    while todo != {}
      invariant SplitAt(column.Keys, done, todo)
      invariant NextAt(todo, ys, y)
      invariant forall r :: r in done ==>
        column[r].graphic == Some(column[r].Placed(column[r].Materialized(old(column[r].graphic), column[r].args), x, ys[r]))
      invariant forall r :: r in todo ==> column[r].graphic == old(column[r].graphic)
      invariant forall e: GridElement :: old(allocated(e)) && e.i != i ==> e.graphic == old(e.graphic)
      decreases todo
    {
      ghost var least := LeastKey(todo);
      var r :| IsLeast(todo, r);
      Advance(column.Keys, done, todo, r, ys, ySpacing, y);
      column[r].SetOrigin(x, y);
      done := done + {r};
      todo := todo - {r};
      y := y + ySpacing;
    }
  }

  /** The elements stored in a column map of row maps. */
  function Members(cells: map<int, map<int, GridElement>>): (r: set<GridElement>)
    ensures forall c, k :: c in cells && k in cells[c] ==> cells[c][k] in r
    ensures forall d :: d in r ==> exists c, k :: c in cells && k in cells[c] && cells[c][k] == d
  {
    set c, k | c in cells && k in cells[c] :: cells[c][k]
  }

  /**
   * `Grid`: a dictionary of columns `i`, each a dictionary of rows `j`, plus the
   * grid's own position and the spacing used to lay the cells out.
   */
  class Grid {
    var x: real
    var y: real
    var xSpacing: real
    var ySpacing: real
    var cells: map<int, map<int, GridElement>>

    /**
     * Every element sits at its own `(i, j)` and no column is empty. `add`
     * keeps this; `set` keeps it when given an element of that coordinate,
     * as every call in the program does.
     */
    ghost predicate Valid()
      reads this`cells
    {
      && (forall c, r :: c in cells && r in cells[c] ==> cells[c][r].i == c && cells[c][r].j == r)
      && (forall c :: c in cells ==> cells[c] != map[])
    }

    constructor (x: real := 0.0, y: real := 0.0, xSpacing: real := 50.0, ySpacing: real := 50.0)
      ensures Valid() && cells == map[]
      ensures this.x == x && this.y == y && this.xSpacing == xSpacing && this.ySpacing == ySpacing
    {
      this.x := x;
      this.y := y;
      this.xSpacing := xSpacing;
      this.ySpacing := ySpacing;
      cells := map[];
    }

    /** `get`: the element at `(i, j)`, or null when the column or the row is missing. */
    function Get(i: int, j: int): (r: GridElement?)
      reads this`cells
      ensures r != null <==> i in cells && j in cells[i]
      ensures r != null ==> r == cells[i][j]
      ensures r != null && Valid() ==> r.i == i && r.j == j
    {
      if i !in cells || j !in cells[i] then null else cells[i][j]
    }

    /** `elements`: exactly the stored elements (the traversal order is left open). */
    function Elements(): (r: set<GridElement>)
      reads this`cells
      ensures forall c, k :: c in cells && k in cells[c] ==> cells[c][k] in r
      ensures forall d :: d in r ==> exists c, k :: c in cells && k in cells[c] && cells[c][k] == d
    {
      Members(cells)
    }

    /** With no empty column, the grid holds an element exactly when it holds a column. */
    lemma ElementsEmpty()
      requires Valid()
      ensures Elements() == {} <==> cells == map[]
    {
      if cells != map[] {
        var c := Member(cells.Keys);
        var r := Member(cells[c].Keys);
        assert cells[c][r] in Elements();
      }
    }

    /** `add`: store `e` at its own coordinate; whatever was there is replaced. */
    method Add(e: GridElement)
      modifies this`cells
      ensures Get(e.i, e.j) == e
      ensures forall c, r :: (c, r) != (e.i, e.j) ==> Get(c, r) == old(Get(c, r))
      ensures cells.Keys == old(cells.Keys) + {e.i}
      ensures old(Valid()) ==> Valid()
      ensures forall d :: d in Elements() ==> d in old(Elements()) || d == e
    {
      if e.i !in cells {
        cells := cells[e.i := map[]];
      }
      cells := cells[e.i := cells[e.i][e.j := e]];
    }

    /** `set`: replace what is at `(i, j)`; column `i` must already exist. */
    method SetAt(i: int, j: int, e: GridElement)
      requires i in cells
      modifies this`cells
      ensures cells == old(cells)[i := old(cells)[i][j := e]]
      ensures Get(i, j) == e
      ensures forall c, r :: (c, r) != (i, j) ==> Get(c, r) == old(Get(c, r))
      ensures cells.Keys == old(cells.Keys)
      ensures old(Valid()) && e.i == i && e.j == j ==> Valid()
    {
      cells := cells[i := cells[i][j := e]];
    }

    /**
     * The origin `on_render` passes to `set_origin` for the element at
     * `(c, r)`: `xSpacing` per column before `c`, and `ySpacing` per row
     * before `r` in column `c`.
     */
    ghost function Origin(c: int, r: int): (o: (real, real))
      reads this
      requires c in cells && r in cells[c]
      ensures Rank(cells[c].Keys, r) == 0 ==> o.1 == 0.0
    {
      (Steps(Rank(cells.Keys, c), xSpacing), Steps(Rank(cells[c].Keys, r), ySpacing))
    }

    /** The origin is the rank of the column, and of the row in it, times the spacing. */
    lemma OriginByRank(c: int, r: int)
      requires c in cells && r in cells[c]
      ensures Origin(c, r).0 == Rank(cells.Keys, c) as real * xSpacing
      ensures Origin(c, r).1 == Rank(cells[c].Keys, r) as real * ySpacing
    {
      StepsIsProduct(Rank(cells.Keys, c), xSpacing);
      StepsIsProduct(Rank(cells[c].Keys, r), ySpacing);
    }

    /** In a full `cols` by `rows` block the origin of `(c, r)` is `(c * xSpacing, r * ySpacing)`. */
    lemma DenseOrigin(cols: nat, rows: nat, c: int, r: int)
      requires cells.Keys == Interval(cols) && 0 <= c < cols
      requires cells[c].Keys == Interval(rows) && 0 <= r < rows
      ensures Origin(c, r).0 == c as real * xSpacing && Origin(c, r).1 == r as real * ySpacing
    {
      OriginByRank(c, r);
      RankOfInterval(cols, c);
      RankOfInterval(rows, r);
    }

    /**
     * With a positive spacing no two cells share an origin: columns further
     * right get a larger `x`, rows further down in a column a larger `y`.
     */
    lemma OriginsSeparate(c: int, r: int, c': int, r': int)
      requires xSpacing > 0.0 && ySpacing > 0.0
      requires c in cells && r in cells[c] && c' in cells && r' in cells[c']
      ensures c < c' ==> Origin(c, r).0 < Origin(c', r').0
      ensures c == c' && r < r' ==> Origin(c, r).1 < Origin(c', r').1
    {
      if c < c' {
        RankMonotone(cells.Keys, c, c');
        StepsMonotone(Rank(cells.Keys, c), Rank(cells.Keys, c'), xSpacing);
      }
      if c == c' && r < r' {
        RankMonotone(cells[c].Keys, r, r');
        StepsMonotone(Rank(cells[c].Keys, r), Rank(cells[c].Keys, r'), ySpacing);
      }
    }

    /**
     * Positions are packed by rank, not taken from the indices: with only
     * `(0, 0)` and `(1, 1)` stored, `(1, 1)` is drawn at the top of the
     * second column.
     */
    lemma SparsePacking()
      requires cells.Keys == {0, 1} && cells[0].Keys == {0} && cells[1].Keys == {1}
      ensures Origin(0, 0).0 == 0.0 && Origin(0, 0).1 == 0.0
      ensures Origin(1, 1).0 == xSpacing && Origin(1, 1).1 == 0.0
    {
      assert (set u | u in cells.Keys && u < 0) == {};
      assert (set u | u in cells.Keys && u < 1) == {0};
      assert (set u | u in cells[0].Keys && u < 0) == {};
      assert (set u | u in cells[1].Keys && u < 1) == {};
    }

    /**
     * `on_render`: visit the columns in increasing `i`, and in each the rows in
     * increasing `j`; `x` steps by `xSpacing` per column, `y` by `ySpacing` per
     * element and restarts at 0 in each column.
     */
    method OnRender()
      requires Valid()
      modifies Elements()`graphic
      ensures forall c, r {:trigger cells[c][r]} :: c in cells && r in cells[c] ==>
        cells[c][r].graphic == Some(cells[c][r].Placed(cells[c][r].Materialized(old(cells[c][r].graphic), cells[c][r].args),
          Origin(c, r).0, Origin(c, r).1))
    {
      var columns: map<int, map<int, GridElement>> := cells;
      ghost var xs := Layout(columns.Keys, xSpacing);
      var todo := columns.Keys;
      ghost var done: set<int> := {};
      var x := 0.0;
      StartAt(columns.Keys, xs, xSpacing);
      while todo != {}
        invariant SplitAt(columns.Keys, done, todo)
        invariant NextAt(todo, xs, x)
        invariant forall c, r {:trigger columns[c][r]} :: c in done && r in columns[c] ==>
          columns[c][r].graphic == Some(columns[c][r].Placed(columns[c][r].Materialized(old(columns[c][r].graphic), columns[c][r].args),
            xs[c], Steps(Rank(columns[c].Keys, r), ySpacing)))
        invariant forall c, r {:trigger columns[c][r]} :: c in todo && r in columns[c] ==>
          columns[c][r].graphic == old(columns[c][r].graphic)
        decreases todo
      {
        ghost var least := LeastKey(todo);
        var c :| IsLeast(todo, c);
        Advance(columns.Keys, done, todo, c, xs, xSpacing, x);
        assert x == xs[c];
        RenderColumn(columns[c], c, x, ySpacing);
        done := done + {c};
        todo := todo - {c};
        x := x + xSpacing;
      }
    }
  }
}
