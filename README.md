# Grid tilings and the fading pointer trail

This project models two GUI demos in Dafny and proves properties of them.

The first is the tiling demo in `grid.py`:

- a sparse `Grid` of cells, stored as a dictionary of columns `i`, each a dictionary of rows `j`;
- its cells. A cell is a `GridElement` in one of three variants: rectangular, hexagonal or triangular. Each cell lazily creates a sprite and swaps its colours on hover;
- the `Scene`. It builds a checkerboard of rectangles and cycles the whole grid through the three variants on a click. On a window resize it grows the grid by whole cells and shifts the grid by half of what is left over.

The second is the pointer trail in `mouse_fade_out.py`. The canvas keeps up to the last ten pointer positions, newest first. Each expose draws them oldest first with rising opacity, then forgets the oldest one unless it is the only one.

Modules:

- `Wrappers`: `Option`.
- `Tiling`: the element classes, their spacing factors, and the column stagger each variant's `set_origin` applies.
- `Grids`: the `GridElement` and `Grid` classes, and the layout that `on_render` computes.
- `Scenes`: the `Scene` class and the arithmetic of Python 2 integer division and of the resize.
- `MouseTrail`: the `Canvas` class and its trail.

Classes keep the source's mutable state as fields: the cell dictionary, the spacings, the counters and the trail. The loops of the source are `while` loops with invariants.

`on_render` and `elements` walk Python 2 dictionaries. The model visits keys in increasing order and states every position by rank. The rank of a column is the number of stored columns with a smaller index, and the rank of a row is counted the same way within its column.

Positions are packed by rank, not by index: each column's `y` restarts at 0 and steps once per stored element. With only `(0, 0)` and `(1, 1)` stored in a rectangular grid of spacing 60, `(1, 1)` is the only element of its column, so it is drawn at `(60, 0)`, not at `(60, 60)` (`Grids.Grid.SparsePacking`).

Python 2 arithmetic is written out:

- `size * factor` is an `int` for the factor `1` and a `float` for the others, so `Spacing` has an integer case and a real case.
- `int(a / b)` floors when both operands are `int`s and truncates toward zero when one is a `float` (`Scenes.PyIntDivide`).
- `height/2` in the hexagonal stagger is integer halving, and so is `radius / 5` in the trail.

## Model

| member | source | states |
|---|---|---|
| Tiling.XSpacing | grid.py:238-238 | The column spacing is `size` times the class's factor: 1, 0.75 or 0.5. It is positive for a positive size. |
| Tiling.YSpacing | grid.py:239-239 | The row spacing is `size` times the class's factor: 1, 0.866 or 1. It is positive for a positive size. |
| Tiling.OriginOffset | grid.py:135-185 | What the three `set_origin` overrides add to `y`: nothing for rectangles and for even columns, and never a negative amount for a non-negative height. |
| Tiling.SpriteHeight | grid.py:151-155 | The sprite height is the cell's height or its negation, and it is negated (for a non-zero height) exactly for odd triangle columns. |
| Tiling.OddColumnsStagger | grid.py:135-185 | The `set_origin` rules: even columns are never shifted. In odd columns, rectangles are not shifted, hexagons move down by `height/2 * 0.866` and triangles by `height`. |
| Tiling.OffsetPeriodic | grid.py:135-185 | The stagger and the sprite height depend only on the column's parity, for negative columns too. |
| Tiling.TriangleFlip | grid.py:151-155 | Adjacent triangle columns have sprite heights of opposite sign, so odd columns point down. |
| Grids.GridElement.constructor | grid.py:11-20 | A new cell takes the stroke width and the colours from its options, defaulting to 2, `#fff` and `#000`. It keeps the options and has no sprite yet. |
| Grids.GridElement.CreateSprite | grid.py:26-34 | The sprite takes coordinates and width from the cell. It takes the colours from the options, with the sprite's own defaults `#333` and `#000`, not from the cell's current colours. Its stroke width is the option's, defaulting to 2, and its click handler is the `on_click` option, if any. It is interactive. Odd triangle columns get a negated height. |
| Grids.GridElement.Materialized | grid.py:57-62 | The `graphic` property returns the memoised sprite if there is one, otherwise a newly created one. |
| Grids.GridElement.Graphic | grid.py:57-62 | After the first call the memo holds the sprite. Later calls return the same sprite. |
| Grids.GridElement.SetOrigin | grid.py:22-24 | The cell's (possibly new) sprite moves to `x`, and to `y` plus the variant's stagger. |
| Grids.GridElement.OnOver | grid.py:36-41 | With a sprite, foreground and stroke are exchanged. Without one, nothing changes. |
| Grids.GridElement.OnOut | grid.py:43-47 | The same exchange under the same guard. |
| Grids.HoverRoundTrip | grid.py:36-47 | Hovering over a cell and leaving it restores its colours, whether or not it has a sprite. |
| Grids.StepsIsProduct | grid.py:118-118 | Adding the spacing `k` times gives `k` times the spacing. |
| Grids.RenderColumn | grid.py:114-118 | One column, visited in increasing row order: each cell's sprite is created if need be and placed at the column's `x` and at its row's rank times the spacing plus the stagger. Cells of other columns are untouched. |
| Grids.Grid.constructor | grid.py:79-90 | An empty grid with the given position and spacings. |
| Grids.Grid.Get | grid.py:98-103 | `get` returns null exactly when the column is missing or the row is missing in it. Otherwise it returns the stored cell, which sits at that coordinate. |
| Grids.Grid.Elements | grid.py:123-126 | The elements are exactly the stored cells: every stored cell is among them, and each of them is stored at some coordinate. |
| Grids.Grid.ElementsEmpty | grid.py:123-126 | The grid yields no element exactly when it has no column. |
| Grids.Grid.Add | grid.py:92-96 | After `add(e)`, `get(e.i, e.j)` is `e`, whatever was there before, so the last write wins. Every other coordinate looks up as before. The column keys gain `e.i`. The grid stays well formed. No other cell enters. |
| Grids.Grid.SetAt | grid.py:105-106 | It requires column `i` to exist. Exactly `(i, j)` is replaced and every other coordinate is unchanged. |
| Grids.Grid.Origin | grid.py:108-120 | The origin `on_render` hands out for `(c, r)`. The first row of every column gets `y = 0`, because `y` restarts for each column. The rank-based values are in `Grids.Grid.OriginByRank`. |
| Grids.Grid.OriginByRank | grid.py:108-120 | The column with `k` columns before it gets `x = k * x_spacing`. The row with `m` rows before it in its column gets `y = m * y_spacing`. |
| Grids.Grid.DenseOrigin | grid.py:108-120 | In a full `cols` by `rows` block, cell `(c, r)` is placed at `(c * x_spacing, r * y_spacing)`. |
| Grids.Grid.OriginsSeparate | grid.py:108-120 | With positive spacings, later columns get larger `x`, and later rows in a column get larger `y`. |
| Grids.Grid.SparsePacking | grid.py:108-120 | With only `(0, 0)` and `(1, 1)` stored, `(1, 1)` is placed at `(x_spacing, 0)`, not `(x_spacing, y_spacing)`. |
| Grids.Grid.OnRender | grid.py:108-120 | Every stored cell's sprite (created if need be) is placed at its column's rank times `x_spacing`, and its row's rank within the column times `y_spacing` plus the variant's stagger. |
| Scenes.CellColor | grid.py:218-221 | A cell is coloured either `#060` or `#666`. |
| Scenes.Checkerboard | grid.py:218-221 | The colour is `#060` exactly when the row and column parities agree. Horizontal and vertical neighbours differ, and diagonal neighbours agree. |
| Scenes.CellArgs | grid.py:222-225 | `create_element` passes the checkerboard foreground, stroke `#000`, stroke width 2 and no click handler. |
| Scenes.ActionArgsAsWritten | grid.py:228-233 | `set_action` as written: the foreground option becomes `#0a0` and the handler option is always `prev_grid_type`. |
| Scenes.ForwardLinkGoesBack | grid.py:250-251 | As written, the forward link in the top-right cell gets the backward handler. |
| Scenes.ActionArgs | grid.py:228-233 | `set_action` as intended: the handler it is given is the one installed, and the other options are unchanged. |
| Scenes.ActionOverwrites | grid.py:228-233 | A second `set_action` replaces the first handler. The intended and the as-written versions agree only for the backward handler. |
| Scenes.NextIndex | grid.py:266-267 | The next class index stays in `[0, 3)`. |
| Scenes.PrevIndex | grid.py:263-264 | The previous class index stays in `[0, 3)`. |
| Scenes.PrevNextInverse | grid.py:263-267 | Back after forward, and forward after back, return to the same class. |
| Scenes.NextCycles | grid.py:263-267 | Three steps either way return to the start, and three forward steps visit every class. |
| Scenes.InitialArgs | grid.py:235-251 | The options a fresh `create_grid` leaves. Every cell has stroke `#000` and width 2. The forward link is exactly at `(cols - 1, 0)`, and the backward link is exactly at `(0, 0)` unless the grid has one column, where the forward link overwrites it. A linked cell is bright green, and every other cell has the plain `create_element` options. The links are as intended (see ## Findings). |
| Scenes.Trunc | grid.py:242-243 | `int()` of a float truncates toward zero. |
| Scenes.PyIntDivide | grid.py:242-243 | Python 2's `int(a / spacing)`: floored for an int spacing, truncated toward zero for a float one. A non-negative numerator gives a non-negative quotient. The bracketing is in `Scenes.DivideFloors`. |
| Scenes.DivideFloors | grid.py:242-243 | For a non-negative numerator, `int(a / spacing)` is the whole number of spacings in `a`, whether the spacing is an int or a float. |
| Scenes.DivideNegative | grid.py:284-284 | A numerator below minus one spacing gives a negative quotient. |
| Scenes.ResizeAxis | grid.py:273-289 | One axis of `on_resize`: how many lines are created, how much the count grows, and the leftover. Both counts are non-negative, and when lines are created the count grows by exactly that many. |
| Scenes.ResizeGrows | grid.py:275-282 | Growing by more than one cell adds at least one line: the whole number of cells in the offset. The leftover lies in `[0, size)`. |
| Scenes.ResizeDeadZone | grid.py:289-289 | Within one cell either way nothing is added, and the whole offset is left over. |
| Scenes.ShrinkGrowsCount | grid.py:283-288 | The shrink branch as written creates nothing, yet increases the count, and pushes the leftover further below the offset. |
| Scenes.RebuiltIsValid | grid.py:256-258 | A grid whose columns are all rebuilt at their own coordinates is well formed. |
| Scenes.SwapColors | grid.py:319-321 | The exchanged sprite has the other's colours, and nothing else differs. |
| Scenes.Scene.constructor | grid.py:202-215 | The scene starts at class 0 and remembers the window size. It builds a grid at `(50, 50)` with the rectangular spacings `60 × 60`, of `int((width-50)/60)` by `int((height-50)/60)` new rectangles, with the corner links as intended (see ## Findings). |
| Scenes.Scene.SetAction | grid.py:228-233 | As intended (see ## Findings): the cell at `(i, j)`, if any, gets foreground `#0a0` and the handler it is given as an option. Its stroke and sprite are unchanged. A missing cell means nothing happens. |
| Scenes.Scene.CreateGrid | grid.py:235-251 | The grid is new, with rectangular spacings, and `cols`/`rows` are the whole cells that fit. There is exactly one new cell at every coordinate of `[0, cols) x [0, rows)` and none elsewhere. Each cell has the checkerboard options, except that the two top corners carry the links, as intended (see ## Findings). |
| Scenes.Scene.FillColumns | grid.py:245-247 | The nested loop fills exactly `[0, cols) x [0, rows)` with new cells built from `create_element`'s options. |
| Scenes.Scene.LinkCorners | grid.py:250-251 | After the two `set_action` calls, every cell has the options of a fresh `create_grid`, with the links as intended (see ## Findings): backward at the top left, forward at the top right. |
| Scenes.Scene.SetGridType | grid.py:253-261 | Class `n` becomes current. The grid keeps its coordinates, and every cell is a new cell of class `n` built from the old cell's options. On success, the spacings are those of class `n`, and every sprite is new and placed at its rank-based origin. On an empty grid (the `NameError` path) `ok` is false and the spacings are unchanged. |
| Scenes.Scene.PrevGridType | grid.py:263-264 | The class index steps back modulo 3, and every cell is replaced in place by a new cell built from its options. On a non-empty grid the spacings become those of the new class and every sprite is new and placed at its rank-based origin. On an empty grid `ok` is false and the spacings are unchanged. |
| Scenes.Scene.NextGridType | grid.py:266-267 | The class index steps forward modulo 3, and every cell is replaced in place by a new cell built from its options. On a non-empty grid the spacings become those of the new class and every sprite is new and placed at its rank-based origin. On an empty grid `ok` is false and the spacings are unchanged. |
| Scenes.Scene.ForwardThenBack | grid.py:263-267 | Forward then back restores the class. The coordinates and every cell's options are preserved, and every cell is new. On a non-empty grid the spacings are again those of the original class and every sprite is laid out anew. On an empty grid the spacings are unchanged. |
| Scenes.Scene.Retype | grid.py:253-260 | Like `SetGridType` without the layout: every cell is rebuilt without a sprite, and the spacings are set only when a cell was made. |
| Scenes.Scene.Render | grid.py:261-261 | Laying out a rebuilt grid changes only the sprites. Each sprite is created from the cell's options and placed at its origin. |
| Scenes.Scene.RebuildAs | grid.py:256-258 | The loop rewrites every cell at its own coordinate as a new cell of class `k` with the same options. The last cell made is null exactly for an empty grid. |
| Scenes.Scene.RebuildColumn | grid.py:256-258 | One column of that loop: every row is replaced and the other columns are untouched. |
| Scenes.Scene.ReplaceCell | grid.py:257-258 | A new cell of class `k` built from `e`'s options is `set` at `e`'s place. |
| Scenes.Scene.CreateElement | grid.py:217-226 | A new cell at `(i, j)` with the checkerboard options is added. Every other coordinate is unchanged. |
| Scenes.Scene.CreateColumn | grid.py:246-247 | Rows `j0` to `j1 - 1` of column `i` are filled with new cells, and everything else is unchanged. |
| Scenes.Scene.OnResize | grid.py:269-314 | `cols`/`rows` grow by the axis arithmetic, and the grid moves by half of each leftover. Exactly the new column block and the new row block hold new cells of the current class, and everything else looks up as before. Every sprite is then placed at its origin. |
| Scenes.Scene.ResizeColumns | grid.py:269-290 | The X half: new columns `[old cols, old cols + n) x [0, rows)` are built from `create_element`'s options, and nothing else changes. `grid.x` moves by leftover/2, and the window width is remembered. |
| Scenes.Scene.ResizeRows | grid.py:292-312 | The Y half: the same over `[0, cols) x [old rows, old rows + n)`, with the row spacing. |
| Scenes.Scene.AddColumns | grid.py:278-280 | The nested loop fills exactly the block of columns `i0` to `i1 - 1` by `rows` rows. |
| Scenes.Scene.AddRows | grid.py:300-302 | The nested loop fills exactly the block of rows `j0` to `j1 - 1` across `cols` columns. |
| Scenes.Scene.CreateRow | grid.py:301-302 | Columns `i0` to `i1 - 1` of row `j` are filled, and everything else is unchanged. |
| Scenes.Scene.OnMouseOver | grid.py:316-322 | The sprite's colours are exchanged unless it is being animated. A blank spot changes nothing. |
| Scenes.Scene.OnMouseOut | grid.py:324-328 | The sprite's colours are exchanged, with no animation check. |
| Scenes.Scene.PointerPasses | grid.py:316-328 | Entering and leaving a sprite that is not animated leaves it as it was. |
| MouseTrail.Square | mouse_fade_out.py:49-50 | Each square is centred on its point, with side `2 * radius` and corner radius `radius / 5`, which is 6. |
| MouseTrail.Push | mouse_fade_out.py:36-37 | After a move, the new point is first and the length is `min(old + 1, 10)`. The rest is the old trail's prefix in order, so only points past the tenth are dropped. |
| MouseTrail.Faded | mouse_fade_out.py:53-54 | With more than one point, exactly the last (oldest) is removed. Otherwise nothing changes. |
| MouseTrail.Alpha | mouse_fade_out.py:43-46 | The opacity rule: every square gets an alpha in `(0, 1]`. |
| MouseTrail.NewestOpaque | mouse_fade_out.py:43-44 | The newest point, drawn last, has alpha 1. |
| MouseTrail.OlderBelowHalf | mouse_fade_out.py:45-46 | Every older point has alpha strictly between 0 and 1/2. |
| MouseTrail.AlphaIncreasing | mouse_fade_out.py:40-46 | Alpha strictly increases with the drawing order. |
| MouseTrail.FadeKeepsNewest | mouse_fade_out.py:33-54 | After a move, an expose leaves a non-empty trail that still starts with the new point. |
| MouseTrail.FadedRepeatedly | mouse_fade_out.py:53-54 | On a non-empty trail of `n` points, `k` exposes without a move leave its first `n - k` points while `k < n`, and only the newest point for every `k >= n`: further exposes keep it. |
| MouseTrail.Canvas.constructor | mouse_fade_out.py:22-30 | The trail starts empty. |
| MouseTrail.Canvas.OnMouseMove | mouse_fade_out.py:33-37 | The trail becomes `Push(old, p)`, and the at-most-ten bound is kept. |
| MouseTrail.Canvas.OnExpose | mouse_fade_out.py:39-56 | The loop draws one square per point, oldest first: the `i`-th around `coords[n-1-i]`, with alpha `Alpha(i, n)`. The trail then becomes `Faded(old)`, and the bound is kept. |

## Left out

- Drawing is not modelled. It is done by foreign calls into the graphics toolkit: the variants' `on_render` outlines, `graphics.clear`, `add_child`, the `sprites` reset, `set_color`, `draw_rect`, `context.fill` and `redraw_canvas`. `on_expose` returns the squares it would draw instead.
- Signal wiring (`connect`) and `graphics.Sprite`, the base class of `GridElementSprite`, are not modelled. A sprite is a value stored in its cell's memo, so sprite aliasing between the cell and the scene is not captured. The scene's hover handlers receive the cell whose sprite the pointer is over.
- The `print` statements and both `__main__` gtk windows are not modelled. bubblewrap.py is not part of this model: it is animation and caching glue over the toolkit.
- Scenes.Scene.SetAction: implements `set_action` as intended, installing the handler it is given. The code as written always installs `prev_grid_type` (see ## Findings), so `Scenes.Scene.SetAction`, `Scenes.Scene.LinkCorners`, `Scenes.Scene.CreateGrid` and `Scenes.Scene.constructor` state the corrected links.
- Scenes.Scene.OnMouseOver: the tweener lookup is an input, `tweening`, because it reads external animation state.
- Dictionary iteration order is modelled as increasing keys. `Grids.Grid.Elements` is a set, so the order of `elements` is left open.
- The shrink branches of `on_resize` are modelled as written. `int(offset / size)` is negative there, so the `range` that would call the undefined `remove_column`/`remove_row` is empty, no line is removed, and `cols`/`rows` grow (`Scenes.ShrinkGrowsCount`). A shrink that really removes lines is not modelled.
- Scenes.Scene.OnResize: states only the class of the new cells, not their options. `Scenes.Scene.ResizeColumns` and `Scenes.Scene.ResizeRows` state the options, but carrying them across the final layout is too costly to prove. The sprites are stated by position only (`x` and `y`); their colours, height and handler, which `Grids.Grid.OnRender` states, are not carried over.
- Scenes.Scene.SetGridType: the `NameError` that Python raises on an empty grid is the result `ok == false`. `element_number` has already changed at that point, as in the source.
- Grids.Grid.SetAt: the grid stays well formed only when the new cell sits at `(i, j)`, as at every call in the program. A misplaced cell is accepted but not tracked further.
- Grids.Grid.OnRender: the `widget` argument is not modelled because the code ignores it.
- Floating-point rounding is not modelled: the factors 0.75, 0.866 and 0.5, the leftover and the trail alphas are exact reals.
- The canvas's unused `x`, `y` and `mouse_moving` fields are not modelled.

## Findings

| source | as written | input that shows it | evidently intended | confidence | as-written member | corrected member |
|---|---|---|---|---|---|---|
| grid.py:233 | `set_action` installs `prev_grid_type` whatever its `on_click` argument is | `create_grid` calls `set_action(cols-1, 0, next_grid_type)`, and the top-right "next" link then goes back a class | install the `on_click` argument | not executed | Scenes.ActionArgsAsWritten (shown by Scenes.ForwardLinkGoesBack) | Scenes.ActionArgs (used by Scenes.Scene.SetAction and Scenes.InitialArgs) |
