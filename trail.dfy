/**
 * The pointer trail of mouse_fade_out.py: the canvas keeps up to the last ten
 * pointer positions, newest first, and every expose draws them oldest first
 * with a rising opacity, then forgets the oldest one unless it is the only one.
 */
module MouseTrail {

  /** A pointer position as the mouse-move event reports it. */
  datatype Point = Point(x: real, y: real)

  /**
   * One rounded square drawn by `on_expose`: its top-left corner, its side,
   * the radius of its rounded corners and its opacity.
   */
  datatype Dot = Dot(left: real, top: real, side: int, corner: int, alpha: real)

  /** The canvas's `radius`: half the side of every square. */
  const Radius: int := 30

  /** The square drawn around `p`; `radius / 5` is an integer division. */
  function Square(p: Point, alpha: real): (d: Dot)
    ensures d.left + d.side as real / 2.0 == p.x && d.top + d.side as real / 2.0 == p.y
    ensures d.side == 2 * Radius && d.corner == 6 && d.alpha == alpha
  {
    Dot(p.x - Radius as real, p.y - Radius as real, Radius * 2, Radius / 5, alpha)
  }

  /** The trail length `on_mouse_move` cuts to. */
  const MaxTrail: nat := 10

  function Min(a: int, b: int): int {
    if a < b then a else b
  }

  /**
   * The trail after a move to `p`: `p` in front of the old trail, cut to
   * `MaxTrail` entries.
   */
  function Push(trail: seq<Point>, p: Point): (r: seq<Point>)
    ensures |r| == Min(|trail| + 1, MaxTrail)
    ensures r[0] == p
    ensures r[1..] == trail[..|r| - 1]
  {
    ([p] + trail)[..Min(|trail| + 1, MaxTrail)]
  }

  /** What an expose leaves: the trail without its oldest entry, unless at most one remains. */
  function Faded(trail: seq<Point>): (r: seq<Point>)
    ensures |trail| > 1 ==> r == trail[..|trail| - 1]
    ensures |trail| <= 1 ==> r == trail
  {
    if |trail| > 1 then trail[..|trail| - 1] else trail
  }

  /**
   * The opacity of the `i`-th square drawn out of `n`: the last one drawn
   * (the newest point) is opaque, the others get `(i + 1) / n / 2`.
   */
  function Alpha(i: nat, n: nat): (r: real)
    requires i < n
    ensures 0.0 < r <= 1.0
  {
    if i == n - 1 then 1.0 else (i + 1) as real / n as real / 2.0
  }

  /** The newest point is drawn opaque. */
  lemma NewestOpaque(n: nat)
    requires n > 0
    ensures Alpha(n - 1, n) == 1.0
  {
  }

  /** Every older point is drawn with an opacity above 0 and below one half. */
  lemma OlderBelowHalf(i: nat, n: nat)
    requires i < n - 1
    ensures 0.0 < Alpha(i, n) < 0.5
  {
    var a := (i + 1) as real / n as real;
    assert a * n as real == (i + 1) as real;
    assert a < 1.0;
  }

  /** The opacity rises with the drawing order: older points are fainter. */
  lemma AlphaIncreasing(i: nat, j: nat, n: nat)
    requires i < j < n
    ensures Alpha(i, n) < Alpha(j, n)
  {
    if j == n - 1 {
      OlderBelowHalf(i, n);
    } else {
      var a := (i + 1) as real / n as real;
      var b := (j + 1) as real / n as real;
      assert a * n as real == (i + 1) as real;
      assert b * n as real == (j + 1) as real;
      assert a < b;
    }
  }

  /** A move makes the trail non-empty, and an expose never empties a non-empty trail. */
  lemma FadeKeepsNewest(trail: seq<Point>, p: Point)
    ensures Faded(Push(trail, p)) != []
    ensures Faded(Push(trail, p))[0] == p
  {
  }

  /** The trail after `k` exposes with no move in between. */
  function FadeTimes(trail: seq<Point>, k: nat): seq<Point> {
    if k == 0 then trail else Faded(FadeTimes(trail, k - 1))
  }

  /**
   * Between moves, exposes shorten a non-empty trail one entry at a time from
   * the old end, down to the newest point alone, which every later expose keeps.
   */
  lemma {:induction false} FadedRepeatedly(trail: seq<Point>, k: nat)
    requires trail != []
    ensures FadeTimes(trail, k) == trail[..if k < |trail| then |trail| - k else 1]
  {
    if k > 0 {
      FadedRepeatedly(trail, k - 1);
      if k < |trail| {
        assert trail[..|trail| - (k - 1)][..|trail| - k] == trail[..|trail| - k];
      }
    }
  }

  /** The drawing area with its trail of pointer positions. */
  class Canvas {
    var coords: seq<Point>

    /** The trail never holds more than `MaxTrail` points. */
    ghost predicate Valid()
      reads this
    {
      |coords| <= MaxTrail
    }

    /** `__init__`: an empty trail. */
    constructor ()
      ensures Valid() && coords == []
    {
      coords := [];
    }

    /** `on_mouse_move`: put the new position in front and cut the trail to its length limit. */
    method OnMouseMove(p: Point)
      requires Valid()
      modifies this
      ensures Valid()
      ensures coords == Push(old(coords), p)
    {
      coords := [p] + coords;
      coords := coords[..Min(|coords|, MaxTrail)];
    }

    /**
     * `on_expose`: draw the trail oldest first, the `i`-th square with opacity
     * `Alpha(i, n)` around its point, then drop the oldest point unless it is the only one.
     */
    method OnExpose() returns (drawn: seq<Dot>)
      requires Valid()
      modifies this
      ensures Valid()
      ensures |drawn| == |old(coords)|
      ensures forall i :: 0 <= i < |drawn| ==>
        drawn[i] == Square(old(coords)[|drawn| - 1 - i], Alpha(i, |drawn|))
      ensures coords == Faded(old(coords))
    {
      var n := |coords|;
      drawn := [];
      var i := 0;
      while i < n
        invariant 0 <= i <= n && |drawn| == i
        invariant forall k :: 0 <= k < i ==> drawn[k] == Square(coords[n - 1 - k], Alpha(k, n))
      {
        var alpha: real;
        if i == n - 1 {
          alpha := 1.0;
        } else {
          alpha := (i + 1) as real / n as real / 2.0;
        }
        var p := coords[n - 1 - i];
        drawn := drawn + [Dot(p.x - Radius as real, p.y - Radius as real, Radius * 2, Radius / 5, alpha)];
        i := i + 1;
      }
      if n > 1 {
        coords := coords[..n - 1];
      }
    }
  }
}
