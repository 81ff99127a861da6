/** The bounded random walks of the placement searches, stated as pure
    functions of the draws. A walk starts at a drawn point; step t adds the
    t-th drawn offset and clips the result into [0, outer] on each axis
    (`np.clip(a_min=(0, 0), a_max=_outer_bound)`). */
module Walk {
  import opened Raster
  import opened Blit

  /** A candidate top-left corner (row, column). */
  datatype Point = Point(row: int, col: int)

  /** `np.clip` of one coordinate, `minimum(maximum(x, lo), hi)`: the
      result is one of x, lo and hi, lies in [lo, hi] when that range is
      non-empty, is x itself when x does, and is hi when the range is
      empty. */
  function Clip(x: int, lo: int, hi: int): (r: int)
    ensures r == x || r == lo || r == hi
    ensures lo <= hi ==> lo <= r <= hi
    ensures lo <= x <= hi ==> r == x
    ensures hi < lo ==> r == hi
  {
    if hi < x || hi < lo then hi else if x < lo then lo else x
  }

  /** One walk step: add the offset, clip into [0, outer]. */
  function Step(pt: Point, d: Point, outer: Point): (r: Point)
    requires 0 <= outer.row && 0 <= outer.col
    ensures 0 <= r.row <= outer.row && 0 <= r.col <= outer.col
    ensures 0 <= pt.row + d.row <= outer.row ==> r.row == pt.row + d.row
    ensures 0 <= pt.col + d.col <= outer.col ==> r.col == pt.col + d.col
  {
    Point(Clip(pt.row + d.row, 0, outer.row), Clip(pt.col + d.col, 0, outer.col))
  }

  /** Every point of the walk keeps the sprite's window inside the canvas. */
  predicate InBounds(pt: Point, outer: Point)
  {
    0 <= pt.row <= outer.row && 0 <= pt.col <= outer.col
  }

  /** The point after the first n steps of the walk. */
  function WalkPoint(start: Point, steps: seq<Point>, outer: Point, n: nat): Point
    requires 0 <= outer.row && 0 <= outer.col && n <= |steps|
  {
    if n == 0 then start else Step(WalkPoint(start, steps, outer, n - 1), steps[n - 1], outer)
  }

  /** `_secondary_insert`'s loop from retry i on, at the current point cur:
      the first walk point whose window does not overlap, or None once
      `patience` tries are spent. */
  function SecondaryFrom(v: MaskGrid, img: Sprite, cur: Point, steps: seq<Point>, outer: Point, i: nat,
                         patience: int): (r: Option<Point>)
    requires 0 <= outer.row && 0 <= outer.col && patience <= |steps|
    ensures r.Some? ==> InBounds(r.value, outer)
    decreases patience - i
  {
    if i >= patience then None
    else
      var next := Step(cur, steps[i], outer);
      if !Overlaps(v, next.row, next.col, img) then Some(next)
      else SecondaryFrom(v, img, next, steps, outer, i + 1, patience)
  }

  /** `_try_insert`'s loop from retry i on, following its decision table:
      initially overlapped and still overlapping: keep walking; initially
      overlapped and now free: place here; initially free and still free:
      remember this point and keep walking; initially free and now
      overlapping: place at the last remembered point. */
  function TryFrom(v: MaskGrid, img: Sprite, initOverlapped: bool, cur: Point, last: Point, steps: seq<Point>,
                   outer: Point, i: nat, patience: int): (r: Option<Point>)
    requires 0 <= outer.row && 0 <= outer.col && patience <= |steps|
    ensures r.Some? ==> InBounds(r.value, outer) || r.value == last
    decreases patience - i
  {
    if i >= patience then None
    else
      var next := Step(cur, steps[i], outer);
      var overlap := Overlaps(v, next.row, next.col, img);
      if overlap && initOverlapped then TryFrom(v, img, initOverlapped, next, last, steps, outer, i + 1, patience)
      else if !overlap && initOverlapped then Some(next)
      else if !overlap && !initOverlapped then TryFrom(v, img, initOverlapped, next, next, steps, outer, i + 1, patience)
      else Some(last)
  }

  /** The random walk places only at a free point inside the legal range. */
  lemma {:induction false} SecondaryPicksFreePoint(v: MaskGrid, img: Sprite, cur: Point, steps: seq<Point>,
                                                   outer: Point, i: nat, patience: int)
    requires 0 <= outer.row && 0 <= outer.col && patience <= |steps|
    ensures var r := SecondaryFrom(v, img, cur, steps, outer, i, patience);
      r.Some? ==> InBounds(r.value, outer) && !Overlaps(v, r.value.row, r.value.col, img)
    decreases patience - i
  {
    if i < patience {
      var next := Step(cur, steps[i], outer);
      if Overlaps(v, next.row, next.col, img) {
        SecondaryPicksFreePoint(v, img, next, steps, outer, i + 1, patience);
      }
    }
  }

  /** The random walk drops the sprite exactly when every one of its
      `patience` candidates overlaps. */
  lemma {:induction false} SecondaryDropsIffAllOverlap(v: MaskGrid, img: Sprite, start: Point, steps: seq<Point>,
                                                       outer: Point, i: nat, patience: int)
    requires 0 <= outer.row && 0 <= outer.col && patience <= |steps| && i <= |steps|
    ensures SecondaryFrom(v, img, WalkPoint(start, steps, outer, i), steps, outer, i, patience).None?
        <==> forall t :: i < t <= patience ==>
               Overlaps(v, WalkPoint(start, steps, outer, t).row, WalkPoint(start, steps, outer, t).col, img)
    decreases patience - i
  {
    if i < patience {
      SecondaryDropsIffAllOverlap(v, img, start, steps, outer, i + 1, patience);
    }
  }

  /** The random walk places at the first free walk point. */
  lemma {:induction false} SecondaryPlacesAtFirstFree(v: MaskGrid, img: Sprite, start: Point, steps: seq<Point>,
                                                      outer: Point, i: nat, patience: int, t: nat)
    requires 0 <= outer.row && 0 <= outer.col && patience <= |steps|
    requires i < t <= patience
    requires !Overlaps(v, WalkPoint(start, steps, outer, t).row, WalkPoint(start, steps, outer, t).col, img)
    requires forall s :: i < s < t ==>
      Overlaps(v, WalkPoint(start, steps, outer, s).row, WalkPoint(start, steps, outer, s).col, img)
    ensures SecondaryFrom(v, img, WalkPoint(start, steps, outer, i), steps, outer, i, patience)
         == Some(WalkPoint(start, steps, outer, t))
    decreases t - i
  {
    if i + 1 < t {
      SecondaryPlacesAtFirstFree(v, img, start, steps, outer, i + 1, patience, t);
    }
  }

  /** Whatever the draws, `_try_insert` places only at a free point inside
      the legal range, provided the remembered point is free whenever the
      walk started free. */
  lemma {:induction false} TryPicksFreePoint(v: MaskGrid, img: Sprite, initOverlapped: bool, cur: Point, last: Point,
                                             steps: seq<Point>, outer: Point, i: nat, patience: int)
    requires 0 <= outer.row && 0 <= outer.col && patience <= |steps|
    requires !initOverlapped ==> InBounds(last, outer) && !Overlaps(v, last.row, last.col, img)
    ensures var r := TryFrom(v, img, initOverlapped, cur, last, steps, outer, i, patience);
      r.Some? ==> InBounds(r.value, outer) && !Overlaps(v, r.value.row, r.value.col, img)
    decreases patience - i
  {
    if i < patience {
      var next := Step(cur, steps[i], outer);
      var overlap := Overlaps(v, next.row, next.col, img);
      if overlap && initOverlapped {
        TryPicksFreePoint(v, img, initOverlapped, next, last, steps, outer, i + 1, patience);
      } else if !overlap && !initOverlapped {
        TryPicksFreePoint(v, img, initOverlapped, next, next, steps, outer, i + 1, patience);
      }
    }
  }

  /** Escaping: from an overlapping start, `_try_insert` behaves exactly
      like `_secondary_insert` (it places at the first free walk point). */
  lemma {:induction false} TryEscapeIsSecondary(v: MaskGrid, img: Sprite, cur: Point, last: Point, steps: seq<Point>,
                                                outer: Point, i: nat, patience: int)
    requires 0 <= outer.row && 0 <= outer.col && patience <= |steps|
    ensures TryFrom(v, img, true, cur, last, steps, outer, i, patience)
         == SecondaryFrom(v, img, cur, steps, outer, i, patience)
    decreases patience - i
  {
    if i < patience {
      var next := Step(cur, steps[i], outer);
      if Overlaps(v, next.row, next.col, img) {
        TryEscapeIsSecondary(v, img, next, last, steps, outer, i + 1, patience);
      }
    }
  }

  /** Seeking: from a free start, if walk points i+1 .. t-1 are free and
      point t overlaps, `_try_insert` backs off to point t-1. */
  lemma {:induction false} TrySeekBacksOff(v: MaskGrid, img: Sprite, start: Point, steps: seq<Point>,
                                           outer: Point, i: nat, patience: int, t: nat)
    requires 0 <= outer.row && 0 <= outer.col && patience <= |steps|
    requires i < t <= patience
    requires Overlaps(v, WalkPoint(start, steps, outer, t).row, WalkPoint(start, steps, outer, t).col, img)
    requires forall s :: i < s < t ==>
      !Overlaps(v, WalkPoint(start, steps, outer, s).row, WalkPoint(start, steps, outer, s).col, img)
    ensures TryFrom(v, img, false, WalkPoint(start, steps, outer, i), WalkPoint(start, steps, outer, i),
                    steps, outer, i, patience)
         == Some(WalkPoint(start, steps, outer, t - 1))
    decreases t - i
  {
    if i + 1 < t {
      TrySeekBacksOff(v, img, start, steps, outer, i + 1, patience, t);
    }
  }

  /** Seeking without ever meeting occupied space spends the whole budget
      and places nothing. */
  lemma {:induction false} TryFreeWalkDrops(v: MaskGrid, img: Sprite, start: Point, steps: seq<Point>,
                                            outer: Point, i: nat, patience: int)
    requires 0 <= outer.row && 0 <= outer.col && patience <= |steps| && i <= |steps|
    requires forall s :: i < s <= patience ==>
      !Overlaps(v, WalkPoint(start, steps, outer, s).row, WalkPoint(start, steps, outer, s).col, img)
    ensures TryFrom(v, img, false, WalkPoint(start, steps, outer, i), WalkPoint(start, steps, outer, i),
                    steps, outer, i, patience).None?
    decreases patience - i
  {
    if i < patience {
      TryFreeWalkDrops(v, img, start, steps, outer, i + 1, patience);
    }
  }
}
