/**
 * Screen rectangles of the monitored regions. A region is given by the
 * two corners the user clicked, each coordinate possibly still unset.
 */
module Geometry {
  import opened Wrappers

  datatype Region = Region(x1: Option<int>, y1: Option<int>, x2: Option<int>, y2: Option<int>)

  /** A region with no coordinates chosen yet. */
  const Unset: Region := Region(None, None, None, None)

  /** The (x, y, w, h) box handed to the screenshot call. */
  datatype Rect = Rect(x: int, y: int, w: int, h: int)

  /** No coordinate of the region is None. */
  predicate IsSet(r: Region) {
    r.x1.Some? && r.y1.Some? && r.x2.Some? && r.y2.Some?
  }

  function Min(a: int, b: int): int {
    if a <= b then a else b
  }

  function Abs(a: int): int {
    if a < 0 then -a else a
  }

  /**
   * x, y = min(x1, x2), min(y1, y2); w, h = abs(x2 - x1), abs(y2 - y1):
   * the box whose opposite corners are the two clicked points, whichever
   * order they were clicked in.
   */
  function Normalize(x1: int, y1: int, x2: int, y2: int): (r: Rect)
    ensures r.w >= 0 && r.h >= 0
    ensures {r.x, r.x + r.w} == {x1, x2}
    ensures {r.y, r.y + r.h} == {y1, y2}
  {
    Rect(Min(x1, x2), Min(y1, y2), Abs(x2 - x1), Abs(y2 - y1))
  }

  /**
   * The geometry of region_to_image: no box when a coordinate is unset or
   * the box has no width or no height; otherwise the normalised box.
   */
  function RegionToRect(r: Region): (o: Option<Rect>)
    ensures o.Some? <==> IsSet(r) && r.x1.value != r.x2.value && r.y1.value != r.y2.value
    ensures o.Some? ==> o.value.w > 0 && o.value.h > 0
    ensures o.Some? ==> {o.value.x, o.value.x + o.value.w} == {r.x1.value, r.x2.value}
    ensures o.Some? ==> {o.value.y, o.value.y + o.value.h} == {r.y1.value, r.y2.value}
  {
    if !IsSet(r) then None
    else
      var box := Normalize(r.x1.value, r.y1.value, r.x2.value, r.y2.value);
      if box.w <= 0 || box.h <= 0 then None else Some(box)
  }
}
