/** The page model shared by the content filters: areas, the flip from the
    top-down crop coordinates to PDF user space, and page dictionaries whose
    entries are content streams or other objects. */
module Pages {
  import opened Common

  /** A rectangle in PDF user space (y grows upwards). */
  datatype Area = Area(x1: real, y1: real, x2: real, y2: real)

  /** Closed containment of a point in an area. */
  predicate InArea(x: real, y: real, a: Area) {
    a.x1 <= x <= a.x2 && a.y1 <= y <= a.y2
  }

  /** A crop rectangle as drawn on the rendered page: y grows downwards, so
      `top` is the smaller y. */
  datatype Rect = Rect(left: real, top: real, right: real, bottom: real)

  /** The y axis flipped against the page height. */
  function Flip(r: Rect, height: real): Area {
    Area(r.left, height - r.bottom, r.right, height - r.top)
  }

  /** Flipping keeps an ordered rectangle ordered, and a point lies in the
      flipped area exactly when its mirror image lies in the rectangle. */
  lemma FlipContainment(r: Rect, height: real, x: real, y: real)
    ensures r.top <= r.bottom ==> Flip(r, height).y1 <= Flip(r, height).y2
    ensures InArea(x, height - y, Flip(r, height)) <==> (r.left <= x <= r.right && r.top <= y <= r.bottom)
  {
  }

  /** A page-dictionary entry: a content stream, with its decoded text or
      `None` when neither its filters nor zlib can decode it, or any other object. */
  datatype Entry = ContentStream(data: Option<string>) | OtherObject

  /** A page: the height of its media box and its dictionary's entries in order. */
  datatype Page = Page(height: real, entries: seq<Entry>)
}
